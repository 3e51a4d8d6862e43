/** The six request handlers of the student API, acting on the key-value
    store held in one object. Each method does what its handler does to the
    store and reports the status the handler answers with. */
module Server {
  import opened Js
  import opened Redis
  import opened Students

  class StudentServer {
    /** The store's whole keyspace. */
    var db: Keyspace

    /** The store's own invariant: no key holds an empty hash. */
    ghost predicate Valid()
      reads this
    {
      NoEmptyHash(db)
    }

    constructor (initial: Keyspace)
      requires NoEmptyHash(initial)
      ensures Valid() && db == initial
    {
      db := initial;
    }

    /** POST /students/upload: without a file, 400 and nothing written;
        otherwise the rows with an id are collected in file order and then
        written one after the other, each with its defaults filled in. */
    method Upload(file: Option<seq<Row>>) returns (status: Status)
      requires Valid()
      modifies this
      ensures Valid()
      ensures file.None? ==> status == BadRequest && db == old(db)
      ensures file.Some? ==> status == Ok && db == Import(old(db), WithId(file.value))
      ensures Tidy(old(db)) ==> Tidy(db)
    {
      if file.None? {
        return BadRequest;
      }
      var students := CollectRows(file.value);
      WriteRows(students);
      if Tidy(old(db)) {
        ImportKeepsTidy(old(db), students);
      }
      status := Ok;
    }

    /** The parser's row handler: keep the rows whose id is truthy, in order. */
    static method CollectRows(rows: seq<Row>) returns (students: seq<Row>)
      ensures students == WithId(rows)
    {
      students := [];
      for i := 0 to |rows|
        invariant students == WithId(rows[..i])
      {
        assert rows[..i + 1][..i] == rows[..i];
        if HasId(rows[i]) {
          students := students + [rows[i]];
        }
      }
      assert rows[..|rows|] == rows;
    }

    /** The end handler's loop: write each collected row in turn. */
    method WriteRows(students: seq<Row>)
      requires Valid()
      requires forall i :: 0 <= i < |students| ==> HasId(students[i])
      modifies this
      ensures Valid()
      ensures db == Import(old(db), students)
    {
      ghost var start := db;
      for i := 0 to |students|
        invariant Valid()
        invariant db == Import(start, students[..i])
      {
        var student := students[i];
        ImportStep(start, students, i);
        db := HSet(db, KeyOf(student["id"]), RowRecord(student));
      }
      assert students[..|students|] == students;
    }

    /** POST /students: 400 and nothing written unless all five properties
        are supplied; otherwise the four fields are merged into the record's
        hash and the answer is 201. */
    method Create(body: Body) returns (status: Status)
      requires Valid()
      modifies this
      ensures Valid()
      ensures status == Created <==> CreateAccepted(body)
      ensures !CreateAccepted(body) ==> status == BadRequest && db == old(db)
      ensures CreateAccepted(body) ==>
                db == HSet(old(db), KeyOf(Text(body["id"])), CreateRecord(body))
      ensures Tidy(old(db)) ==> Tidy(db)
    {
      if !CreateAccepted(body) {
        return BadRequest;
      }
      var record := CreateRecord(body);
      RecordWriteKeepsTidy(db, Text(body["id"]), record);
      db := HSet(db, KeyOf(Text(body["id"])), record);
      status := Created;
    }

    /** GET /students/:id: 404 when the record's hash is empty, which in the
        store means the key is absent; otherwise 200 with the stored fields. */
    method Read(id: string) returns (status: Status, student: Option<Hash>)
      requires Valid()
      ensures status == Ok <==> KeyOf(id) in db
      ensures status == NotFound <==> KeyOf(id) !in db
      ensures student == if KeyOf(id) in db then Some(db[KeyOf(id)]) else None
      ensures Tidy(db) && student.Some? ==> student.value.Keys <= StudentFields && "id" !in student.value
    {
      var h := HGetAll(db, KeyOf(id));
      if |h| == 0 {
        return NotFound, None;
      }
      status, student := Ok, Some(h);
    }

    /** GET /students: one entry per key matching `student:*`, in the
        store's unspecified key order, each the record's fields plus the id
        cut out of the key. */
    method List() returns (students: seq<Hash>, ghost keys: seq<string>)
      ensures |students| == |StudentKeys(db)|
      ensures forall i :: 0 <= i < |students| ==> IsListedEntry(db, students[i])
      ensures |keys| == |students|
      ensures forall k :: k in StudentKeys(db) ==> k in keys
      ensures forall i, j :: 0 <= i < j < |keys| ==> keys[i] != keys[j]
      ensures forall i :: 0 <= i < |keys| ==>
                keys[i] in StudentKeys(db) && students[i] == ListEntry(keys[i], db[keys[i]])
    {
      var all := StudentKeys(db);
      var remaining := all;
      students, keys := [], [];
      while remaining != {}
        invariant remaining <= all
        invariant forall k :: k in all && k !in remaining ==> k in keys
        invariant forall i :: 0 <= i < |keys| ==> keys[i] in all && keys[i] !in remaining
        invariant forall i, j :: 0 <= i < j < |keys| ==> keys[i] != keys[j]
        invariant |students| == |keys| && |keys| + |remaining| == |all|
        invariant forall i :: 0 <= i < |keys| ==> students[i] == ListEntry(keys[i], db[keys[i]])
        decreases |remaining|
      {
        var key :| key in remaining;
        assert |remaining - {key}| == |remaining| - 1;
        students := students + [ListEntry(key, HGetAll(db, key))];
        keys := keys + [key];
        remaining := remaining - {key};
      }
      EntriesListed(db, keys, students);
    }

    /** PUT /students/:id: 400 when none of the four fields is supplied, 404
        when the record is absent, both leaving the store as it was;
        otherwise the supplied fields, and only those, are merged in. */
    method Update(id: string, body: Body) returns (status: Status)
      requires Valid()
      modifies this
      ensures Valid()
      ensures !UpdateAccepted(body) ==> status == BadRequest && db == old(db)
      ensures UpdateAccepted(body) && KeyOf(id) !in old(db) ==> status == NotFound && db == old(db)
      ensures UpdateAccepted(body) && KeyOf(id) in old(db) ==>
                status == Ok && db == HSet(old(db), KeyOf(id), UpdateFields(body))
      ensures Tidy(old(db)) ==> Tidy(db)
    {
      if !UpdateAccepted(body) {
        return BadRequest;
      }
      var existing := HGetAll(db, KeyOf(id));
      if |existing| == 0 {
        return NotFound;
      }
      var updated: Hash := map[];
      if Supplied(body, "name") { updated := updated["name" := Text(body["name"])]; }
      if Supplied(body, "course") { updated := updated["course" := Text(body["course"])]; }
      if Supplied(body, "age") { updated := updated["age" := Text(body["age"])]; }
      if Supplied(body, "address") { updated := updated["address" := Text(body["address"])]; }
      assert updated == UpdateFields(body);
      RecordWriteKeepsTidy(db, id, updated);
      db := HSet(db, KeyOf(id), updated);
      status := Ok;
    }

    /** DELETE /students/:id: removes the key whether or not it was there and
        always answers 200. */
    method Delete(id: string) returns (status: Status)
      requires Valid()
      modifies this
      ensures Valid()
      ensures status == Ok
      ensures db == Del(old(db), KeyOf(id))
      ensures KeyOf(id) !in db
      ensures Tidy(old(db)) ==> Tidy(db)
    {
      db := Del(db, KeyOf(id));
      status := Ok;
    }
  }
}
