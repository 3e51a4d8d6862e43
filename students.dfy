/** The student table kept in the key-value store: how request bodies and CSV
    rows are checked and turned into the hash stored under `student:<id>`, how
    a listed key is turned back into an id, and the effect of a CSV import on
    the keyspace. Everything here is a pure function of its inputs; the
    handlers that apply these to the store are in module Server. */
module Students {
  import opened Js
  import opened Redis

  /** A parsed JSON request body: property name to scalar value. */
  type Body = map<string, Json>

  /** A CSV row keyed by the header line's column names. */
  type Row = map<string, string>

  /** The HTTP status a handler answers with: 200, 201, 400 and 404. */
  datatype Status = Ok | Created | BadRequest | NotFound

  /** Every record lives under this prefix; listing uses the pattern `student:*`. */
  const KeyPrefix: string := "student:"

  /** The fields a stored record holds; the id is only in the key. */
  const StudentFields: set<string> := {"name", "course", "age", "address"}

  /** The key of a record: `student:${id}`. */
  function KeyOf(id: string): (key: string)
    ensures KeyPrefix <= key && key[|KeyPrefix|..] == id
  {
    KeyPrefix + id
  }

  /** The keys KEYS `student:*` reports. */
  function StudentKeys(db: Keyspace): set<string> {
    KeysWithPrefix(db, KeyPrefix)
  }

  /** Every student hash holds only the four record fields. Records written by
      this service keep it; a field written by another client would not. */
  ghost predicate Tidy(db: Keyspace) {
    forall k :: k in db && KeyPrefix <= k ==> db[k].Keys <= StudentFields
  }

  /** A body property is supplied when present and truthy. */
  predicate Supplied(body: Body, f: string) {
    f in body && IsTruthy(body[f])
  }

  // ---------------------------------------------------------------- create

  /** Create accepts a body only when all five properties are supplied. */
  predicate CreateAccepted(body: Body) {
    Supplied(body, "id") && Supplied(body, "name") && Supplied(body, "course")
    && Supplied(body, "age") && Supplied(body, "address")
  }

  /** The hash create writes: the four fields as text, never the id. */
  function CreateRecord(body: Body): (h: Hash)
    requires CreateAccepted(body)
    ensures h.Keys == StudentFields && "id" !in h
    ensures forall f :: f in h ==> f in body && h[f] == Text(body[f]) && h[f] != ""
  {
    map["name" := Text(body["name"]), "course" := Text(body["course"]),
        "age" := Text(body["age"]), "address" := Text(body["address"])]
  }

  // ---------------------------------------------------------------- update

  /** Update needs at least one of the four record fields supplied. */
  predicate UpdateAccepted(body: Body) {
    Supplied(body, "name") || Supplied(body, "course")
    || Supplied(body, "age") || Supplied(body, "address")
  }

  /** `if (body[f]) fields[f] = body[f]`. */
  function CopyIfSupplied(fields: Hash, body: Body, f: string): Hash {
    if Supplied(body, f) then fields[f := Text(body[f])] else fields
  }

  /** The fields update writes: exactly the supplied record fields, as text. */
  function UpdateFields(body: Body): (h: Hash)
    ensures forall f :: f in h <==> f in StudentFields && Supplied(body, f)
    ensures forall f :: f in h ==> f in body && h[f] == Text(body[f]) && h[f] != ""
    ensures h != map[] <==> UpdateAccepted(body)
  {
    var h := CopyIfSupplied(CopyIfSupplied(CopyIfSupplied(CopyIfSupplied(
               map[], body, "name"), body, "course"), body, "age"), body, "address");
    assert Supplied(body, "name") ==> "name" in h;
    h
  }

  /** Writing only record fields under a student key keeps the table tidy. */
  lemma RecordWriteKeepsTidy(db: Keyspace, id: string, fields: Hash)
    requires fields != map[] && fields.Keys <= StudentFields
    ensures Tidy(db) ==> Tidy(HSet(db, KeyOf(id), fields))
  {
  }

  // ---------------------------------------------------------------- list

  /** `key.split(":")[1]`: the text between the first and second colon. */
  function IdOfKey(key: string): (id: string)
    requires KeyPrefix <= key
    ensures ':' !in id
  {
    assert key[7] == ':';
    SplitSingle(key, ':');
    Split(key, ':')[1]
  }

  /** A listed record: `{ id: key.split(":")[1], ...hash }`; a field of the
      hash named `id` would override the one computed from the key. */
  function ListEntry(key: string, h: Hash): (e: Hash)
    requires KeyPrefix <= key
    ensures e.Keys == h.Keys + {"id"}
    ensures e["id"] == if "id" in h then h["id"] else IdOfKey(key)
    ensures forall f :: f in h ==> e[f] == h[f]
  {
    map["id" := IdOfKey(key)] + h
  }

  /** `e` is the listing entry of some record of the store. */
  ghost predicate IsListedEntry(db: Keyspace, e: Hash) {
    exists k :: k in StudentKeys(db) && e == ListEntry(k, db[k])
  }

  /** Entries built from listed keys are listed entries. */
  lemma EntriesListed(db: Keyspace, keys: seq<string>, entries: seq<Hash>)
    requires |keys| == |entries|
    requires forall i :: 0 <= i < |keys| ==>
               keys[i] in StudentKeys(db) && entries[i] == ListEntry(keys[i], db[keys[i]])
    ensures forall i :: 0 <= i < |entries| ==> IsListedEntry(db, entries[i])
  {
    forall i | 0 <= i < |entries|
      ensures IsListedEntry(db, entries[i])
    {
      var k := keys[i];
      assert k in StudentKeys(db) && entries[i] == ListEntry(k, db[k]);
    }
  }

  // ---------------------------------------------------------------- CSV import

  /** `row.id` is truthy: the column exists and the cell is not empty. */
  predicate HasId(row: Row) {
    "id" in row && row["id"] != ""
  }

  /** `row[f] || fallback`. */
  function FieldOr(row: Row, f: string, fallback: string): (v: string)
    requires fallback != ""
    ensures v != ""
  {
    if f in row && row[f] != "" then row[f] else fallback
  }

  /** The value an import writes for a field whose cell is missing or empty. */
  function Fallback(f: string): string {
    if f == "name" then "Unknown" else "N/A"
  }

  /** The key an imported row is written under. */
  function RowKey(row: Row): string
    requires HasId(row)
  {
    KeyOf(row["id"])
  }

  /** The hash an import writes for one row: each record field from its cell,
      or "Unknown" for the name and "N/A" for the others when the cell is
      missing or empty. */
  function RowRecord(row: Row): (h: Hash)
    ensures h.Keys == StudentFields && "id" !in h
    ensures forall f :: f in h ==> h[f] != ""
    ensures forall f :: f in h ==> h[f] == if f in row && row[f] != "" then row[f] else Fallback(f)
  {
    map["name" := FieldOr(row, "name", "Unknown"), "course" := FieldOr(row, "course", "N/A"),
        "age" := FieldOr(row, "age", "N/A"), "address" := FieldOr(row, "address", "N/A")]
  }

  /** The rows collected while parsing: those with an id, in file order. */
  function WithId(rows: seq<Row>): (kept: seq<Row>)
    ensures |kept| <= |rows|
    ensures forall i :: 0 <= i < |kept| ==> HasId(kept[i])
    ensures forall r :: r in kept <==> r in rows && HasId(r)
  {
    if rows == [] then []
    else
      var init, last := rows[..|rows| - 1], rows[|rows| - 1];
      assert rows == init + [last];
      if HasId(last) then WithId(init) + [last] else WithId(init)
  }

  /** The keys a sequence of id-carrying rows writes to. */
  function RowKeys(rows: seq<Row>): set<string>
    requires forall i :: 0 <= i < |rows| ==> HasId(rows[i])
  {
    if rows == [] then {}
    else
      var init := rows[..|rows| - 1];
      assert forall i :: 0 <= i < |init| ==> init[i] == rows[i];
      RowKeys(init) + {RowKey(rows[|rows| - 1])}
  }

  /** The store after writing the rows one after the other, in order. */
  function Import(db: Keyspace, rows: seq<Row>): (r: Keyspace)
    requires forall i :: 0 <= i < |rows| ==> HasId(rows[i])
    ensures NoEmptyHash(db) ==> NoEmptyHash(r)
  {
    if rows == [] then db
    else
      var init, last := rows[..|rows| - 1], rows[|rows| - 1];
      assert HasId(last);
      assert forall i :: 0 <= i < |init| ==> init[i] == rows[i];
      HSet(Import(db, init), RowKey(last), RowRecord(last))
  }

  /** Adding one row's write to an import. */
  lemma ImportStep(db: Keyspace, rows: seq<Row>, i: nat)
    requires i < |rows|
    requires forall j :: 0 <= j < |rows| ==> HasId(rows[j])
    ensures Import(db, rows[..i + 1]) == HSet(Import(db, rows[..i]), RowKey(rows[i]), RowRecord(rows[i]))
  {
    assert rows[..i + 1][..i] == rows[..i];
  }

  /** An import adds exactly the keys of its rows. */
  lemma {:induction false} ImportKeys(db: Keyspace, rows: seq<Row>)
    requires forall i :: 0 <= i < |rows| ==> HasId(rows[i])
    ensures Import(db, rows).Keys == db.Keys + RowKeys(rows)
  {
    if rows != [] {
      var init := rows[..|rows| - 1];
      assert forall i :: 0 <= i < |init| ==> init[i] == rows[i];
      ImportKeys(db, init);
    }
  }

  /** An import writes only record fields, so it keeps the table tidy. */
  lemma {:induction false} ImportKeepsTidy(db: Keyspace, rows: seq<Row>)
    requires forall i :: 0 <= i < |rows| ==> HasId(rows[i])
    requires Tidy(db)
    ensures Tidy(Import(db, rows))
  {
    if rows != [] {
      var init, last := rows[..|rows| - 1], rows[|rows| - 1];
      assert forall i :: 0 <= i < |init| ==> init[i] == rows[i];
      ImportKeepsTidy(db, init);
      RecordWriteKeepsTidy(Import(db, init), last["id"], RowRecord(last));
    }
  }

  /** The record of the last row in the file that has an id and is written
      under `key`; no fields when there is none. */
  function LastRecordFor(rows: seq<Row>, key: string): Hash {
    if rows == [] then map[]
    else
      var last := rows[|rows| - 1];
      if HasId(last) && RowKey(last) == key then RowRecord(last)
      else LastRecordFor(rows[..|rows| - 1], key)
  }
}
