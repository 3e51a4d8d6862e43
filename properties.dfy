/** Properties of the student table that relate several operations: what a
    read or a listing gives back after a create, how the number of listed
    records grows, which row of a CSV file decides a record, and how the
    key-to-id projection of the listing treats ids. */
module Properties {
  import opened Js
  import opened Redis
  import opened Students

  // ---------------------------------------------------------------- create, read, list

  /** In a tidy table, reading a record right after creating it gives back
      exactly the four fields written, and no `id` field. */
  lemma CreateThenRead(db: Keyspace, body: Body)
    requires CreateAccepted(body) && Tidy(db)
    ensures var key := KeyOf(Text(body["id"]));
            var after := HSet(db, key, CreateRecord(body));
            HGetAll(after, key) == CreateRecord(body) && "id" !in HGetAll(after, key) && Tidy(after)
  {
    var key := KeyOf(Text(body["id"]));
    var record := CreateRecord(body);
    RecordWriteKeepsTidy(db, Text(body["id"]), record);
    assert HGetAll(db, key).Keys <= record.Keys;
    assert HGetAll(db, key) + record == record;
  }

  /** Writing a record adds its key to the listed keys and nothing else. */
  lemma WriteListsKey(db: Keyspace, id: string, fields: Hash)
    requires fields != map[]
    ensures StudentKeys(HSet(db, KeyOf(id), fields)) == StudentKeys(db) + {KeyOf(id)}
  {
    var key := KeyOf(id);
    var after := HSet(db, key, fields);
    assert after.Keys == db.Keys + {key};
    forall k
      ensures k in StudentKeys(after) <==> k in StudentKeys(db) || k == key
    {
    }
  }

  /** So the listing grows by one exactly when the id was not there before. */
  lemma WriteAddsOneListedKey(db: Keyspace, id: string, fields: Hash)
    requires fields != map[]
    ensures |StudentKeys(HSet(db, KeyOf(id), fields))|
            == |StudentKeys(db)| + (if KeyOf(id) in db then 0 else 1)
  {
    WriteListsKey(db, id, fields);
    var key := KeyOf(id);
    if key in db {
      assert key in StudentKeys(db);
      assert StudentKeys(db) + {key} == StudentKeys(db);
    } else {
      assert key !in StudentKeys(db);
    }
  }

  /** A record key splits into "student" followed by the pieces of the id. */
  lemma KeySplit(id: string)
    ensures Split(KeyOf(id), ':') == ["student"] + Split(id, ':')
  {
    var head := "student";
    assert KeyOf(id) == head + [':'] + id;
    SplitAtFirst(head, id, ':');
  }

  /** The id the listing reports for `student:<id>` is the part of `id` before
      its first colon: the id itself when it has no colon, a truncated prefix
      otherwise. */
  lemma ListedId(id: string)
    ensures IdOfKey(KeyOf(id)) == Split(id, ':')[0]
    ensures IdOfKey(KeyOf(id)) <= id
    ensures IdOfKey(KeyOf(id)) == id <==> ':' !in id
  {
    KeySplit(id);
    FirstPiece(id, ':');
  }

  /** An id sent as a JSON number comes back from the listing as its numeral. */
  lemma NumericIdListed(n: int)
    ensures IdOfKey(KeyOf(Text(JNum(n)))) == Decimal(n)
  {
    ListedId(Text(JNum(n)));
  }

  /** In a tidy table, the listing entry for a record created from a body
      whose id has no colon holds exactly the five values of that body. */
  lemma CreateThenList(db: Keyspace, body: Body)
    requires CreateAccepted(body) && Tidy(db)
    requires ':' !in Text(body["id"])
    ensures var key := KeyOf(Text(body["id"]));
            var after := HSet(db, key, CreateRecord(body));
            key in StudentKeys(after)
            && ListEntry(key, after[key]) == CreateRecord(body)["id" := Text(body["id"])]
  {
    var id := Text(body["id"]);
    CreateThenRead(db, body);
    ListedId(id);
    var key := KeyOf(id);
    var after := HSet(db, key, CreateRecord(body));
    assert key in StudentKeys(after);
    assert after[key] == CreateRecord(body);
  }

  // ---------------------------------------------------------------- update, delete

  /** A successful update sets each supplied field, keeps every other field
      of the record, adds no other field, and leaves every other key alone. */
  lemma UpdateMerge(db: Keyspace, id: string, body: Body)
    requires UpdateAccepted(body) && KeyOf(id) in db
    ensures var key := KeyOf(id);
            var after := HSet(db, key, UpdateFields(body));
            && after.Keys == db.Keys
            && (forall k :: k in db && k != key ==> after[k] == db[k])
            && (forall f :: f in StudentFields && Supplied(body, f) ==> after[key][f] == Text(body[f]))
            && (forall f :: f in db[key] && !(f in StudentFields && Supplied(body, f)) ==>
                  f in after[key] && after[key][f] == db[key][f])
            && (forall f :: f in after[key] ==> f in db[key] || (f in StudentFields && Supplied(body, f)))
  {
  }

  /** Sending the same update twice leaves what sending it once leaves. */
  lemma UpdateTwice(db: Keyspace, id: string, body: Body)
    requires UpdateAccepted(body)
    ensures var key := KeyOf(id);
            HSet(HSet(db, key, UpdateFields(body)), key, UpdateFields(body)) == HSet(db, key, UpdateFields(body))
  {
    HSetIdempotent(db, KeyOf(id), UpdateFields(body));
  }

  // ---------------------------------------------------------------- CSV import

  /** The rows that survive parsing from a file that is the concatenation of
      two files are those of each, in order. */
  lemma {:induction false} WithIdAppend(a: seq<Row>, b: seq<Row>)
    ensures WithId(a + b) == WithId(a) + WithId(b)
  {
    if b != [] {
      var init, last := b[..|b| - 1], b[|b| - 1];
      assert (a + b)[..|a + b| - 1] == a + init;
      assert (a + b)[|a + b| - 1] == last;
      WithIdAppend(a, init);
    } else {
      assert a + b == a;
    }
  }

  /** A row without an id can be removed from the file anywhere without
      changing which rows are written. */
  lemma IdlessRowIgnored(a: seq<Row>, row: Row, b: seq<Row>)
    requires !HasId(row)
    ensures WithId(a + [row] + b) == WithId(a + b)
  {
    WithIdAppend(a + [row], b);
    WithIdAppend(a, [row]);
    WithIdAppend(a, b);
    assert WithId([row]) == [] by {
      assert [row][..0] == [];
    }
  }

  /** The record the last matching row supplies is either nothing or all
      four record fields. */
  lemma {:induction false} LastRecordFields(rows: seq<Row>, key: string)
    ensures LastRecordFor(rows, key) == map[] || LastRecordFor(rows, key).Keys == StudentFields
  {
    if rows != [] {
      LastRecordFields(rows[..|rows| - 1], key);
    }
  }

  /** An import of a file ending in a row with an id is the import of the
      rest of the file followed by that row's write. */
  lemma ImportSnoc(db: Keyspace, init: seq<Row>, last: Row)
    requires HasId(last)
    ensures Import(db, WithId(init + [last]))
            == HSet(Import(db, WithId(init)), RowKey(last), RowRecord(last))
  {
    var rows := init + [last];
    assert rows[..|rows| - 1] == init && rows[|rows| - 1] == last;
    var kept := WithId(init);
    assert WithId(rows) == kept + [last];
    assert (kept + [last])[..|kept|] == kept;
  }

  /** After an import, the hash under any key is the old hash overlaid with
      the record of the last row in the file written under that key. */
  lemma {:induction false} ImportOverlay(db: Keyspace, rows: seq<Row>, key: string)
    ensures HGetAll(Import(db, WithId(rows)), key) == HGetAll(db, key) + LastRecordFor(rows, key)
  {
    if rows == [] {
      assert HGetAll(db, key) + map[] == HGetAll(db, key);
    } else {
      var init, last := rows[..|rows| - 1], rows[|rows| - 1];
      assert rows == init + [last];
      ImportOverlay(db, init, key);
      var earlier := HGetAll(db, key) + LastRecordFor(init, key);
      if HasId(last) {
        ImportSnoc(db, init, last);
        var before := Import(db, WithId(init));
        HGetAllAfterHSet(before, RowKey(last), RowRecord(last), key);
        if RowKey(last) == key {
          LastRecordFields(init, key);
          MergeShadowed(HGetAll(db, key), LastRecordFor(init, key), RowRecord(last));
        }
      } else {
        assert WithId(rows) == WithId(init);
      }
    }
  }


  /** When row `j` is the last row with an id written under its key, that
      row supplies the key's record. */
  lemma {:induction false} LastRecordIs(rows: seq<Row>, j: nat)
    requires j < |rows| && HasId(rows[j])
    requires forall i :: j < i < |rows| && HasId(rows[i]) ==> RowKey(rows[i]) != RowKey(rows[j])
    ensures LastRecordFor(rows, RowKey(rows[j])) == RowRecord(rows[j])
  {
    if j < |rows| - 1 {
      var init := rows[..|rows| - 1];
      assert init[j] == rows[j];
      assert forall i :: j < i < |init| && HasId(init[i]) ==> RowKey(init[i]) != RowKey(init[j]) by {
        assert forall i :: 0 <= i < |init| ==> init[i] == rows[i];
      }
      LastRecordIs(init, j);
    }
  }

  /** A key no row with an id is written under gets no record. */
  lemma {:induction false} LastRecordNone(rows: seq<Row>, key: string)
    requires forall i :: 0 <= i < |rows| && HasId(rows[i]) ==> RowKey(rows[i]) != key
    ensures LastRecordFor(rows, key) == map[]
  {
    if rows != [] {
      var init := rows[..|rows| - 1];
      assert forall i :: 0 <= i < |init| ==> init[i] == rows[i];
      LastRecordNone(init, key);
    }
  }

  /** Last write wins: when row `j` is the last row of the file with an id
      written under its key, that key ends up holding that row's record over
      whatever it held before; in a tidy table, exactly that row's record. */
  lemma ImportLastWriteWins(db: Keyspace, rows: seq<Row>, j: nat)
    requires j < |rows| && HasId(rows[j])
    requires forall i :: j < i < |rows| && HasId(rows[i]) ==> RowKey(rows[i]) != RowKey(rows[j])
    ensures var key := RowKey(rows[j]);
            var after := Import(db, WithId(rows));
            key in after && after[key] == HGetAll(db, key) + RowRecord(rows[j])
    ensures Tidy(db) ==> Import(db, WithId(rows))[RowKey(rows[j])] == RowRecord(rows[j])
  {
    var key, record := RowKey(rows[j]), RowRecord(rows[j]);
    var after := Import(db, WithId(rows));
    LastRecordIs(rows, j);
    ImportOverlay(db, rows, key);
    var h := HGetAll(after, key);
    assert h == HGetAll(db, key) + record;
    assert "name" in h;
    assert key in after;
    if Tidy(db) {
      TidyRecordReplaces(db, rows[j]["id"], record);
    }
  }

  /** In a tidy table, writing a full record hides whatever the key held. */
  lemma TidyRecordReplaces(db: Keyspace, id: string, record: Hash)
    requires Tidy(db) && record.Keys == StudentFields
    ensures HGetAll(db, KeyOf(id)) + record == record
  {
    assert HGetAll(db, KeyOf(id)).Keys <= record.Keys;
  }

  /** A key that no row with an id is written under reads the same after
      the import as before. */
  lemma ImportSameHash(db: Keyspace, rows: seq<Row>, key: string)
    requires forall i :: 0 <= i < |rows| && HasId(rows[i]) ==> RowKey(rows[i]) != key
    ensures HGetAll(Import(db, WithId(rows)), key) == HGetAll(db, key)
  {
    LastRecordNone(rows, key);
    ImportOverlay(db, rows, key);
    assert HGetAll(db, key) + map[] == HGetAll(db, key);
  }

  /** Such a key keeps its hash, or stays absent. */
  lemma ImportUntouched(db: Keyspace, rows: seq<Row>, key: string)
    requires NoEmptyHash(db)
    requires forall i :: 0 <= i < |rows| && HasId(rows[i]) ==> RowKey(rows[i]) != key
    ensures key in Import(db, WithId(rows)) <==> key in db
    ensures key in db ==> Import(db, WithId(rows))[key] == db[key]
  {
    var after := Import(db, WithId(rows));
    ImportSameHash(db, rows, key);
    assert NoEmptyHash(after);
    if key in db {
      assert HGetAll(after, key) == db[key];
    }
  }

  // ---------------------------------------------------------------- repeated writes

  /** Creating the same id twice leaves what the second create alone leaves. */
  lemma CreateTwice(db: Keyspace, first: Body, second: Body)
    requires CreateAccepted(first) && CreateAccepted(second)
    requires Text(first["id"]) == Text(second["id"])
    ensures var key := KeyOf(Text(first["id"]));
            HSet(HSet(db, key, CreateRecord(first)), key, CreateRecord(second))
            == HSet(db, key, CreateRecord(second))
  {
    HSetShadowed(db, KeyOf(Text(first["id"])), CreateRecord(first), CreateRecord(second));
  }
}
