# Student records API — a Dafny model

The service keeps one table of students in a key-value store. Each student is a
hash under the key `student:<id>` with the fields `name`, `course`, `age` and
`address`; the id lives only in the key. Six HTTP handlers act on that table:
create (`POST /students`), read (`GET /students/:id`), list (`GET /students`),
update (`PUT /students/:id`), delete (`DELETE /students/:id`) and CSV import
(`POST /students/upload`).

The model is split by concern:

- `js.dfy` (module `Js`): the JavaScript semantics the handlers depend on.
  This covers truthiness of a body value (`""` and `0` are falsy), `String(x)`
  for strings and integers, and `String.prototype.split` with a one-character
  separator, together with its inverse `Join`.
- `redis.dfy` (module `Redis`): the store as a `map<string, map<string,string>>`.
  It gives HGETALL (no fields for an absent key), HSET (merge fields, create the
  key), DEL (remove the key) and KEYS on a `prefix*` pattern, plus the store's
  own invariant that no key holds an empty hash.
- `students.dfy` (module `Students`): the table logic as pure functions.
  This covers request validation, the hash each write puts in the store, the key
  of a record, the id the listing cuts out of a key, and the CSV row filter,
  defaults and ordered import.
- `properties.dfy` (module `Properties`): lemmas relating several operations.
  They cover create then read, create then list, how the listing count grows,
  the ids the listing reports, last-write-wins import, and repeated updates and
  creates.
- `server.dfy` (module `Server`): class `StudentServer`, whose field `db` is the
  store. Each handler is a method that changes `db` as the handler changes the
  store and returns the HTTP status. CSV import is two loops: one collects the
  rows with an id, the other writes them in order.

A request body is a map from property name to a scalar `Json` value: a string or
an integer. A CSV row is a map from header name to cell text. A missing
property and a falsy one are treated alike, as `!x` does.

"Tidy" (`Students.Tidy`) means every `student:*` hash holds only the four record
fields. All writes of this service keep it. A read right after a create returns
exactly the four fields only in a tidy table. HSET merges, so a field some other
client put under the same key would survive the create.

Listing after N creates returns N records only when the N ids are distinct
and were absent before. `Properties.WriteAddsOneListedKey` states the exact
rule: a create adds one listed key when its id is new and none otherwise.

A body value counts as missing when it is falsy, as `!x` makes it
(server.js:88, 138, 151-154). So create rejects a body whose field is `""` or
`0`, and update skips such a field, exactly as if it were absent.

## Model

| member | source | states |
|---|---|---|
| `Server.StudentServer.Create` | server.js:86-109 | 400 and an unchanged store unless id, name, course, age and address are all truthy; otherwise 201 and the four fields (age as `String(age)`) merged into `student:<id>`; keeps the store invariant and tidiness |
| `Server.StudentServer.Read` | server.js:112-119 | 404 and no record exactly when `student:<id>` is absent (an empty hash in the store); otherwise 200 with the stored hash, which in a tidy table has no `id` field |
| `Server.StudentServer.List` | server.js:122-131 | one entry per key matching `student:*`, no key twice, in some order; each entry is `ListEntry` of that key and its hash |
| `Server.StudentServer.Update` | server.js:134-162 | 400 with the store unchanged when no field is truthy; 404 with the store unchanged when the key is absent; otherwise 200 and exactly `UpdateFields(body)` merged into the record |
| `Server.StudentServer.Delete` | server.js:165-169 | always 200; afterwards `student:<id>` is absent and every other key unchanged |
| `Server.StudentServer.Upload` | server.js:39-83 | 400 and an unchanged store without a file; otherwise 200 and the store equals `Import` of the id-carrying rows in file order |
| `Server.StudentServer.CollectRows` | server.js:47-51 | the collected rows are exactly `WithId(rows)`: the rows with a truthy id, in file order |
| `Server.StudentServer.WriteRows` | server.js:54-69 | after the loop the store equals `Import` of the old store and the rows |
| `Students.CreateRecord` | server.js:92-102 | the created hash has exactly the fields name, course, age and address, never `id`, each the non-empty text of the body's value |
| `Students.UpdateFields` | server.js:150-154 | a field is written exactly when it is a record field the body supplies truthy, with the body's text; the result is non-empty exactly when the update is accepted |
| `Students.KeyOf` | server.js:93 | the key starts with `student:` and the rest is the id |
| `Students.EntriesListed` | server.js:122-131 | an entry built from a key the listing reports and that key's hash is a listed entry of the store |
| `Students.IdOfKey` | server.js:126 | the id cut out of a key never contains a colon |
| `Students.ListEntry` | server.js:125-128 | the entry has the hash's fields plus `id`; a hash field named `id` wins over the id from the key |
| `Students.FieldOr` | server.js:61-67 | `cell || fallback` is never empty when the fallback is not |
| `Students.RowRecord` | server.js:55-68 | an imported row's hash has exactly the four record fields, no `id`, each the cell or else "Unknown" for name and "N/A" for course, age and address; never empty |
| `Students.WithId` | server.js:47-51 | the kept rows are exactly those with a truthy id, none longer than the file |
| `Students.Import` | server.js:54-69 | writing the rows in order keeps the store invariant that no key holds an empty hash |
| `Students.ImportKeys` | server.js:54-69 | after an import the keys are the old keys plus each written row's key |
| `Students.ImportKeepsTidy` | server.js:54-69 | an import writes only record fields, so a tidy table stays tidy |
| `Students.RecordWriteKeepsTidy` | server.js:92-102 | writing only record fields under a student key keeps the table tidy |
| `Students.ImportStep` | server.js:54-69 | importing one more row is one more HSET of that row's record |
| `Js.Text` | server.js:99 | `String(v)` of a truthy value is non-empty; for a number it uses only digits and `-` |
| `Js.Decimal` | server.js:99 | `String(n)` is non-empty, starts with `-` exactly for negatives, and every later character is a digit |
| `Js.Digits` | server.js:99 | the numeral of a natural number is non-empty, all digits, one digit exactly below ten, with no leading zero |
| `Js.DigitsRoundTrip` | server.js:99 | reading the numeral of `n` back as a number gives `n` |
| `Js.DecimalRoundTrip` | server.js:99 | reading `String(n)` back as an integer gives `n` |
| `Js.DecimalInjective` | server.js:99 | two integers have the same `String` exactly when they are equal, so distinct numeric ids give distinct keys |
| `Js.Split` | server.js:126 | `split` yields at least one piece and no piece contains the separator |
| `Js.SplitSingle` | server.js:126 | `split` yields a single piece exactly when the separator does not occur |
| `Js.SplitJoin` | server.js:126 | joining the pieces of a split gives the string back |
| `Js.FirstPiece` | server.js:126 | the first piece is a prefix of the string, the whole string exactly when the separator is absent |
| `Js.SplitAtFirst` | server.js:126 | a separator-free head before the first separator is the first piece, the rest splits as before |
| `Redis.HGetAll` | server.js:114 | with no empty hashes, the result has no fields exactly when the key is absent |
| `Redis.HSet` | server.js:92-102 | the given fields take their new values, other fields of that hash and all other keys are unchanged, the key exists afterwards |
| `Redis.HGetAllAfterHSet` | server.js:145-156 | after an HSET, HGETALL of the written key gives the old hash merged with the fields, of any other key the old hash |
| `Redis.Del` | server.js:167 | the key is absent afterwards and every other key keeps its hash |
| `Redis.KeysAfterHSet` | server.js:123 | with `KEYS prefix*` defined by `Redis.KeysWithPrefix`: after an HSET, it reports the old matches plus the written key when it has the prefix |
| `Redis.KeysAfterDel` | server.js:123 | with `KEYS prefix*` defined by `Redis.KeysWithPrefix`: after a DEL, it reports the old matches minus the deleted key |
| `Redis.MergeShadowed` | server.js:58-68 | merging fields that a later merge all covers changes nothing |
| `Redis.HSetIdempotent` | server.js:156 | writing the same fields twice equals writing them once |
| `Redis.HSetShadowed` | server.js:58-68 | a later write covering every field of an earlier one to the same key makes the earlier one invisible |
| `Redis.DelIdempotent` | server.js:167 | deleting twice equals deleting once |
| `Properties.CreateThenRead` | server.js:92-118 | in a tidy table, a read after a create returns exactly the four created fields and no `id` |
| `Properties.CreateThenList` | server.js:92-130 | in a tidy table, the listing entry of a record created with a colon-free id holds exactly the body's five values |
| `Properties.WriteListsKey` | server.js:92-130 | a write adds its key to the keys the listing reports and nothing else |
| `Properties.WriteAddsOneListedKey` | server.js:92-130 | the number of listed records grows by one exactly when the written id is new, and stays the same otherwise |
| `Properties.KeySplit` | server.js:126 | a record key splits into "student" followed by the pieces of the id |
| `Properties.ListedId` | server.js:126 | the listed id is the id up to its first colon: the id itself when it has no colon, a truncated prefix otherwise |
| `Properties.NumericIdListed` | server.js:93 | an id sent as a JSON number is listed back as its numeral |
| `Properties.UpdateMerge` | server.js:150-156 | a successful update sets each supplied field, keeps the others, adds nothing else and touches no other key |
| `Properties.UpdateTwice` | server.js:150-156 | repeating an update changes nothing more |
| `Properties.WithIdAppend` | server.js:47-51 | the filter distributes over concatenated files |
| `Properties.IdlessRowIgnored` | server.js:47-51 | removing a row without an id from anywhere in the file leaves the written rows unchanged |
| `Properties.LastRecordFields` | server.js:55-68 | the last matching row's record is empty or has exactly the four record fields |
| `Properties.ImportSnoc` | server.js:54-69 | importing a file that ends in a row with an id is importing the rest, then writing that row |
| `Properties.ImportOverlay` | server.js:54-69 | after an import, each key holds its old hash overlaid with the record of the last row written under it |
| `Properties.LastRecordIs` | server.js:54-69 | the last id-carrying row under a key supplies that key's record |
| `Properties.LastRecordNone` | server.js:54-69 | a key no row is written under gets no record |
| `Properties.ImportLastWriteWins` | server.js:54-69 | the last row of the file with a given key decides that key's four fields; in a tidy table the key holds exactly that row's record |
| `Properties.TidyRecordReplaces` | server.js:58-68 | in a tidy table, writing a full record hides whatever the key held |
| `Properties.ImportSameHash` | server.js:54-69 | a key no id-carrying row is written under reads the same after the import |
| `Properties.ImportUntouched` | server.js:54-69 | a key no id-carrying row is written under keeps its hash, or stays absent |
| `Properties.CreateTwice` | server.js:92-102 | creating the same id twice leaves what the second create alone leaves |

## Left out

- The React client (`App.js`): state hooks, forms, toasts, `localStorage` and the HTTP calls. It has no table logic of its own.
- Express wiring, CORS, body parsing, multer's upload storage and `app.listen` (server.js:10-21, 37, 172-174). These are framework glue.
- The store connection and the asynchronous client (server.js:24-34). The store is an in-memory map that every call reads and writes at once.
- Filesystem work: creating the uploads folder, reading the uploaded file and deleting it afterwards (server.js:14-17, 45, 72). `Upload` takes the file as already-parsed rows, or `None` when no file was sent.
- CSV tokenising by `fast-csv` (server.js:46). The stream has no `error` listener (server.js:45-82), so a parse error is thrown as an uncaught exception; with no `uncaughtException` handler the server process exits, so that request and every later one go unanswered. This is not modelled.
- 500 answers from store failures (server.js:78-81, 105-108, 158-161). Those include a key holding a non-hash value. Every store call here succeeds.
- Concurrency. The listing's parallel `hGetAll` calls and concurrent requests racing on one key are not modelled. Each handler runs atomically on one snapshot of the store.
- `Server.StudentServer.List`: the order of KEYS is unspecified. The contract gives the entries as a duplicate-free enumeration of the matching keys in some order, not one particular order.
- JSON values other than strings and integers (booleans, `null`, fractions, objects, arrays) and `String(n)`'s exponent form for numbers of 10^21 and above.
- `Js.Json`: a JSON number is an IEEE double once the body is parsed (server.js:21). An integer beyond 2^53 in magnitude is rounded before `String(age)` (server.js:99) or the key's template (server.js:93); `9007199254740993` is stored as `9007199254740992`. `JNum` holds an exact integer and `Decimal` prints its exact digits.
- The store client's argument handling is not part of this model. Create and import pass the fields as alternating name/value arguments (server.js:58-68, 92-102); the model assumes the client sends every one of the four pairs, as update's object form does (server.js:156). `Server.StudentServer.Create`, `Server.StudentServer.WriteRows`, `Properties.CreateThenRead`, `Properties.CreateThenList`, tidiness and the import defaults rest on that assumption.
- Response message texts. Each handler returns its status code; read returns the record, and list returns the entries.
