# Materials service: a verified model of the route handlers

The service exposes one OData-style collection, `/odata/Materials`, kept in a
JSON file (`materials.json`) of the shape `{ "materials": [ ... ], ...other
keys }`. Each request loads the whole file, looks records up by their
`materialId`, and on a change writes the whole parsed object back, so other
top-level keys survive every write. Besides the file, the process keeps one
list in memory, `updatedMaterialIds`: the ids the strict update (PUT) has
changed, which only grows and makes every id updatable through PUT at most
once per process.

The model has four modules:

- `JsonValues` (json_values.dfy): field values, records (`Material`, a map from
  field name to value) and the document (a map whose `materials` key holds the
  record list). Values are strings, atoms (numbers, booleans, null: equal
  under `===` when they are the same value) and compound values (objects and
  arrays). Every request parses the file and its body anew, so two compound
  values are never `===`, not even a body's id and the same id written
  earlier. Non-string values are otherwise opaque, with the text a template
  literal prints for them.
- `Repository` (repository.dfy): the pure part: `findIndex`/`find` by strict
  equality of `materialId` over an optional id (an absent id, `undefined`,
  matches records that lack one), the shallow merge `{ ...old, ...body }`, the
  `splice` of one record, the create-or-update on a collection, the filter over
  the four required fields, the two checks PUT makes before the lookup, and the
  response messages.
- `Service` (service.dfy): class `MaterialService`, whose fields are the
  document as last written and the update-once tracker, with one method per
  route. Each method states its status code, its body and the whole new state
  for every outcome. The `for ... in` loop that copies the POST body's keys
  onto the existing record is the method `OverwriteFields`, proved to give the
  shallow merge whatever order the keys are visited in.
- `RepositoryFacts` (repository_facts.dfy): properties across operations:
  lookups after a create-or-update, a merge or a removal; idempotence of the
  create-or-update; which operations keep ids unique; the order and content of
  the missing-fields report; and that a recorded id never passes PUT's checks.

File access is abstracted: the `document` field stands for the file's
contents, and each handler takes `readable` (the file can be read and parsed)
and, when it writes, `writable` (the write succeeds). A failure of either
answers 500 and leaves the file as it was. A document whose `materials` is
missing or not a list makes `find`/`findIndex` throw, which also answers 500;
PUT only reaches that lookup after its two 400 checks, and GET of the whole
collection sends whatever `materials` holds.

Behaviours of the code worth knowing, which the model follows:

- POST does not demand a `materialId` in the body. Without one, the lookup
  matches the first record that also lacks one, and the message prints
  `undefined`.
- PUT records the id in the tracker before it writes the file, so a failed
  write answers 500 and still leaves the id recorded (`Service.MaterialService.Put`
  states this). The record itself stays unchanged on disk.
- The tracker is a list with an `includes` test. Since an id is pushed only
  after that test fails, the list never holds an id twice (`Valid`).
- PUT's merge lets the body's own `materialId` overwrite the record's. A body
  carrying another record's id leaves two records with one id
  (`RepositoryFacts.MergeCanDuplicateIds`). Uniqueness of ids is kept by the
  other operations but is not enforced anywhere.

## Model

| member | source | states |
|---|---|---|
| `JsonValues.IdOf` | server.js:55 | `material.materialId`: absent exactly when the record has no such key, otherwise its value |
| `JsonValues.StrictEquals` | server.js:55 | `===` on ids: `undefined === undefined`, strings by content, equal numbers, booleans and nulls are `===`, never true for an object or array id, and true only for equal values |
| `JsonValues.Show` | server.js:66 | a template literal prints an absent id as `undefined`, a string as itself, any other value as its text |
| `Repository.FindIndex` | server.js:55 | the index of the first record satisfying the callback `material => material.materialId === id` (`Repository.Matches`, shared by the lookups at server.js:42, 55, 107 and 129; absent matches absent); none exactly when no record matches |
| `Repository.Find` | server.js:42 | the first matching record: some record at an index with that id and no match before it; none exactly when no record matches |
| `Repository.ShallowMerge` | server.js:111 | `{ ...base, ...patch }`: keys of both sides, patch values win on shared keys, base-only keys keep their values |
| `Repository.MergeAt` | server.js:111 | replacing the record at index `i` by its merge with the body keeps the length and every other index |
| `Repository.RemoveAt` | server.js:131 | `splice(i, 1)`: length drops by one, records before `i` stay, later ones shift down by one in order, and exactly that record leaves the multiset |
| `Repository.Upsert` | server.js:55-71 | created exactly when no record has the body's id; then the body is appended verbatim; otherwise the length is unchanged |
| `Repository.IsBlank` | server.js:90-93 | a field is empty when absent or a string equal to `""`; any non-string value (0, false, null) is not empty |
| `Repository.BlankFields` | server.js:89-93 | the filter keeps exactly the fields that are absent or `""`, as a subsequence of the field list (list order) |
| `Repository.CheckPut` | server.js:88-104 | validation comes first and reports every empty required field (never only the first); only a fully valid body reaches the tracker test, which rejects exactly the recorded ids |
| `Repository.Join` | server.js:97 | `join`: empty for no parts, the part itself for one, and every part occurs in the result |
| `Repository.JoinSnoc` | server.js:97 | appending a part to a non-empty list appends the separator and that part to the joined text, so the parts appear in list order with one separator between neighbours |
| `Repository.MissingFieldsMessage` | server.js:97 | the validation text is the empty fields joined by ", " in their order followed by " cannot be empty"; it names every empty field |
| `Repository.IdMessage` | server.js:66-71 | the texts that name one id (updated at server.js:66, created at server.js:71, and the tracker text of server.js:103) open with their lead, hold the id right after it, and end with their outcome |
| `Repository.IdMessageNamesId` | server.js:66-71 | such a text determines the id it names: two ids give the same text exactly when they are equal |
| `Service.MaterialsOf` | server.js:107 | `materialsData.materials` usable as a list exactly when the key is present and holds a list, and then it is that list |
| `Service.Load` | server.js:12-14 | loading and taking the list succeeds exactly when the file is readable and `materials` is a list, giving that list |
| `Service.OverwriteFields` | server.js:59-64 | copying the body's keys one at a time onto the existing record yields the shallow merge with the body winning, in any key order |
| `Service.MaterialService.constructor` | server.js:79 | the tracker starts empty and the document is the file as found |
| `Service.MaterialService.ListAll` | server.js:29-36 | 200 with the whole list, or with the non-list value `materials` holds, or with an empty body when the key is absent; 500 when the file cannot be read |
| `Service.MaterialService.GetById` | server.js:39-48 | 200 with the first record whose id equals the path id; 404 "Material not found" exactly when none matches; 500 on a load failure; nothing changes |
| `Service.MaterialService.Post` | server.js:51-76 | on a hit the first match becomes its merge with the body and the answer is 200; on a miss the body is appended and the answer is 201; only the `materials` key of the document changes; 500 and no change on a load or write failure |
| `Service.MaterialService.Put` | server.js:82-123 | 500 when the file cannot be read; then 400 listing the empty fields, then 400 "already been updated", then 500 if `materials` is not a list, then 404, each with nothing changed; on success the first match becomes the shallow merge with the body, the id is appended to the tracker, and the answer is 200 with the merged record; the tracker only grows and never holds an id twice; on a write failure the id is still recorded |
| `Service.MaterialService.Delete` | server.js:126-137 | 200 with the first matching record, which is spliced out of the list; 404 with no change when none matches; 500 and no change on a load or write failure |
| `RepositoryFacts.FirstMatchIsFindIndex` | server.js:55 | any index holding the first match is the one `findIndex` returns |
| `RepositoryFacts.MergeKeepsId` | server.js:111 | a merge whose body has no `materialId`, or the same one, keeps the record's id |
| `RepositoryFacts.FindAfterMerge` | server.js:107-111 | after merging the first match with such a body, looking the id up returns the merged record at the same index |
| `RepositoryFacts.UpsertOnHit` | server.js:55-66 | POST on a present id updates: length unchanged, the first match takes every body key and keeps its other keys, every other record unchanged |
| `RepositoryFacts.FindAfterUpsert` | server.js:55-71 | after a POST the body's id finds the body itself (when created; nothing if the id is an object or array) or the merged record (when updated) |
| `RepositoryFacts.UpsertIdempotent` | server.js:55-71 | for an absent, string, number, boolean or null id, posting the same body twice leaves the collection that posting it once leaves and the second post is an update; for an object or array id both posts append |
| `RepositoryFacts.UpsertKeepsIdsUnique` | server.js:55-71 | POST keeps ids unique (no two ids `===`) |
| `RepositoryFacts.MergeKeepsIdsUnique` | server.js:111 | a PUT whose body has no other id keeps ids unique |
| `RepositoryFacts.MergeCanDuplicateIds` | server.js:111 | a PUT body carrying another record's id produces two records with that id |
| `RepositoryFacts.FindAfterRemove` | server.js:129-131 | after DELETE removes the first match, the lookup finds the next record with that id, if any |
| `RepositoryFacts.RemoveLeavesNoMatch` | server.js:129-133 | with unique ids a deleted id is gone, so repeating the DELETE answers 404; the length dropped by one |
| `RepositoryFacts.RemoveKeepsIdsUnique` | server.js:131 | DELETE keeps ids unique |
| `RepositoryFacts.MissingFieldsInOrder` | server.js:89-93 | the report is exactly the empty ones among description, category, unitPrice, currency, in that order |
| `RepositoryFacts.MessageNamesMissingField` | server.js:95-97 | the 400 message names every empty required field |
| `RepositoryFacts.MissingDescriptionAndCurrency` | server.js:89-97 | a body lacking only a description and a currency gets exactly "description, currency cannot be empty" |
| `RepositoryFacts.RecordedIdIsRejected` | server.js:100-104 | once an id is in the tracker, PUT never admits it again: a valid body gets "already been updated" whether or not the record exists |

## Left out

- Express wiring: the app bootstrap, routing, JSON body parsing, the request-logging middleware (server.js:17-20) and `app.listen` (server.js:140-142) are framework plumbing.
- The error middleware (server.js:23-26) is registered before the routes, so route errors reach Express's default handler; PUT answers `'Something broke!'` itself. Every such 500 is the one body `ServerError`; the exact text is not modelled.
- Reading, parsing, serialising and writing the file are the `readable`/`writable` parameters and the `document` field; a write that fails half-way and corrupts the file is not modelled (a write either happens whole or not at all).
- Records that are not JSON objects inside the list, and documents that are not objects, are not representable; loading them counts as a load failure.
- Logging to the console has no bearing on the state and is left out.
- Concurrent requests and the lost update between load and write are not modelled; every handler is one atomic step.
- `unitPrice` and every other non-string value are opaque; number semantics are not modelled.
- The body of a POST or PUT is its own key/value map; prototype keys seen by `for ... in` and the `hasOwnProperty` filter (server.js:60-61) are not modelled.
