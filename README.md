# JSON record store and folder operations, modelled in Dafny

`crudOperation/mydatabase.js` is a small store of JSON records kept in a file.
The file holds an array of objects, and each object is identified by its `id`
field. The same script also has folder and file helpers. This project models
two parts of it (the code is in JavaScript; the model and its proofs are in Dafny):

- **The record callbacks.** `updateJSONData` and `deleteJSONRecord` find the
  first record whose `id` is strictly equal (`===`) to the key with
  `findIndex`. Update overwrites that record with `{...old, ...newData}`.
  Delete removes it with `splice(index, 1)`. If no record matches, nothing
  is written. In the model, the parsed array is a `JsonArray` object whose
  `elements` field the methods change in place. Its methods are proved
  against specification functions (`FirstMatch`, `UpdateArray`,
  `DeleteFromArray`), and the lemmas prove the store's promises about those
  functions.
- **The guard chains.** `createFolder`, `updateFolderName`, `deleteFolder`,
  `readFolderContents`, `createJSONFile` and `readJSONFile` each check
  existence and emptiness, then make the `fs` call. Each is a pure
  transition over an abstract filesystem. The filesystem is a map from paths
  (sequences of segments) to `Dir` or `File`. Each transition returns either
  an error kind or the new filesystem. `Err` always means nothing changed.
  `updateJSONData` and `deleteJSONRecord` join the two parts: read the file,
  run the in-place callback on a fresh `JsonArray`, and write the array back.

Files:

- `outcomes.dfy` (module `Outcomes`): the error kinds and `Result`.
- `json_records.dfy` (module `JsonRecords`): parsed JSON values, JavaScript
  `===`, the `findIndex` scan, merge and splice, the `JsonArray` class and the
  lemmas about them.
- `filesystem.dfy` (module `FileSystem`): paths, the tree invariant `Valid`,
  the folder and file operations, their lemmas, and the two record operations
  at the file level.
- `example.dfy` (module `Example`): the six records of the script's example
  usage, the update of id 2, the delete of id 3, and the whole example run
  one step after another: once as written, and once with the record steps in
  the renamed folder.

Modelling choices:

- **Strict equality.** Primitives compare by value. An array or object read
  from the file is a new reference, so it is strictly equal to no key the
  caller holds. A record without `id` gives `undefined`, which equals no JSON
  value, so it never matches.
- **When `findIndex` throws.** `item.id` throws a `TypeError` on a `null`
  element. `findIndex` is not a function on parsed data that is not an
  array. Both errors are thrown inside the callback, which runs in the `try`
  of `readJSONFile` (`crudOperation/mydatabase.js:204-215`). The source
  therefore logs both as a JSON parse error, and the model reports both as
  `ParseFailure`.
- **Filesystem shape.** The empty path is the working directory `"."`.
  `path.dirname` drops the last segment and `path.join` appends one. `Valid`
  says `"."` is a folder and every other entry sits inside a folder. Every
  operation keeps `Valid`.
- **Rename.** `fs.rename` moves the folder together with everything below
  it. The model moves the whole subtree, not a single map key.
- **Guard edge cases.** `fs.existsSync` is true for files too. So
  `createFolder` on a path that holds a file is a no-op, and the other guards
  let a file through where a folder is expected. The `fs` call after them
  then fails. The model reports that failure as `IOFailure`: `readdirSync`
  on a file in `deleteFolder`, `writeFile` below a file in `createJSONFile`,
  and `readFile` on a folder in `readJSONFile`. `rmdir` and `rename` of
  `"."` fail the same way.

`readJSONFile` itself accepts any JSON content. Only the record callbacks
reject content that is not an array, and they do it through the `catch`
described above.

## Model

| member | source | states |
|---|---|---|
| `JsonRecords.FirstMatchFrom` | crudOperation/mydatabase.js:229 | The scan from position k stops at the first element that matches the key or that is `null`. If it finds an index, that element's `id` is strictly equal to the key and no earlier element matched or was `null`. If it throws, the element is `null` and nothing before it matched. If it reports not found, no element from k on matches or is `null`. |
| `JsonRecords.FirstMatchOnCollection` | crudOperation/mydatabase.js:229 | On an array of records the lookup never throws. It finds index i exactly when i is the least index whose `id` is strictly equal to the key. It reports -1 exactly when no record matches, and records without `id` never match. |
| `JsonRecords.Merge` | crudOperation/mydatabase.js:234 | `{...old, ...newData}` has the fields of both. Every patch field has the patch value, and every other field keeps its old value. |
| `JsonRecords.UpdateChangesOnlyMatch` | crudOperation/mydatabase.js:229-234 | A successful update happens at the first match. The array keeps its length, every other index is unchanged, and the matched record becomes the old record overridden by the patch. |
| `JsonRecords.UpdateRefusals` | crudOperation/mydatabase.js:227-247 | Update reports not-found exactly when no element matches and none is `null`. It reports the parse-error path exactly when the data is not an array or the scan meets a `null` first. |
| `JsonRecords.UpdateKeepsUniqueIds` | crudOperation/mydatabase.js:229-234 | If the patch has no `id` field, an update keeps the array a collection of records with unique ids. |
| `JsonRecords.DeleteRemovesFirstMatch` | crudOperation/mydatabase.js:260-264 | A successful delete removes exactly the first match: the length drops by one, earlier records stay in place, later records shift down by one, and the multiset loses only that record. |
| `JsonRecords.DeleteRefusals` | crudOperation/mydatabase.js:258-278 | Delete reports not-found exactly when no element matches and none is `null`. It reports the parse-error path exactly when the data is not an array or the scan meets a `null` first. |
| `JsonRecords.DeleteLeavesNoMatch` | crudOperation/mydatabase.js:260-264 | In an array of records with unique ids, after a successful delete no record has that key, and the array stays a collection with unique ids. |
| `JsonRecords.JsonArray.FindIndex` | crudOperation/mydatabase.js:229 | The linear scan returns exactly the `findIndex` outcome: the least matching index, or -1 when none matches. |
| `JsonRecords.JsonArray.UpdateByKey` | crudOperation/mydatabase.js:229-247 | In place: the array becomes the specified updated array when a record matches, and is left unchanged otherwise. |
| `JsonRecords.JsonArray.DeleteByKey` | crudOperation/mydatabase.js:260-278 | In place: the array becomes the specified array with the first match spliced out when a record matches, and is left unchanged otherwise. |
| `FileSystem.Dirname` | crudOperation/mydatabase.js:41 | `path.dirname`: the parent is one segment shorter and, with the last segment appended, gives the path back. `"."` is its own parent. |
| `FileSystem.Join` | crudOperation/mydatabase.js:43 | `path.join`: the joined path's parent is the folder and its last segment is the name. |
| `FileSystem.CreateFolderEffect` | crudOperation/mydatabase.js:11-30 | It is a no-op exactly when something exists at the path. It fails exactly when a folder on the way is a file. Otherwise the path becomes a folder, existing entries are unchanged, and the only new entries are missing ancestors. The tree stays valid, and a second call is a no-op. |
| `FileSystem.UpdateFolderNameEffect` | crudOperation/mydatabase.js:38-75 | The destination is `join(dirname(old), newName)`. It refuses, in this order, when the old path is absent, when the destination equals the old path, and when the destination exists. On success the folder and everything below it move to the destination, nothing else changes, and the tree stays valid. |
| `FileSystem.MoveValid` | crudOperation/mydatabase.js:63 | Moving a folder to an absent sibling path keeps the tree valid. |
| `FileSystem.DeleteFolderEffect` | crudOperation/mydatabase.js:82-109 | It reports not-found exactly when the path is absent, and not-empty exactly when the folder has entries. On success only that path disappears, and the tree stays valid. |
| `FileSystem.ReadFolderContentsEffect` | crudOperation/mydatabase.js:115-147 | It succeeds exactly on a folder. The listing holds exactly the entries directly inside it, each classified as a file or a subfolder. |
| `FileSystem.CreateJSONFileEffect` | crudOperation/mydatabase.js:155-182 | It refuses when the folder is absent or the file exists. Otherwise it adds exactly that file and the tree stays valid. Reading the file back yields the data written, and a second call reports already-exists. |
| `FileSystem.ReadJSONFileEffect` | crudOperation/mydatabase.js:189-217 | It reports a missing path, a folder, and content that does not parse. Otherwise it hands the callback exactly the file's parsed content. |
| `FileSystem.RewriteEffect` | crudOperation/mydatabase.js:235 | Writing an existing file back changes that file's content and nothing else. The tree stays valid, and reading the file yields the value written. |
| `FileSystem.UpdateJSONData` | crudOperation/mydatabase.js:225-249 | A read failure is passed on. Otherwise the file is rewritten with the updated array, or the callback's refusal is reported and nothing is written. |
| `FileSystem.DeleteJSONRecord` | crudOperation/mydatabase.js:256-280 | A read failure is passed on. Otherwise the file is rewritten with the first match removed, or the callback's refusal is reported and nothing is written. |
| `Example.UsersIds` | crudOperation/mydatabase.js:298-305 | The example data is an array of six records with ids 1 to 6. |
| `Example.ExampleUpdate` | crudOperation/mydatabase.js:308-310 | Updating id 2 with `{Username: "ABC"}` changes only that record's `Username`. |
| `Example.ExampleDelete` | crudOperation/mydatabase.js:314-315 | Deleting id 3 leaves the other five records in their original order. |
| `Example.ExampleNoMatch` | crudOperation/mydatabase.js:229 | Matching is strict: the string "2" matches no record, and neither does id 7. |
| `Example.ExampleRename` | crudOperation/mydatabase.js:291-292 | Right after the example folder is created, renaming it to `newExampleFolder` succeeds and leaves exactly the renamed, empty folder. |
| `Example.ExampleListing` | crudOperation/mydatabase.js:293-295 | Listing the renamed folder succeeds and lists nothing. |
| `Example.ExampleRunAsWritten` | crudOperation/mydatabase.js:287-315 | The script as written, each step complete before the next, from an empty working directory: the folder is renamed before the file is created in its old path, so the file creation, the update and the delete all report not-found, and only the renamed, empty folder is left. |
| `Example.ExampleRun` | crudOperation/mydatabase.js:287-315 | The script with its record steps in the renamed folder `updatedFolderPath`: the listing is empty, and the five steps leave exactly the renamed folder holding the five expected records. |

## Left out

- The `fs` calls and `console` output are left out; only their effect on the filesystem map is modelled. Failures that the state does not determine are not modelled: permissions, a full disk, a read or write error.
- Asynchrony is not modelled: each step is taken to complete before the next starts. Under Node's scheduling the example's `existsSync` guards run before the asynchronous `mkdir`, `rename` and `writeFile` calls finish; `Example.ExampleRunAsWritten` does not capture that interleaving.
- The lost update between the concurrent `updateJSONData` and `deleteJSONRecord` calls of the example is left out. That is concurrency.
- `FileSystem.UpdateFolderName`: returns the new path on success, as its doc comment promises. The source really returns `undefined`, because `newFolderPath` is returned from inside the `rename` callback. This is asynchronous behaviour.
- `JSON.stringify(..., null, 2)` and `JSON.parse` are not modelled. A file holds either a parsed JSON value or text that does not parse. Objects are maps, so the order of their fields is not modelled.
- Node's path normalisation is not modelled. Paths and names are made of `Segment`s: not empty, no separator, not `.` or `..`. A name such as `""` or `..`, which `path.join` folds into an existing path, cannot be passed.
- `FileSystem.UpdateFolderName`: compares the normalised old and new paths, where the source compares the raw strings with `===`. So a non-normalised old path such as `./x` renamed to `x` reaches the already-exists refusal in the source, not the same-name one.
- Numbers are mathematical reals. Floating-point rounding is not modelled. JSON has no NaN or infinities.
- The loop in `readFolderContents` that prints each entry is left out. The model returns the classified listing it would print.

## Findings

| source | as written | input that shows it | evidently intended | confidence | as-written member | corrected member |
|---|---|---|---|---|---|---|
| crudOperation/mydatabase.js:292-315 | The example renames `./exampleFolder` to `./newExampleFolder`, then creates `example3.json` in `./exampleFolder` and updates and deletes records there | An empty working directory, steps taken in program order, each complete before the next: the file creation, the update and the delete all report not-found | The record steps use the folder where it now is, `updatedFolderPath`, and leave it holding the five expected records | medium; not executed | `Example.ExampleRunAsWritten` | `Example.ExampleRun` |
