# WebVella ERP file repository, modelled in Dafny

`DbFileRepository` is the part of WebVella ERP that stores user files in
PostgreSQL. A file is one row of the `files` table. The row holds an id, the
id of a large object that holds the bytes, a path, the two timestamps and the
two principals. An operation that takes a path first normalises it: the path is
lower-cased, and a leading `/` is added when it is missing. A null or blank path
is refused, except by `FindAll`: there a null or blank `startsWithPath` means
"no filter". `Create`, `Delete`, `Copy` and `Move` each run their updates in a
transaction, and a failing step rolls it back. `CleanupExpiredTempFiles` has no
transaction of its own. It calls `Delete` once per selected path, so a failure
keeps the deletions made before it.

The model has five modules:

- `Wrappers` holds `Option`, `Result`, the error kinds and `Fault`. A `Fault` names the step of a transaction that fails, or none.
- `Guids` holds the 128-bit Guid and its textual forms: hyphenated (`GuidText`) and 32 hex digits (`Hex`).
- `Paths` holds the white-space test, lower-casing, path normalisation, the extension clean-up and the temporary-file path.
- `Table` holds the row, the `files` table and the large-object store as values (`Store`), plus their consistency (`Valid`). It also holds the queries (`Lookup`, `Listing`, `BranchQuery`, `Page`), the effect of each update as a function (`DeleteEffect`, `Created`, `Moved`), and the lemmas about them.
- `Repository` holds the class `DbFileRepository`. Its fields `rows` and `blobs` are the two stores, and its methods update them step by step.

Each method's `ensures` ties the new state to the `Table` function for its
effect. A rollback restores the state from before the transaction.

A fresh Guid or object id, the current time, the random temporary section and
the point where a database step fails are parameters of the methods. The
model does not produce them itself.

The model follows the code as written. Where the code does something other
than its names and comments say, the contract states what the code does, and
a lemma makes the consequence explicit (see "## Behaviour as written").

## Model

| member | source | states |
|---|---|---|
| Paths.Normalize | WebVella.ERP/Database/DbFileRepository.cs:15-21 | A null or blank path is refused with an invalid-argument error, and only such a path is refused. Otherwise the result is canonical (rooted, no upper-case letter), ends with the lower-cased input, and is at most one character longer. A path that already starts with `/` is only lower-cased (`Paths.NormalizeRooted`). |
| Paths.NormalizeRooted | WebVella.ERP/Database/DbFileRepository.cs:19-21 | A path that already starts with `/` normalises to its lower-cased text: the separator is added only when it is missing. |
| Paths.NormalizeFixesExactlyCanonical | WebVella.ERP/Database/DbFileRepository.cs:18-21 | Normalisation leaves a path unchanged if and only if the path is already canonical. |
| Paths.NormalizeIdempotent | WebVella.ERP/Database/DbFileRepository.cs:18-21 | Normalising an already normalised path gives the same path. This is why each nested `Find` or `Delete` on a normalised path looks up that very path. |
| Paths.StartsWithFilter | WebVella.ERP/Database/DbFileRepository.cs:40-46 | A null or blank `startsWithPath` yields no filter. Otherwise the filter is the normal form of the path. |
| Paths.Lower | WebVella.ERP/Database/DbFileRepository.cs:19 | The result has the input's length, and each character is that character lower-cased. |
| Paths.IsNullOrWhiteSpace | WebVella.ERP/Database/DbFileRepository.cs:15 | A string is null or blank when it is null or every character is white space. `Paths.BlankIffTrimsToNothing` ties this to `Trim`. |
| Paths.Trim | WebVella.ERP/Database/DbFileRepository.cs:345 | The result is the stretch of the input between its leading and its trailing white-space run: it starts right after the leading run, every character before it and after it is white space, and for text that is not blank it starts and ends with a non-white-space character. |
| Paths.BlankIffTrimsToNothing | WebVella.ERP/Database/DbFileRepository.cs:343-345 | A string is blank if and only if trimming it leaves nothing. |
| Paths.NormalizeExtension | WebVella.ERP/Database/DbFileRepository.cs:343-348 | A null extension adds nothing and a blank one is kept as it is. Any other extension is its trimmed, lower-cased text `t`, with a `.` put in front when `t` does not already start with one: the result starts with `.`, has no upper-case letter, ends in a non-blank character, ends with `t`, is at most one character longer than `t`, and equals `t` when `t` starts with `.`. |
| Paths.Dotted | WebVella.ERP/Database/DbFileRepository.cs:346-347 | The result starts with `.` and ends with the input, and is at most one character longer. An input that already starts with `.` is kept as it is. |
| Paths.Section | WebVella.ERP/Database/DbFileRepository.cs:350 | The random folder is the Guid's 32 lower-case hex digits. |
| Paths.HyphensDropped | WebVella.ERP/Database/DbFileRepository.cs:350 | Removing the hyphens from a Guid's text and lower-casing it gives its 32 hex digits. |
| Paths.TempPath | WebVella.ERP/Database/DbFileRepository.cs:351 | The temporary path is rooted, ends with the file name and the normalised extension, and is six characters (`/tmp/`, `/`) longer than the section, file name and extension together. |
| Paths.TempPathShape | WebVella.ERP/Database/DbFileRepository.cs:351 | The temporary path is `/tmp/`, then the 32 hex digits, then `/`, then the file name and extension. Its normal form is its lower-cased text. |
| Paths.TempPathLowered | WebVella.ERP/Database/DbFileRepository.cs:350-352 | Lower-casing the temporary path only lower-cases the file name and extension. |
| Paths.TempFileEscapesTmpPattern | WebVella.ERP/Database/DbFileRepository.cs:351 | A temporary path whose extension is non-blank and has no `/` does not end with `/tmp`. The cleanup pattern therefore never selects it. |
| Guids.GuidText | WebVella.ERP/Database/DbFileRepository.cs:132 | A Guid's text has 36 characters: hex digits with hyphens at positions 8, 13, 18 and 23. |
| Table.Lookup | WebVella.ERP/Database/DbFileRepository.cs:25-34 | A record the lookup returns is a row of the table and has the path looked up. |
| Table.LookupIsUniqueMatch | WebVella.ERP/Database/DbFileRepository.cs:30-34 | A lookup returns a record exactly when one row, and only one, has the path. That record is that row. |
| Table.Listing | WebVella.ERP/Database/DbFileRepository.cs:65-88 | Every listed row is a table row that passes the temporary-file and path filters. |
| Table.BranchQuery | WebVella.ERP/Database/DbFileRepository.cs:65-88 | Every row the selected `SELECT` returns is a table row. With temporary files included and no path filter, the query returns the whole table. |
| Table.BranchQueryIsListing | WebVella.ERP/Database/DbFileRepository.cs:65-88 | Each of the four `SELECT`s equals one filter: keep temporary rows only when asked, and keep a row only if its path ends with the start path. |
| Table.PagingOf | WebVella.ERP/Database/DbFileRepository.cs:48-59 | A negative skip or limit is refused, and only such a value is. A missing skip means offset 0. A missing limit means `LIMIT ALL`. Otherwise the given values are used. |
| Table.Page | WebVella.ERP/Database/DbFileRepository.cs:49-59 | A page holds at most `limit` rows. |
| Table.PageOfListing | WebVella.ERP/Database/DbFileRepository.cs:61-95 | A page of the listing equals the same page of the four queries. It holds only table rows that qualify, in table order, and at most `limit` of them. |
| Table.StartsWithFilterMatchesSuffix | WebVella.ERP/Database/DbFileRepository.cs:67-75 | The `startsWithPath` filter is a suffix match. `/a/b` starts with `/a` but is not listed for it. It does not start with `/b` but is listed for it. |
| Table.DeleteEffect | WebVella.ERP/Database/DbFileRepository.cs:308-325 | A committed `Delete` of a normalised path: nothing changes when `Find` returns no record; otherwise that record's large object is unlinked and the rows with its id are removed. Its properties are proved in `Table.DeleteEffectFacts`. |
| Table.DeleteEffectFacts | WebVella.ERP/Database/DbFileRepository.cs:308-325 | A committed delete keeps the stores consistent and leaves nothing at the path. It keeps every row at another path, and it only removes rows and large objects, never changes them. |
| Table.DeleteRemovesExactly | WebVella.ERP/Database/DbFileRepository.cs:319-323 | Deleting a file that `Find` returns removes exactly its row and its large object. |
| Table.DeleteIdempotent | WebVella.ERP/Database/DbFileRepository.cs:298-333 | A second delete of the same path changes nothing. |
| Table.NewRow | WebVella.ERP/Database/DbFileRepository.cs:127-137 | The inserted row's path is a Guid's text, which never starts with `/`. Its modification date and principal equal its creation date and principal. |
| Table.CreatedValid | WebVella.ERP/Database/DbFileRepository.cs:117-139 | Inserting a row with a fresh id and a fresh large object keeps the stores consistent. |
| Table.NewRowInvisible | WebVella.ERP/Database/DbFileRepository.cs:132-151 | A row stored under a Guid's text is found by no rooted path. A `Find` of any normalised path gives the same answer before and after the insert. |
| Table.CreatedStoresUnderGuidText | WebVella.ERP/Database/DbFileRepository.cs:118-139 | After the insert, the new row is found under the Guid's text, and its large object holds the buffer. |
| Table.SetPath | WebVella.ERP/Database/DbFileRepository.cs:277-280 | The `UPDATE` of a path keeps the number of rows and every row's id and large object. A row with the id gets the new path and keeps every other field: timestamps, principals, large object. Rows with another id are unchanged. |
| Table.SetModifiedOn | WebVella.ERP/Database/DbFileRepository.cs:170-173 | The `UPDATE` of a modification date keeps the number of rows and every row's id and path. A row with the id gets the new modification date and keeps every other field. Rows with another id are unchanged. |
| Table.MovedValid | WebVella.ERP/Database/DbFileRepository.cs:277-280 | Changing a row's path keeps the ids and large objects, so the stores stay consistent. |
| Table.UpdateOfUnknownIdChangesNothing | WebVella.ERP/Database/DbFileRepository.cs:170-173 | An `UPDATE ... WHERE id = @id` whose id no row has leaves the table as it was. |
| Table.MoveKeepsIdentity | WebVella.ERP/Database/DbFileRepository.cs:274-283 | Moving a file to another path, in a table whose paths are distinct, keeps the record: the same id, large object, timestamps and principals, now found at the destination. |
| Table.MoveOntoItselfDeletes | WebVella.ERP/Database/DbFileRepository.cs:274-283 | Moving a file onto its own path with overwrite deletes the file and its large object. |
| Table.CopySourceSurvives | WebVella.ERP/Database/DbFileRepository.cs:218-221 | Deleting the destination keeps the source row and its bytes whenever its large object survives. Copying a file onto itself unlinks the large object it was about to read. |
| Table.CopyOutcome | WebVella.ERP/Database/DbFileRepository.cs:218-225 | A committed copy leaves the stores consistent, with the source row and its bytes intact. The destination path still finds nothing. |
| Table.TmpPaths | WebVella.ERP/Database/DbFileRepository.cs:366-368 | The cleanup query returns the path of each row the `%/tmp` pattern selects, one per row, in table order. |
| Table.TmpPathSurvivesNormalize | WebVella.ERP/Database/DbFileRepository.cs:366-372 | A path that the `%/tmp` pattern selects is never blank, and its normal form still matches the pattern. |
| Table.SweepStep | WebVella.ERP/Database/DbFileRepository.cs:371-372 | When temporary rows are canonical and no two temporary rows share a path, deleting the next selected path removes exactly the row that has it. Other rows may share paths among themselves: none of them can have a temporary row's path, since the pattern looks only at the path. |
| Table.SweepAdvance | WebVella.ERP/Database/DbFileRepository.cs:371-372 | Deleting the next selected path moves the sweep on by one and keeps the sweep invariant. The invariant: stores consistent, no row gained, every non-temporary row kept, large objects only removed. |
| Table.SweepBounds | WebVella.ERP/Database/DbFileRepository.cs:366-373 | Removing no selected path keeps the table. Removing all of them leaves exactly the rows the pattern does not match. |
| Table.TmpPatternMatchesFileNamedTmp | WebVella.ERP/Database/DbFileRepository.cs:366-367 | The cleanup pattern selects `/a/tmp`, a file called `tmp` that is not under the `/tmp/` folder. |
| Repository.DbFileRepository.Find | WebVella.ERP/Database/DbFileRepository.cs:13-35 | A null or blank path is refused, and only such a path is. Otherwise the result is the record when exactly one row has the normalised path, and null otherwise. |
| Repository.DbFileRepository.FindAll | WebVella.ERP/Database/DbFileRepository.cs:37-96 | A negative skip or limit is an error, and only such a value is. Otherwise the result is the paging window of the query branch the arguments select. |
| Repository.DbFileRepository.ScanPage | WebVella.ERP/Database/DbFileRepository.cs:61-95 | The loop over the table returns exactly the paging window of the listing. |
| Repository.DbFileRepository.Create | WebVella.ERP/Database/DbFileRepository.cs:98-152 | A blank path is refused. An existing path is reported. Otherwise the result is always null. A null buffer or a failing step leaves the stores as they were. A commit appends the new row, filed under a Guid's text, and its large object. The stores stay consistent. |
| Repository.DbFileRepository.CreateTransaction | WebVella.ERP/Database/DbFileRepository.cs:115-148 | The transaction of `Create`: a null buffer or a failing step leaves the stores as they were; otherwise the new row and its large object are added. The stores stay consistent. |
| Repository.DbFileRepository.UpdateModificationDate | WebVella.ERP/Database/DbFileRepository.cs:154-177 | A blank path is refused, and a missing file is reported. Otherwise the record comes back unchanged. In every case the stores are unchanged. |
| Repository.DbFileRepository.Delete | WebVella.ERP/Database/DbFileRepository.cs:298-333 | A blank path is refused. A missing file is a no-op. Otherwise the file's row and large object are removed, unless a step fails, in which case the error is reported and the stores are restored. The stores stay consistent. |
| Repository.DbFileRepository.Copy | WebVella.ERP/Database/DbFileRepository.cs:186-233 | The result for each case: a blank path, a missing source, an existing destination without overwrite, a failed step, success (null). After a failure the stores are unchanged. After a commit they hold the deletion of the destination and then the insert under a Guid's text. The source and its bytes survive, the destination stays empty, and the stores stay consistent. |
| Repository.DbFileRepository.CopyTransaction | WebVella.ERP/Database/DbFileRepository.cs:212-232 | The transaction of `Copy`: it either fails and restores the stores, or commits the deletion and the insert. |
| Repository.DbFileRepository.CopyInto | WebVella.ERP/Database/DbFileRepository.cs:221-225 | Reading the source and calling `Create`: a failing step of `Copy`'s own transaction restores the stores; otherwise the result is null and the stores hold `Create`'s insert, or nothing new when `Create` rolled back. |
| Repository.DbFileRepository.Move | WebVella.ERP/Database/DbFileRepository.cs:242-291 | The result for each case: a blank path, a missing source, an existing destination without overwrite, a failed step, success. After a commit the destination is deleted and the source row points at the destination. Between distinct paths, the result is the source record at its new path. Moving a file onto itself deletes it and returns null. |
| Repository.DbFileRepository.MoveTransaction | WebVella.ERP/Database/DbFileRepository.cs:268-290 | The transaction of `Move`: it either fails and restores the stores, or commits the deletion and the path update, then returns `Find` of the destination. |
| Repository.DbFileRepository.CreateTempFile | WebVella.ERP/Database/DbFileRepository.cs:341-353 | Never fails and stores nothing. The result is the lookup of `/tmp/<32 hex digits>/` followed by the lower-cased file name and normalised extension. Any record it returns is a row of the table. |
| Repository.DbFileRepository.CleanupExpiredTempFiles | WebVella.ERP/Database/DbFileRepository.cs:359-373 | The stores stay consistent and no row is gained. Every row outside the `%/tmp` pattern is kept, and large objects are only removed. Without failing steps the sweep succeeds. When the temporary rows are canonical and no two of them share a path, a successful sweep leaves exactly the rows the pattern does not match. |

## Behaviour as written

Several operations do something other than their names and comments say. The
model keeps what the code does. Each item below names the member or lemma
where the consequence is proved.

- Normalisation does not trim. A path with surrounding blanks keeps them (`Paths.Normalize`).
- The `startsWithPath` filter of `FindAll` is `ILIKE '%' + path`, which is an ends-with test (`Table.StartsWithFilterMatchesSuffix`).
- `Create` inserts the row with the text of a new Guid as its path instead of the given path (`Table.CreatedStoresUnderGuidText`).
  - The closing `Find` of the given path therefore returns null (`Table.NewRowInvisible`).
  - A failure inside the transaction is swallowed after the rollback, so the caller sees the same null.
  - `Copy`, which delegates to `Create`, leaves the destination empty and returns null (`Repository.DbFileRepository.Copy`).
- `UpdateModificationDate` keys its `UPDATE` on a freshly made Guid, so it updates no row (`Table.UpdateOfUnknownIdChangesNothing`).
- `CreateTempFile` never writes its buffer. It only looks the computed path up (`Repository.DbFileRepository.CreateTempFile`).
- `CleanupExpiredTempFiles` ignores `expiration`. It selects every path that ends with `/tmp` and calls `Delete` on each. A selected path that `Find` cannot reach, because it is not canonical (`/A/TMP`) or several rows share it, is not deleted:
  - a file called `tmp` in any folder is deleted (`Table.TmpPatternMatchesFileNamedTmp`);
  - a file under `/tmp/<section>/` whose extension is non-blank and holds no `/` is never deleted (`Paths.TempFileEscapesTmpPattern`); an extension such as `a/tmp` makes the path end in `/tmp`.
- Moving or copying a file onto its own path with overwrite deletes it before reading it:
  - the move returns null (`Table.MoveOntoItselfDeletes`);
  - the copy fails with a storage error (`Table.CopySourceSurvives`).

## Left out

- SQL text, connections, command objects and `NpgsqlDataAdapter` are left out. Each query is a function on the table value.
- `ILIKE` wildcards inside a caller's path (`%`, `_`) and its default escape character `\` are not modelled. A path is matched literally, case-insensitively.
- `string.StartsWith` with one string argument compares culture-sensitively in .NET, where ignorable characters such as the soft hyphen U+00AD match nothing. Every prefix test (`Paths.Normalize`, `Paths.StartsWithFilter`, `Paths.NormalizeExtension`) is modelled as an exact, character-by-character match; culture-ignorable characters are not modelled.
- `ToLowerInvariant` is modelled on the ASCII letters only. Other Unicode case mappings are not.
- `char.IsWhiteSpace` is modelled by its fixed list of Unicode white-space characters.
- Nested transactions are not modelled. Each inner `Delete` or `Create` call rolls back to its own start. A failure in the outer transaction restores the state saved at its start. A rollback by the connection that the inner call opened, or a savepoint, is not modelled.
- Exceptions are `Err` results. A thrown exception and the error it carries are both one of the four error kinds.
- Concurrency between connections is not modelled. Every operation runs alone.
- The system clock, `Guid.NewGuid()`, and the object ids the large-object manager allocates are parameters. The model requires the new id and object id to be unused.
- The `DbFile` class and the stream I/O of the large-object manager are left out. `GetBytes` is the map lookup of the large object, and a write stores the whole buffer.
- Row order is the order of the `rows` sequence. PostgreSQL gives no order without `ORDER BY`, so the model fixes one order.
- Repository.DbFileRepository.FindAll: the contract states only that the result equals the page of the selected query branch. Membership, order and size are proved once, about that value, in `Table.PageOfListing`.
- Repository.DbFileRepository.CleanupExpiredTempFiles: the exact result (only non-temporary rows left) is proved only when the temporary rows are canonical and no two of them share a path. Otherwise `Find` may miss a selected row, and the contract states only the bounds.
- Repository.DbFileRepository.UpdateModificationDate: the stray Guid's freshness is a precondition, since `Guid.NewGuid()` is a parameter.
