# XciHelper catalog bookkeeping, in Dafny

SwitchGameManager keeps a catalog of Nintendo Switch cartridge images
(`.xci` files). The catalog has three lists of game records:

- the games found on the PC (`xciOnPc`);
- the games found on the SD card (`xciOnSd`);
- a cache of parsed records (`xciCache`), kept in a cache file between runs.

Records are keyed by `uniqueId`, the SHA-256 digest of the file's base name.
This project models `XciHelper`, the static class that fills and maintains
those lists.

The model covers:

- **Lookup:** the first-match lookup and the id filter.
- **Records:** the validity test and the derived fields of a parsed record.
- **Cache upkeep:** the remove-then-append upsert done by `RefreshGame`, the
  insert-if-absent done by `UpdateXciCache`, and the backward prune loop of
  `SaveXciCache`.
- **Scanning:** the recursive directory walk and the per-file record
  construction.
- **Loading:** the two in-place refresh loops of a full load.
- **Background refresh:** the queue that a background refresh drains.
- **File operations:** the state change `UpdateXci` applies once a copy,
  move, delete, complete delete or trim has finished.

## How the model is laid out

- `records.dfy` (`Records`): the record (`XciItem`), the pending file
  operation (`FileStruct`) and the two locations. All are values.
  - The source's records are objects. `Clone` copies a cached record when a
    scan builds the list records.
  - `RefreshGame` then returns the very object it has just added to the
    cache, and `LoadXcis` stores that object in the list. After a load, a list
    record whose refresh was its id's latest is the cache's own record.
  - The model keeps those two as separate values. It follows the sharing only
    where `RefreshGame`'s result is written right away: the Copy and Move
    branches of `UpdateXci`. "## Left out" names the writes it misses.
- `environment.dfy` (`Environment`): the file system as the catalog sees it.
  - For each existing file: its length, what the cartridge parser reports,
    and its certificate bytes.
  - For each existing directory: its subdirectories and its file entries, in
    enumeration order.
- `text.dfy` (`Text`): the .NET string operations the catalog depends on:
  - `Char.IsWhiteSpace`;
  - `Trim().TrimEnd('\0')`;
  - `Path.GetFileName` and `Path.GetFileNameWithoutExtension`.
- `lookup.dfy` (`Lookup`): id-keyed queries and the upsert.
- `metadata.dfy` (`Metadata`): `GetXciIdentifier`, `ReadXciCert`,
  `GetXciInfo`, `IsXciInfoValid`, and the record `RefreshGame` settles on.
- `scanner.dfy` (`Scanner`): `FindAllFiles`.
- `cache_prune.dfy` (`CachePrune`): the pruning done by `SaveXciCache`.
- `file_operations.dfy` (`FileOperations`): `UpdateXci` as a function from
  one state (both lists, the cache, the disk) to the next.
- `xci_helper.dfy` (`XciHelper`): the `Catalog` class.
  - Its fields are the static state of the source: both lists, the cache,
    the refresh queue, the cache file, the disk and the loading flag.
  - Its methods are the imperative operations, each proved against the
    functions above.

SHA-256 is a parameter (`sha256: string -> string`), and nothing about its
output is assumed. The configured PC folders and SD drive are fixed when the
`Catalog` is created.

## Behaviours of the code as written

Where the code and its documentation disagree, the model follows the code.

- **Validity ignores title-id length.** `IsXciInfoValid` checks only that the
  name and the title id are not blank (lines 365-377). It never checks that
  the title id has 16 characters.
  - `GetXciInfo` prefixes one `'0'` to any title id that is not 16
    characters long, so a parsed title id is never blank.
  - Validity after a parse therefore depends on the game name alone
    (`ParsedValidityDependsOnNameOnly`).
- **A full load never saves the cache.** In `LoadXcis`, `UpdateXciCache` is
  always called right after `RefreshGame` has upserted the same id
  (lines 74-79, 96-103). It therefore never reports an insertion, and the
  save at lines 108-109 never runs. `ProcessEntry` and `RefreshEntries` prove
  this, and `LoadXcis` marks the branch as dead.
  - As a result, `RebuildCache` deletes the cache file and the reload that
    follows leaves no cache file.
- **A first load misses a game's own copy.** `RefreshGame` computes a
  record's presence flags against the lists before the record is written
  back. On a first load (empty cache), each listed record still has the
  empty id at that moment. So a game found only on the PC gets
  `isGameOnPc == false` (`FirstLoadMissesOwnCopy`). The same happens when a
  game is on both the PC and the SD card: its flags are not both true after
  one full load.
- **The first cache record is never pruned.** The prune loop of
  `SaveXciCache` stops before index 0, so the first cache record survives
  whatever its `keepInCache` flag (`Pruned`).
- **The SD branch of Delete skips a null check.** It clears `isGameOnSd`
  through the sibling reference without checking it for null (line 803).
  - The sibling is the first record with the id in the list opposite the
    operation's source (lines 712-721). That is the PC list when the
    operation comes from the SD card.
  - With no such record, the branch throws `NullReferenceException` after
    removing the source record. The PC branch checks (lines 795-798).
  - `ApplyDelete` and `DeleteRemovesRecord` show this as a `Failed`
    outcome.
- **Copy and Trim can also fail.**
  - A Copy whose source record is missing throws after the refreshed clone
    has already been upserted into the cache.
  - A Trim of a missing file throws `FileNotFoundException` while reading the
    file's length. This happens before the source reference is dereferenced.

## Model

| member | source | states |
|---|---|---|
| Lookup.FirstIndex | SwitchGameManager/Helpers/XCIHelper.cs:159-179 | the index found holds the id and no earlier record does; none is found exactly when no record has the id |
| Lookup.FindXciByIdentifer | SwitchGameManager/Helpers/XCIHelper.cs:159-179 | null exactly when no record has the id; otherwise the record at the first index with that id, so duplicates are not an error |
| Lookup.FirstIndexSameIds | SwitchGameManager/Helpers/XCIHelper.cs:159-179 | the lookup depends only on the ids, position by position, so flag writes on a found record do not move it |
| Lookup.AllWithIdMembers | SwitchGameManager/Helpers/XCIHelper.cs:231 | the id filter keeps exactly the list's records that have the id |
| Lookup.AllWithIdStartsWithFirstMatch | SwitchGameManager/Helpers/XCIHelper.cs:225-242 | the filter is empty exactly when the first-match lookup fails; otherwise it starts with the record that lookup finds |
| Lookup.AllWithIdAppend | SwitchGameManager/Helpers/XCIHelper.cs:231-237 | filtering a concatenation is concatenating the filters, so the filter keeps the matching records in list order, each as often as it occurs |
| XciHelper.Catalog.GetAllItemsByIdentifer | SwitchGameManager/Helpers/XCIHelper.cs:225-242 | the result is all PC matches in list order followed by all SD matches in list order; it holds exactly the PC and SD records with the id; it is empty iff neither list has one; it starts with the PC match, or with the SD match when the PC has none |
| Lookup.RemoveAt | SwitchGameManager/Helpers/XCIHelper.cs:652 | removing at an index shortens the list by one and keeps the records before and after it in order |
| Lookup.RemoveFirst | SwitchGameManager/Helpers/XCIHelper.cs:505-510 | removing the found record changes nothing when the id is absent, and otherwise removes exactly the first record with the id |
| Lookup.Upsert | SwitchGameManager/Helpers/XCIHelper.cs:505-510 | after the upsert the record is the newest entry, and the length grows only when the id was absent |
| Lookup.UpsertIds | SwitchGameManager/Helpers/XCIHelper.cs:505-510 | an upsert adds the record's id and loses none, and every other record keeps its relative order |
| Lookup.UpsertKeepsIdsUnique | SwitchGameManager/Helpers/XCIHelper.cs:505-510 | a cache with one record per id keeps that property through an upsert |
| Lookup.UpsertIdempotent | SwitchGameManager/Helpers/XCIHelper.cs:505-510 | with unique ids, upserting the same record twice equals upserting it once |
| Lookup.RemoveFirstLeavesNoMatch | SwitchGameManager/Helpers/XCIHelper.cs:505-510 | with unique ids, removing the first record with an id leaves none with it |
| Lookup.UpsertReplaceNewest | SwitchGameManager/Helpers/XCIHelper.cs:732-737 | a write to the returned record also changes the cache's newest entry, and the result is the upsert of the written record |
| XciHelper.UpsertedRecordIsFound | SwitchGameManager/Helpers/XCIHelper.cs:505-510 | with unique ids, a lookup right after the upsert finds the upserted record itself |
| Text.TrimStartWhereSpec | SwitchGameManager/Helpers/XCIHelper.cs:315-326 | trimming the front leaves a suffix; every removed character is white space and the first one kept is not |
| Text.TrimEndWhereSpec | SwitchGameManager/Helpers/XCIHelper.cs:315-326 | trimming the end leaves a prefix; every removed character matches and the last one kept does not |
| Text.CleanFieldBlankIffEmpty | SwitchGameManager/Helpers/XCIHelper.cs:315-326 | a field after `Trim().TrimEnd('\0')` is null-or-white-space exactly when it is empty |
| Text.FileNameSpec | SwitchGameManager/Helpers/XCIHelper.cs:278 | the file name is the part of the path after its last separator and holds no separator |
| Text.WithoutExtensionSpec | SwitchGameManager/Helpers/XCIHelper.cs:278 | dropping the extension keeps everything before the last '.', or the whole name when it has no '.' |
| Text.FileNameOfJoin | SwitchGameManager/Helpers/XCIHelper.cs:278 | the file name of directory, separator and name is the name, whatever the directory |
| Metadata.GetXciIdentifier | SwitchGameManager/Helpers/XCIHelper.cs:271-281 | a missing file is "UNKNOWN"; an existing file's identity is the digest of its base name without extension |
| Metadata.IdentityIgnoresDirectory | SwitchGameManager/Helpers/XCIHelper.cs:271-281 | two existing files with the same name in different directories get the same identity, the digest of the name without its extension |
| Metadata.IsXciInfoValid | SwitchGameManager/Helpers/XCIHelper.cs:365-377 | valid exactly when the record is non-null and its name and its title id each hold a character that is not white space |
| Metadata.ReadXciCert | SwitchGameManager/Helpers/XCIHelper.cs:473-487 | the certificate is always 512 bytes |
| Metadata.ReadXciCertBytes | SwitchGameManager/Helpers/XCIHelper.cs:473-487 | a missing file gives 512 zero bytes; otherwise the bytes of the certificate area, zero past its end |
| Metadata.AllEqualToMeans | SwitchGameManager/Helpers/XCIHelper.cs:347 | `All(s => s.Equals(b))` holds exactly when every byte equals b |
| Metadata.IsUniqueCertMeans | SwitchGameManager/Helpers/XCIHelper.cs:347 | a certificate is unique exactly when some byte differs from byte 0 |
| Metadata.UniqueCertIffTwoBytesDiffer | SwitchGameManager/Helpers/XCIHelper.cs:347 | a certificate is unique exactly when some two of its bytes differ |
| Metadata.PadTitleId | SwitchGameManager/Helpers/XCIHelper.cs:323 | a 16-character title id is kept; any other gets exactly one '0' in front, so only 15 characters become 16 |
| Metadata.GetXciInfo | SwitchGameManager/Helpers/XCIHelper.cs:296-353 | null exactly for a missing file; otherwise a record for that path and location, identified by the digest of its base name, present only at that location, not yet kept, with no pending operation |
| Metadata.GetXciInfoDerivedFields | SwitchGameManager/Helpers/XCIHelper.cs:322-347 | a parsed record is trimmed exactly when its exact and used sizes agree; its certificate is 512 bytes and unique exactly when some byte differs from byte 0; its title id is never blank |
| Metadata.TitleIdNeverBlank | SwitchGameManager/Helpers/XCIHelper.cs:322-323 | the cleaned and padded title id is never null-or-white-space |
| Metadata.ParsedValidityDependsOnNameOnly | SwitchGameManager/Helpers/XCIHelper.cs:315-323 | a freshly parsed record is valid exactly when its cleaned game name is non-empty |
| Metadata.RefreshedRecord | SwitchGameManager/Helpers/XCIHelper.cs:489-503 | metadata is re-parsed exactly when forced or invalid and the file exists; otherwise it is kept; path and location are kept; each presence flag equals the id's presence in that list; the record is kept and has no pending operation |
| Metadata.RefreshIdempotent | SwitchGameManager/Helpers/XCIHelper.cs:489-503 | refreshing a valid refreshed record again, without force and against the same lists, changes nothing |
| XciHelper.Catalog.RefreshGame | SwitchGameManager/Helpers/XCIHelper.cs:489-512 | returns the refreshed record and leaves the cache as the old cache with that record upserted |
| XciHelper.Catalog.UpdateXciCache | SwitchGameManager/Helpers/XCIHelper.cs:843-861 | inserts (appends) exactly when no cache record has the id, even when the existing record is invalid; otherwise the cache is unchanged |
| XciHelper.UpdateAfterRefreshFindsRecord | SwitchGameManager/Helpers/XCIHelper.cs:74-79 | right after a refresh has upserted a record, the cache lookup of its id succeeds, so UpdateXciCache adds nothing |
| CachePrune.KeepOnlyMembers | SwitchGameManager/Helpers/XCIHelper.cs:647-654 | the filtered records are exactly those whose keepInCache is set |
| CachePrune.Pruned | SwitchGameManager/Helpers/XCIHelper.cs:643-654 | the first record always survives; of the rest, exactly those with keepInCache set survive |
| CachePrune.KeepOnlyAppend | SwitchGameManager/Helpers/XCIHelper.cs:647-654 | filtering a concatenation is concatenating the filters, so the kept records keep their relative order and multiplicity |
| CachePrune.PrunedAppend | SwitchGameManager/Helpers/XCIHelper.cs:643-654 | pruning a cache with records appended is pruning the cache and then appending the appended records that are kept: survivors keep their order |
| CachePrune.PruneStep | SwitchGameManager/Helpers/XCIHelper.cs:647-654 | visiting index i in the backward walk removes the record there exactly when its flag is clear, and leaves indices before i untouched |
| CachePrune.PruneDone | SwitchGameManager/Helpers/XCIHelper.cs:646-654 | the walk stopped before index 0 yields exactly the pruned cache |
| XciHelper.Catalog.SaveXciCache | SwitchGameManager/Helpers/XCIHelper.cs:631-658 | an empty cache is left alone and nothing is written; otherwise the cache becomes its pruned form and is written to the cache file |
| CachePrune.PrunedKeepsNewest | SwitchGameManager/Helpers/XCIHelper.cs:647-654 | a newest record with keepInCache set survives the pruning |
| CachePrune.KeepOnlyIdempotent | SwitchGameManager/Helpers/XCIHelper.cs:647-654 | filtering twice equals filtering once |
| CachePrune.PrunedIdempotent | SwitchGameManager/Helpers/XCIHelper.cs:631-658 | a second save prunes nothing more |
| CachePrune.KeepOnlyKeepsIdsUnique | SwitchGameManager/Helpers/XCIHelper.cs:647-654 | filtering a list with one record per id keeps it so |
| CachePrune.PrunedKeepsIdsUnique | SwitchGameManager/Helpers/XCIHelper.cs:643-654 | pruning a cache with one record per id keeps it so |
| Scanner.Matching | SwitchGameManager/Helpers/XCIHelper.cs:154 | the listed entries are exactly the directory's existing entries that match the pattern |
| Scanner.FindAllFiles | SwitchGameManager/Helpers/XCIHelper.cs:139-157 | with recursion, a missing root gives an empty list; without it, a missing directory is an error; otherwise it gives the recursive walk or only the directory's own files |
| Scanner.FindFilesIn | SwitchGameManager/Helpers/XCIHelper.cs:141-156 | the recursive walk lists each subdirectory's listing in order, then the directory's own matching files |
| Scanner.WalkListsExactlyTheTree | SwitchGameManager/Helpers/XCIHelper.cs:139-157 | the recursive listing holds exactly the matching files found anywhere in the tree |
| Scanner.WalkSubdirsListsSubtrees | SwitchGameManager/Helpers/XCIHelper.cs:148-151 | the subdirectory part of the listing holds exactly the matching files of those subtrees |
| Scanner.InTreeExists | SwitchGameManager/Helpers/XCIHelper.cs:148-154 | a file found anywhere in the tree exists |
| Scanner.ListedFilesExist | SwitchGameManager/Helpers/XCIHelper.cs:139-157 | every listed path exists and matches the pattern |
| XciHelper.Discovered | SwitchGameManager/Helpers/XCIHelper.cs:391-411 | the record for a file has that file's path, the scanned location and the matching presence flags; it is a copy of the cached record with the file's identity, or a blank invalid record with an empty id |
| XciHelper.RescanParsesOnlyUncached | SwitchGameManager/Helpers/XCIHelper.cs:389-399 | a listed file is parsed again exactly when the cache holds no valid record with its identity |
| XciHelper.DiscoveredAllStamps | SwitchGameManager/Helpers/XCIHelper.cs:401-411 | every record of a scan carries its own file's path and the scanned location |
| XciHelper.Catalog.Discover | SwitchGameManager/Helpers/XCIHelper.cs:391-411 | returns the record one listed file gets |
| XciHelper.Catalog.DiscoverAll | SwitchGameManager/Helpers/XCIHelper.cs:389-414 | returns one record per listed file, in listing order |
| XciHelper.Catalog.LoadGamesFromPath | SwitchGameManager/Helpers/XCIHelper.cs:379-417 | fails exactly when a non-recursive scan has no directory; otherwise returns one record per listed file, in listing order |
| XciHelper.ScannedPaths | SwitchGameManager/Helpers/XCIHelper.cs:244-256 | every file the PC scan lists exists and matches the pattern |
| XciHelper.SdPaths | SwitchGameManager/Helpers/XCIHelper.cs:258-269 | a missing SD drive lists nothing; every listed file exists and matches the pattern |
| XciHelper.Catalog.GetPcXcis | SwitchGameManager/Helpers/XCIHelper.cs:244-256 | returns the records of every configured folder's recursive listing, folder by folder |
| XciHelper.Catalog.GetSdXcis | SwitchGameManager/Helpers/XCIHelper.cs:258-269 | returns the records of the SD root's own files, or none when the drive does not exist |
| XciHelper.SetLocation | SwitchGameManager/Helpers/XCIHelper.cs:98 | setting the SD location on a record scanned from the SD card changes nothing |
| XciHelper.Catalog.RefreshAt | SwitchGameManager/Helpers/XCIHelper.cs:89-98 | the record at the index becomes its refresh against the lists as they were, the cache gets that record upserted, and the other list is untouched |
| XciHelper.Catalog.ProcessEntry | SwitchGameManager/Helpers/XCIHelper.cs:70-80 | one loop step refreshes the record in place and upserts it into the cache; UpdateXciCache then never reports an insertion |
| XciHelper.Catalog.ScanBoth | SwitchGameManager/Helpers/XCIHelper.cs:59-61 | the PC list holds, per scanned PC path and in order, the record discovery gives (a clone of the cached record with that file name, or a blank record), stamped with its path and PC; the SD list likewise for the SD card's files, stamped SD |
| XciHelper.Catalog.RefreshStep | SwitchGameManager/Helpers/XCIHelper.cs:70-103 | one loop step replaces the record at the index with its refreshed record, against the lists as they were, and upserts that record into the cache; so it keeps its path and location, is kept, has no pending operation and its id joins the cache ids; every other record is untouched; one record per id in the cache stays so |
| XciHelper.Catalog.RefreshEntries | SwitchGameManager/Helpers/XCIHelper.cs:68-106 | either loop keeps the list's length and paths; afterwards every record is at the list's location, kept, has no pending operation and has its id in the cache; no id leaves the cache; a cache with one record per id stays so; the loop never reports an insertion |
| XciHelper.FirstLoadMissesOwnCopy | SwitchGameManager/Helpers/XCIHelper.cs:68-80 | on a first load, a game found once on the PC comes out of its refresh with isGameOnPc false |
| XciHelper.Catalog.LoadXcis | SwitchGameManager/Helpers/XCIHelper.cs:48-115 | afterwards each list holds one record per scanned file, in order, kept and without pending operation; every record sits in its location's list and has its id in the cache; a cache with one record per id stays so; loading is complete; the cache file is not written |
| XciHelper.Catalog.constructor | SwitchGameManager/Helpers/XCIHelper.cs:419-436 | the cache starts as the cache file's records, or empty when there is no file; the lists and the queue start empty |
| XciHelper.Catalog.RebuildCache | SwitchGameManager/Helpers/XCIHelper.cs:117-127 | during a file transfer nothing changes; otherwise the cache file is gone and the reload completes with every listed id in the cache and one cache record per id |
| XciHelper.Catalog.ReplaceRefreshed | SwitchGameManager/Helpers/XCIHelper.cs:566-577 | the refreshed record replaces the first record with its id in its location's list and goes to that list's end; the other list is untouched |
| XciHelper.Catalog.ReplaceKeepsIdsAndLocations | SwitchGameManager/Helpers/XCIHelper.cs:566-577 | that replacement loses no id from either list and keeps every record in its own location's list |
| XciHelper.Catalog.RefreshNext | SwitchGameManager/Helpers/XCIHelper.cs:559-610 | one worker run force-refreshes the queue's first record, upserts it into the cache and into its location's list, and takes it off the queue |
| XciHelper.Catalog.DrainStep | SwitchGameManager/Helpers/XCIHelper.cs:590-610 | one worker run force-refreshes the queue's head, upserts the refreshed record into the cache and into its location's list, leaves the other list alone and takes the head off the queue; once the queue is empty the record asked for last is settled; no id leaves either list; a cache with one record per id stays so |
| XciHelper.Catalog.DrainQueue | SwitchGameManager/Helpers/XCIHelper.cs:590-610 | the worker runs until the queue is empty; the record asked for last ends its location's list and the cache, kept; no id leaves either list; a cache with one record per id stays so |
| XciHelper.Catalog.RefreshXciInBackground | SwitchGameManager/Helpers/XCIHelper.cs:542-616 | afterwards the queue is empty, loading is complete, the cache file holds the cache, no id left the lists, the saved cache keeps one record per id when the cache had it, and the record asked for ends its location's list, kept and in the saved cache |
| XciHelper.Catalog.UpdateXci | SwitchGameManager/Helpers/XCIHelper.cs:698-841 | the lists, cache and disk become, and the outcome is, what the completed operation's branch yields |
| XciHelper.Catalog.CompleteCopy | SwitchGameManager/Helpers/XCIHelper.cs:728-752 | the state after the Copy branch, including the throw on a missing source record after the cache upsert |
| XciHelper.Catalog.CompleteMove | SwitchGameManager/Helpers/XCIHelper.cs:754-787 | the state after the Move branch |
| XciHelper.Catalog.MoveFile | SwitchGameManager/Helpers/XCIHelper.cs:758-766 | the source file is deleted, and the refreshed clone, present only at the destination, becomes the cache's newest entry |
| XciHelper.Catalog.DeleteFile | SwitchGameManager/Helpers/XCIHelper.cs:758-759 | the file is gone afterwards, and nothing else on the disk changes |
| XciHelper.Catalog.RefreshMoved | SwitchGameManager/Helpers/XCIHelper.cs:761-778 | the clone gets the destination path and location and no pending operation, is force-refreshed, is marked present only at the destination, and is the cache's newest entry |
| XciHelper.Catalog.CompleteDelete | SwitchGameManager/Helpers/XCIHelper.cs:789-811 | the state after the Delete branch, including the throw on the SD side |
| XciHelper.Catalog.CompleteCompletelyDelete | SwitchGameManager/Helpers/XCIHelper.cs:813-824 | the state after the CompletelyDelete branch |
| XciHelper.Catalog.CompleteTrim | SwitchGameManager/Helpers/XCIHelper.cs:826-836 | the state after the Trim branch, including both throws |
| FileOperations.ApplyCompletedAction | SwitchGameManager/Helpers/XCIHelper.cs:698-841 | no operation changes nothing; only Copy, Delete and Trim can fail; only Move touches the disk |
| FileOperations.ApplyCopy | SwitchGameManager/Helpers/XCIHelper.cs:728-752 | the disk is untouched; the copy succeeds exactly when the source list holds a record with the id; on failure both lists are untouched and the fault is a null reference |
| FileOperations.ApplyMove | SwitchGameManager/Helpers/XCIHelper.cs:754-787 | a move never fails; without a destination file nothing changes; otherwise the source file is gone from the disk |
| FileOperations.ApplyDelete | SwitchGameManager/Helpers/XCIHelper.cs:789-811 | the disk and (in this model; the write-through is listed under Left out) the cache are untouched; it fails exactly when the file is gone, the record is on the SD card and the list opposite the operation's source (the PC list when the operation comes from the SD card) has no record with the id, and then with a null reference |
| FileOperations.ApplyCompletelyDelete | SwitchGameManager/Helpers/XCIHelper.cs:813-824 | it never fails, touches neither the cache nor the disk, and leaves the other location's list alone |
| FileOperations.ApplyTrim | SwitchGameManager/Helpers/XCIHelper.cs:826-836 | the disk and (in this model; the write-through is listed under Left out) the cache are untouched; a missing file fails with file-not-found, a missing source record with a null reference, and a failure changes nothing |
| FileOperations.CopyAddsDestination | SwitchGameManager/Helpers/XCIHelper.cs:728-752 | a copy between the locations appends the refreshed clone (present in both places, kept, no pending operation) to the destination list, marks the source record present in both places with its operation cleared, upserts the cache once and leaves the disk alone |
| FileOperations.CopyWithoutSourceFails | SwitchGameManager/Helpers/XCIHelper.cs:728-735 | a copy with no source record fails with a null reference after upserting the refreshed clone into the cache; the lists and the disk are untouched |
| FileOperations.RemoveSource | SwitchGameManager/Helpers/XCIHelper.cs:772-779 | removing the source reference from a list never touches the cache, the disk or the other list |
| FileOperations.GuardsLeaveStateAlone | SwitchGameManager/Helpers/XCIHelper.cs:709-814 | no operation, a Move whose destination file is missing, and a Delete or CompletelyDelete whose file still exists each change nothing |
| FileOperations.MoveRelocates | SwitchGameManager/Helpers/XCIHelper.cs:754-787 | a move between the locations deletes the source file, appends the refreshed record (present only at the destination, kept, no pending operation) to the destination list, removes the first record with the id from the source list, and upserts the cache once |
| FileOperations.DeleteRemovesRecord | SwitchGameManager/Helpers/XCIHelper.cs:789-824 | when the operation's source is the record's location, a delete removes the first record with the id from its location's list. Delete also clears the other list's record's flag for that location, or fails on the SD side when there is none. CompletelyDelete leaves the other list alone. In this model neither touches the cache (the write-through is listed under Left out) or the disk |
| FileOperations.TrimKeepsMembership | SwitchGameManager/Helpers/XCIHelper.cs:826-836 | trim never changes which ids the lists hold, nor the disk, nor (in this model; the write-through is listed under Left out) the cache; on success only the source record changes: its size becomes the file's length, its trimmed flag says whether that length equals the used size, and its operation is cleared; the other list is untouched |
| FileOperations.ClearAtKeepsIds | SwitchGameManager/Helpers/XCIHelper.cs:797-803 | clearing a presence flag keeps every id in place, and a second clear changes nothing |
| FileOperations.RemoveSourceTwice | SwitchGameManager/Helpers/XCIHelper.cs:772-822 | with unique ids, a second removal of the source finds nothing and changes nothing |
| FileOperations.DeleteIdempotent | SwitchGameManager/Helpers/XCIHelper.cs:789-824 | with unique ids per list, applying the same Delete or CompletelyDelete again changes nothing more |
| FileOperations.CacheStaysUnique | SwitchGameManager/Helpers/XCIHelper.cs:728-787 | no completed operation leaves two cache records with one id |
| FileOperations.UpsertKeepsAllAt | SwitchGameManager/Helpers/XCIHelper.cs:566-577 | upserting a record of a location into a list of that location keeps the list at that location |
| FileOperations.RemoveSourceKeepsLocations | SwitchGameManager/Helpers/XCIHelper.cs:772-779 | removing the source keeps every record in its own location's list |
| FileOperations.CopyKeepsLocations | SwitchGameManager/Helpers/XCIHelper.cs:728-752 | a copy keeps every record in its own location's list |
| FileOperations.MoveKeepsLocations | SwitchGameManager/Helpers/XCIHelper.cs:754-787 | a move keeps every record in its own location's list |
| FileOperations.DeleteKeepsLocations | SwitchGameManager/Helpers/XCIHelper.cs:789-811 | a delete keeps every record in its own location's list |
| FileOperations.TrimKeepsLocations | SwitchGameManager/Helpers/XCIHelper.cs:826-836 | a trim keeps every record in its own location's list |
| FileOperations.ActionsKeepLocations | SwitchGameManager/Helpers/XCIHelper.cs:698-841 | no completed operation puts a record into the wrong location's list |

## Left out

- User interface: every form, list-view, tool-strip and progress-bar call
  (including `RefreshList`, `ShowXciCert` and `ShowXciExplorer`) is a display
  side effect, so none is modelled.
- Logging (`Log`) has no effect on the catalog.
- Locks and threads are not modelled; every operation runs alone.
  - The background workers' `IsBusy` checks and asynchronous starts are also
    left out. The refresh queue is drained in one sequential loop.
  - `LoadXcisInBackground` is modelled by calling `LoadXcis` directly, which
    is what it does when its worker is idle.
- `IsFileTransferInProgress` reads another class's flag. It is a parameter of
  `RebuildCache`.
- The cartridge parser (`XCI_Explorer.MainForm`) is not part of this model.
  Each file carries the header it would report, and the game icon is not
  modelled.
- JSON: `Clone` is a value copy. A `Clone` failure (which yields null) is not
  modelled.
  - Reading the cache file is not modelled: the cache file is a list of
    records given to the constructor, so a malformed file is not modelled.
  - Writing is modelled as the cache file taking the cache's value.
- The lazy cache load inside `FindXciByIdentifer` with no list is not
  modelled: the constructor loads the cache up front.
- `SaveXciCache`'s `fileName` and `cache` parameters are not modelled. Every
  call site uses the defaults.
- `sha256` is a parameter. Its shape (64 lowercase hex digits) is not
  modelled.
- Sizes are naturals. The source's `double` and `long` sizes, and the
  conversion in the Trim branch, are not modelled.
- `ReadableFileSize` (floating-point formatting), `Compress`/`Decompress`
  (GZip) and `TrimXci` (file truncation) are not modelled.
- The `*.xci` pattern is modelled as a case-insensitive ".xci" suffix.
  Windows' matching of short 8.3 names, which also accepts longer extensions,
  is not modelled.
- The packageId overloads and `GetXciInfoNew` are commented out or unused, so
  they are not modelled.
- `RemoveXciFromList` is not called by the modelled operations, so it is not
  modelled.
- Aliasing is modelled only where the Copy and Move branches write to the
  record that `RefreshGame` also left as the cache's newest entry.
  - In the Copy branch, the source record's flag and `fileAction` writes are
    merged into one update, with the same effect.
- Which list records are the cache's own objects after a load: the PC loop
  of `LoadXcis` runs first, and each `RefreshGame` puts its PC record into
  the cache. The SD loop runs next; for a game on both sides, its
  `RefreshGame` finds that PC record in the cache, removes it and adds the SD
  record. So the cache holds the SD record of a game on both sides, and the
  PC record of a game on the PC only.
- XciHelper.Catalog.CompleteTrim: the model leaves the cache unchanged. In the
  source, the trimmed list record is the cache's own object after a load,
  except when it is the PC record of a game also on the SD card. Its new
  `gameSize`, `isXciTrimmed` and `fileAction` (lines 828-831) then also reach
  the cache, and the next save writes them.
- XciHelper.Catalog.CompleteDelete: the model leaves the cache unchanged. In
  the source, when the operation's source is the record's location, deleting
  the PC copy clears `isGameOnPc` on the SD record (line 798). That SD record is the cache's own object after a load, so the
  cached record loses the flag too. Deleting the SD copy clears `isGameOnSd`
  on the PC record (line 803), which is no longer in the cache then.
- XciHelper.Catalog.CompleteCopy: the source record marked present in both
  places (lines 734-735, 745) may be the cache's own object; the model does
  not carry those writes into the cache.
- FileOperations.TrimKeepsMembership: "the cache is unchanged" holds of the
  model only, for the reason given for CompleteTrim.
- FileOperations.DeleteRemovesRecord: "the cache is unchanged" holds of the
  model only, for the reason given for CompleteDelete.
- FileOperations.ApplyTrim: "the cache is untouched" holds of the model only,
  for the reason given for CompleteTrim.
- FileOperations.ApplyDelete: "the cache is untouched" holds of the model
  only, for the reason given for CompleteDelete.
- XciHelper.Catalog.UpdateXci: it is exactly `ApplyCompletedAction`, so it
  misses the same cache writes: see the CompleteTrim, CompleteDelete and
  CompleteCopy lines.
- The defaults of `new XciItem()`, `new XciItem(path)` and
  `new FileHelper.FileStruct()` are assumed, because those classes are
  declared outside XCIHelper.cs. The assumed defaults are: empty text, false
  flags, zero sizes, and no operation from PC to PC. The empty id of a blank
  scanned record, and the not-yet-kept, no-operation record `GetXciInfo`
  returns, rest on these defaults.
- .NET strings are UTF-16, so `titleId.Length` (line 323) counts code units.
  The model's length counts characters, so a title id with characters outside
  the Basic Multilingual Plane is padded differently.
- `Directory.GetDirectories` and `Directory.GetFiles` (lines 148-154) can
  also fail for reasons other than a missing directory, such as denied access
  or I/O errors. Only the missing directory is modelled.
- XciHelper.Catalog.LoadXcis: states each record's path, location,
  `keepInCache` flag, pending operation and cache membership. It does not
  state each record's refreshed metadata or its presence flags
  (`isGameOnPc`, `isGameOnSd`); `ProcessEntry` and `RefreshStep` state those
  step by step.
- XciHelper.Catalog.RefreshEntries: likewise states paths, location, the
  `keepInCache` flag and cache membership, not the refreshed metadata or the
  presence flags of each record.
- XciHelper.Catalog.RebuildCache: states what `LoadXcis` guarantees about
  cache membership, not the full contents of the lists.
- XciHelper.Catalog.RefreshXciInBackground: states the queue, the saved
  cache, that no id is lost, and where the requested record ends up. It does
  not state the full list contents after the other queued records are
  refreshed; `RefreshNext` states that step by step.
- XciHelper.Catalog.DrainQueue: like `RefreshXciInBackground`, states where
  the requested record ends up and that no id is lost, not the full list
  contents.
