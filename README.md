# Navidrome core logic in Dafny

This project models five small pieces of the Navidrome music server and proves
what each one promises:

- **Index groups** (`IndexGroups`, `index_groups.dfy`). The parser turns the
  index specification, such as `"A-E(ABCDE) The X-Z(XYZ)"`, into a map from
  index key to display label. The grouping regular expression `(.+)\((.+)\)`
  is modelled with Go's leftmost-first, greedy semantics, including the rule
  that `.` does not match a newline. `ParseIndexGroups` is a method with the
  source's nested loops. It is proved equal to a fold over the entries, and
  the lemmas about that fold give the parser's rules: ungrouped entries map to
  themselves, group members map to the label, and later entries win.
- **Media-file paths** (`MediaFiles`, `media_files.dfy`). The media-file table
  is a sequence of rows. SQLite's `substr`, `glob`, `rtrim` and `replace` are
  functions over strings, and a `WHERE` clause is a `Cond` value. On top of
  these come `cleanPath`, `pathStartsWith`, the direct-child filter shared by
  `FindAllByPath` and `DeleteByPath`, `deleteNotInPath`,
  `FindPathsRecursively`, the genre join of `selectMediaFile`, and the
  not-found branches of `Get` and `FindByPath`. The repository is a class whose
  deleting methods and `Put` change the table; it keeps the ids unique, so
  `Get` finds the one row with an id.
- **Mock user repository** (`MockUsers`, `mock_users.dfy`). This is a class
  holding a map from lower-cased user names to `User` objects. `Put` changes
  the caller's user in place. A test can inject an error into the repository.
- **Player repository** (`Players`, `players.dfy`). The player table is a map
  keyed by id, and the repository acts for a logged-in user. The model covers
  `isPermitted`, `addRestriction`, the restricted `Count`, `Read` and
  `ReadAll`, and `Save`, `Update` and `Delete` with their error mapping.
  `Update` overwrites the entity's id before the permission check.
- **Spread file system** (`SpreadFs`, `spread_fs.dfy`). Cache keys map to
  `<root>/<s1>/<s2>/<digest>`. `KeyMapper` is idempotent. `Create` and writes
  go to a map from paths to bytes. `Reload` calls back once for every stored
  file, with the path as both key and name.

`GoStrings` (`go_strings.dfy`) holds the functions of Go's `strings` package
the core uses: `Split` and `Join`, with their round trip proved, and
`HasPrefix`, `HasSuffix`, `TrimPrefix` and `Contains`, and the path separator.
`SqlBase` (`sql_base.dfy`) holds the id rule of the shared `put`, used by both
repositories. `Results` holds `Option` and
`Result`.

The implementation of the spread file system is not part of this model; its
model follows what its test asserts. `IsMapped` is a structural check: the
root, then the digest's first two digit pairs as shard directories, then the
40-digit digest as the leaf.

## Model

| member | source | states |
|---|---|---|
| GoStrings.Split | utils/index_group_parser.go:26 | `strings.Split` on one separator: at least one piece, no piece holds the separator, and joining the pieces gives the input back |
| GoStrings.SplitJoin | utils/index_group_parser.go:26 | splitting joined pieces that hold no separator gives the same pieces |
| GoStrings.Contains | persistence/mediafile_repository.go:80-83 | `strings.Contains`: the text occurs at some position of the string |
| GoStrings.HasSuffix | persistence/mediafile_repository.go:130 | `strings.HasSuffix`: the string ends with the text |
| IndexGroups.FindGroup | utils/index_group_parser.go:22-29 | the entry yields a group exactly when the regex has some match; both label and members are then non-empty |
| IndexGroups.FindGroupIsFirstMatch | utils/index_group_parser.go:22-28 | the reported label and members are those of Go's leftmost, greedy first match |
| IndexGroups.EmptyLabelOrMembersIsNoGroup | utils/index_group_parser.go:22 | `"X()"` and `"(AB)"` do not match, because label and members must both be non-empty |
| IndexGroups.NoMatchIn | utils/index_group_parser.go:22 | an entry with no `(` after its first rune that is followed by `)` further on is no group |
| IndexGroups.GreedyLabel | utils/index_group_parser.go:22 | the label is greedy: `"A(B)C(D)"` has label `"A(B)C"` and members `"D"` |
| IndexGroups.ParseIndexGroups | utils/index_group_parser.go:24-38 | the nested loops build the same map as the fold `Parsed` over the space-separated entries |
| IndexGroups.AssignEachAt | utils/index_group_parser.go:30-32 | the inner loop maps each member rune to the label and leaves every other key as it was |
| IndexGroups.AppliedKeys | utils/index_group_parser.go:27-36 | a key is in the result exactly when it was there before or some entry writes it |
| IndexGroups.LastWriterWins | utils/index_group_parser.go:27-36 | entries apply left to right: the last entry that writes a key decides its value |
| IndexGroups.ParsedKeyOrigin | utils/index_group_parser.go:24-37 | every key of the result is written by some entry, and its value is that entry's value: the entry itself or its group label |
| IndexGroups.ParsedKeysAreEntriesOrRunes | utils/index_group_parser.go:26-35 | every key is a whole entry that is no group, or a single rune of the members of some group |
| IndexGroups.UngroupedEntryMapsToItself | utils/index_group_parser.go:33-35 | an entry that is no group, and is not overwritten later, maps to itself, whatever its length |
| IndexGroups.GroupMembersMapToLabel | utils/index_group_parser.go:28-32 | each rune of a group's members, unless overwritten later, maps to the group's label |
| IndexGroups.DoubledSpaceGivesEmptyEntry | utils/index_group_parser.go:26-34 | two spaces in a row give an empty entry, so `""` maps to `""` |
| MediaFiles.Substr | persistence/mediafile_repository.go:137 | SQLite `substr(x, start, n)`: 1-based, at most `n` runes, and empty past the end |
| MediaFiles.SubstrFrom | persistence/mediafile_repository.go:146 | SQLite `substr(x, start)`: the runes from 1-based position `start` on |
| MediaFiles.RemoveSep | persistence/mediafile_repository.go:160 | `replace(path, sep, '')` keeps exactly the characters other than the separator |
| MediaFiles.RTrim | persistence/mediafile_repository.go:160 | `rtrim(x, chars)` is the longest prefix of `x` that does not end in one of `chars`, and everything it drops is in `chars` |
| MediaFiles.DirPartIsUpToLastSep | persistence/mediafile_repository.go:160 | `rtrim(path, replace(path, sep, ''))` cuts the path back to and including its last separator, or to `""` when there is none |
| MediaFiles.CleanPath | persistence/mediafile_repository.go:128-134 | the cleaned path always ends in the separator, and one is added only when the cleaned path lacks it |
| MediaFiles.PathStartsWithIsPrefix | persistence/mediafile_repository.go:136-139 | `substr(path, 1, N) = p`, with N the rune count of `p`, holds exactly when `p` is a prefix of the path |
| MediaFiles.Where | persistence/mediafile_repository.go:146-149 | a query keeps exactly the rows its condition holds for, each with its multiplicity |
| MediaFiles.DeleteWhere | persistence/mediafile_repository.go:167-192 | a `DELETE` keeps exactly the rows its condition does not hold for, each with its multiplicity |
| MediaFiles.DeletePartitions | persistence/mediafile_repository.go:187-189 | the rows a delete removes and the rows it keeps together make up the table |
| MediaFiles.FindAllByPath | persistence/mediafile_repository.go:141-154 | a row is returned exactly when it is under the cleaned path and its remainder from position `pathLen+2` holds no separator |
| MediaFiles.DirectChildrenHolds | persistence/mediafile_repository.go:145-149 | the direct-child condition holds exactly for paths under the directory with no separator from position `pathLen+2` on |
| MediaFiles.DirectChildSkipsFirstRune | persistence/mediafile_repository.go:145-149 | the first rune after the cleaned prefix is never examined: a separator there does not stop a row counting as a direct child |
| MediaFiles.DirectChildIsNoSepInName | persistence/mediafile_repository.go:145-149 | for a name that does not start with the separator, a row is a direct child exactly when its name holds no separator |
| MediaFiles.Get | persistence/mediafile_repository.go:91-102 | `model.ErrNotFound` exactly when no row has the id; otherwise a row with that id |
| MediaFiles.FindByPath | persistence/mediafile_repository.go:116-126 | `model.ErrNotFound` exactly when no row has the path; otherwise the first such row |
| MediaFiles.Distinct | persistence/mediafile_repository.go:160 | `SELECT DISTINCT`: the same values, each once |
| MediaFiles.FindPathsRecursively | persistence/mediafile_repository.go:156-165 | distinct results, and a folder is reported exactly when some row under the cleaned base path has it as its path cut back to the last separator |
| MediaFiles.FoldersOfRowsUnder | persistence/mediafile_repository.go:160-161 | the folder parts of the rows under a directory are exactly the folders of those rows |
| MediaFiles.FoldersAreUnderBase | persistence/mediafile_repository.go:156-165 | every reported folder lies under the cleaned base path and ends in the separator |
| MediaFiles.FolderOfPathUnder | persistence/mediafile_repository.go:160-161 | the folder of a path under a directory is itself under that directory |
| MediaFiles.SelectMediaFile | persistence/mediafile_repository.go:74-89 | genres are joined exactly when the filter mentions "genre", and rows are grouped by id exactly when it also does not mention "genre_id" |
| MediaFiles.GenreIdFilterJoinsWithoutGrouping | persistence/mediafile_repository.go:80-85 | a filter on `genre_id` joins genres and does not group |
| MediaFiles.WhereKeepsUniqueIds | persistence/mediafile_repository.go:187-189 | a delete keeps the ids of the table unique |
| MediaFiles.ReplaceById | persistence/mediafile_repository.go:67 | a write over an existing id replaces that row in place and leaves the others |
| SqlBase.PutKey | persistence/mediafile_repository.go:67 | `put` writes under the given id, or under a freshly generated id when that is empty |
| MediaFiles.Upsert | persistence/mediafile_repository.go:67 | after a write under a key the row, carrying that key as id, is in the table, every other id keeps its row, and no other row carries the key |
| MediaFiles.PutThenGet | persistence/mediafile_repository.go:67-102 | reading a written id back gives the row just written |
| MediaFiles.GetOfUniqueIds | persistence/mediafile_repository.go:91-102 | with unique ids, Get returns the one row that has the id |
| MediaFiles.UpsertKeepsUniqueIds | persistence/mediafile_repository.go:67 | a write keeps the ids of the table unique |
| MediaFiles.MediaFileRepository.Put | persistence/mediafile_repository.go:64-72 | the full text is set on the caller's media file first, whatever the outcome; then the store's failure with nothing written, or the file written under its id, or under the generated id when its id is empty |
| MediaFiles.MediaFileRepository.Delete | persistence/mediafile_repository.go:179-181 | the store's failure with nothing removed, or the rows with that id removed and the rest kept |
| MediaFiles.MediaFileRepository.DeleteByPath | persistence/mediafile_repository.go:183-192 | the store's failure with a count of 0 and nothing removed, or the direct children of the cleaned path removed and their number returned |
| MediaFiles.DeleteByPathRemovesFoundRows | persistence/mediafile_repository.go:183-192 | DeleteByPath removes exactly the rows FindAllByPath returns for the same path and keeps all others |
| MediaFiles.MediaFileRepository.DeleteNotInPath | persistence/mediafile_repository.go:167-177 | the store's failure with nothing removed, or every row not under the cleaned base path removed |
| MediaFiles.DeleteNotInPathKeepsRowsUnderPath | persistence/mediafile_repository.go:167-177 | a row is kept exactly when it is in the table and under the cleaned base path |
| MockUsers.ToLower | tests/mock_user_repo.go:37 | lower-casing keeps the length and lower-cases rune by rune |
| MockUsers.ToLowerIdempotent | tests/mock_user_repo.go:37-45 | a lower-cased name is its own key |
| MockUsers.CaseVariantsShareKey | tests/mock_user_repo.go:37-45 | names that differ only in letter case have the same key |
| MockUsers.MockedUserRepo.constructor | tests/mock_user_repo.go:10-14 | a new repository has no users and no injected error |
| MockUsers.MockedUserRepo.CountAll | tests/mock_user_repo.go:22-27 | the injected error if there is one, otherwise the number of stored keys |
| MockUsers.MockedUserRepo.KeysAreNames | tests/mock_user_repo.go:26-37 | the stored keys are exactly the lower-cased names of the stored users, so CountAll counts distinct lower-cased names |
| MockUsers.MockedUserRepo.Put | tests/mock_user_repo.go:29-39 | with an error injected, that error and nothing changes; otherwise an empty id becomes the encoded name, the password becomes the new password, and the user is stored under its lower-cased name, replacing a case variant |
| MockUsers.MockedUserRepo.FindByUsername | tests/mock_user_repo.go:41-50 | the injected error, not-found for an absent lower-cased name, or the user stored under it, whose name matches whatever the case |
| MockUsers.MockedUserRepo.FindByUsernameWithPassword | tests/mock_user_repo.go:52-54 | the same result as FindByUsername |
| MockUsers.MockedUserRepo.UpdateLastLoginAt | tests/mock_user_repo.go:56-58 | returns the injected error and changes nothing |
| MockUsers.FirstPut | tests/mock_user_repo.go:33-37 | a first Put fills in the id from the name and the password, and stores the user under its lower-cased name |
| MockUsers.CaseVariantPut | tests/mock_user_repo.go:37 | a Put of a case variant replaces the stored user and does not add one |
| MockUsers.CaseInsensitiveLookup | tests/mock_user_repo.go:22-50 | with one user stored, CountAll gives 1 and a lookup by the upper-cased name finds that user |
| Players.AddRestriction | persistence/player_repository.go:57-67 | the restriction holds exactly when the first condition given holds, if any, and the user is an admin or owns the player |
| Players.IsPermitted | persistence/player_repository.go:95-98 | `isPermitted`: the user is an admin or owns the player |
| Players.RestrictionIsPermission | persistence/player_repository.go:95-98 | the restriction with no condition of its own is exactly `isPermitted` |
| Players.ToRestError | persistence/player_repository.go:106-108 | `model.ErrNotFound` becomes `rest.ErrNotFound`, and every other error passes unchanged |
| Players.Selected | persistence/player_repository.go:35 | a query selects exactly the rows its condition holds for |
| Players.Stored | persistence/player_repository.go:30 | a write stores the row under its key, carrying that key as id, and keeps the other rows |
| Players.Deleted | persistence/player_repository.go:127 | a delete keeps exactly the rows the filter does not select |
| Players.DeleteRemovesOnlyOwnRow | persistence/player_repository.go:125-132 | Delete removes the row with that id for an admin, and for any other user only a row they own; nothing else is removed |
| Players.RestSelect | persistence/player_repository.go:52-55 | the REST select holds exactly when the query holds and the user may see the player |
| Players.NonAdminSeesOwnPlayers | persistence/player_repository.go:52-67 | a user who is not an admin sees only players they own |
| Players.VisibleIsSelectedAndPermitted | persistence/player_repository.go:52-67 | the REST layer shows the players the filter selects that the user may see, and all of them to an admin |
| Players.PlayerRepository.constructor | persistence/player_repository.go:18-27 | a new repository acts for the given user over an empty table |
| Players.PlayerRepository.Put | persistence/player_repository.go:29-32 | writes the player with no permission check, or returns the store's error and writes nothing |
| Players.PlayerRepository.Get | persistence/player_repository.go:34-39 | the row with that id, with no permission check, or `model.ErrNotFound` |
| Players.PlayerRepository.FindMatch | persistence/player_repository.go:41-50 | a stored player whose client, user agent and user name all agree, and not-found exactly when there is none |
| Players.PlayerRepository.Count | persistence/player_repository.go:69-71 | the number of players the filter selects that the user may see |
| Players.PlayerRepository.Read | persistence/player_repository.go:73-78 | the player with that id when the user may see it, otherwise `model.ErrNotFound` |
| Players.PlayerRepository.ReadAll | persistence/player_repository.go:80-85 | the players the filter selects that the user may see, all of them permitted |
| Players.PlayerRepository.Save | persistence/player_repository.go:100-110 | permission denied and nothing written unless the user may write the player; otherwise the write, or the store's failure with nothing written, not-found being reported as `rest.ErrNotFound` with an empty id |
| Players.PlayerRepository.Update | persistence/player_repository.go:112-123 | the entity's id is set to `id` whatever the outcome; then permission denied, the mapped store error, or the write under `id` |
| Players.PlayerRepository.Delete | persistence/player_repository.go:125-132 | removes the rows the restricted id filter selects, or returns the mapped store error and removes nothing |
| Players.ForeignDeleteKeepsRow | persistence/player_repository.go:125-127 | a user who is not an admin cannot delete another user's player |
| Players.UpdateRewritesForeignRow | persistence/player_repository.go:112-118 | Update checks the owner named in the entity, not the owner of the stored row, so a user who is not an admin can take over another user's player |
| SpreadFs.Layout | utils/cache/spread_fs_test.go:28-33 | a stored path is 47 characters longer than the root and starts with the root and a separator |
| SpreadFs.IsMapped | utils/cache/spread_fs_test.go:35-39 | a path counts as already mapped when it is the root, the two shard directories of a 40-digit digest and that digest |
| SpreadFs.LayoutIsMapped | utils/cache/spread_fs_test.go:35-38 | every stored path is recognised as mapped |
| SpreadFs.LayoutInjective | utils/cache/spread_fs_test.go:28 | distinct digests give distinct paths |
| SpreadFs.LayoutSegments | utils/cache/spread_fs_test.go:30-33 | with the root removed, a stored path splits into `""`, the two shards and the 40-digit digest |
| SpreadFs.SpreadFS.constructor | utils/cache/spread_fs_test.go:16-20 | a new file system has the given root and no files |
| SpreadFs.SpreadFS.KeyMapper | utils/cache/spread_fs_test.go:26-39 | a mapped path is returned unchanged; any other key goes to the path of its digest; the result is always a mapped path under the root |
| SpreadFs.SpreadFS.KeyMapperIdempotent | utils/cache/spread_fs_test.go:35-39 | mapping the mapper's output again returns it unchanged |
| SpreadFs.SpreadFS.KeyMapperShape | utils/cache/spread_fs_test.go:28-33 | the result starts with the root, and the rest splits into 4 pieces: `""`, two shards that are the digest's first two pairs of digits, and a 40-digit leaf |
| SpreadFs.SpreadFS.DistinctDigestsDistinctPaths | utils/cache/spread_fs_test.go:28 | keys whose digests differ go to different files |
| SpreadFs.SpreadFS.Open | utils/cache/spread_fs_test.go:60-61 | reading a stored file gives its contents, and reading any other path gives not-found |
| SpreadFs.SpreadFS.Create | utils/cache/spread_fs_test.go:49 | the file exists afterwards and is empty, whether or not its directories existed, and no other file changes |
| SpreadFs.SpreadFS.Write | utils/cache/spread_fs_test.go:51 | the data is appended to the file and no other file changes |
| SpreadFs.SpreadFS.Stored | utils/cache/spread_fs_test.go:56-58 | the files a walk of the root reaches are exactly the stored files under it |
| SpreadFs.SpreadFS.Reload | utils/cache/spread_fs_test.go:58-59 | one callback per stored file, with the key equal to the name, and no file visited twice |
| SpreadFs.SpreadFS.LoadAll | utils/cache/spread_fs_test.go:56-66 | the callback reads back one content per stored file, and every stored file's content is among them |
| SpreadFs.SpreadFS.StoredAfterWrites | utils/cache/spread_fs_test.go:65-66 | after writing distinct paths under the root into an empty tree, a walk finds exactly one file per path, holding its contents |
| SpreadFs.SpreadFS.MappedPaths | utils/cache/spread_fs_test.go:46-48 | keys with distinct mapped paths give distinct paths, all under the root |
| SpreadFs.WrittenKeys | utils/cache/spread_fs_test.go:46-53 | the setup writes exactly the given paths |
| SpreadFs.WrittenDistinct | utils/cache/spread_fs_test.go:46-53 | with distinct paths, every path holds its own contents and there is one file per path |
| SpreadFs.WriteThenOpen | utils/cache/spread_fs_test.go:48-51 | what is written to a key's file is what opening it returns, and the other files are unchanged |
| SpreadFs.CreateAll | utils/cache/spread_fs_test.go:46-54 | the setup loop leaves the tree with each key's contents at its mapped path |
| SpreadFs.ReloadAfterWrites | utils/cache/spread_fs_test.go:56-67 | after writing N keys with distinct mapped paths into an empty tree, Reload reads back N contents and every key's contents are among them |

## Left out

- `filepath.Clean`: its lexical algorithm is a parameter, `clean`. Only the trailing-separator step of `cleanPath` is modelled.
- Path separators: only the Unix separator `/` is modelled. Windows paths are not part of this model.
- `MediaFiles.FindByPath`: SQL `LIKE` is modelled as equality. Its `%` and `_` wildcards and its ASCII case folding belong to SQLite.
- `MediaFiles.Get`: `loadAllGenres` and the database errors of `queryAll` are not modelled. Only the not-found branch and the row found are.
- `MediaFiles.FindAllByPath`: the database errors of `queryAll` are not modelled. The result is the rows the query selects.
- `MediaFiles.FindPathsRecursively`: the database errors of `queryAllSlice` are not modelled. The result is the folders the query selects.
- `MediaFiles.MediaFileRepository.Put`: `updateGenres` and its errors are not modelled. `getFullText` is a parameter, `fullText`.
- The shared SQL base is not part of this model. This covers `sqlRepository.put`, `delete`, `queryAll`, `queryOne`, `count` and `executeSQL`, and `sqlRestful`. Writes are upserts by id, and deletes remove the rows a filter selects. In both repositories, a failure of the store on a write or a delete is a parameter, `fault`.
- The generated id of `put` for an empty id is a parameter, `generated`, in both repositories. UUID generation is randomness.
- Sort mappings, the seeded random sort, pagination, `CountAll`, `Exists`, `GetAll`, `Search` and `removeNonAlbumArtistIds` of the media-file repository are not modelled. They are query plumbing and configuration.
- `MediaFiles.SelectMediaFile`: only the decision to join genres and to group is modelled. It works on the filter's SQL text, which is a parameter.
- `MockUsers.ToLower`: lower-cases only ASCII letters. Go's `strings.ToLower` also maps other Unicode letters.
- `MockUsers.MockedUserRepo.Put`: base64 of the user name is a parameter, `encodeId`.
- `Players.PlayerRepository.Save`: the id `put` returns beside a store failure other than not-found is not part of this model, so the contract leaves the returned id open in that case. It is `""` only for not-found.
- `MediaFiles.MediaFileRepository.DeleteByPath`: the count `executeSQL` returns beside a store failure is not part of this model. It is taken as 0.
- `Players.PlayerRepository.Update`: the optional list of columns to update is ignored, so the whole row is written.
- `Players.PlayerRepository.ReadAll`: returns a set. The order of the rows and the REST options for sorting and paging are not modelled.
- `Players.Cond`: the `name` filter (`containsFilter`) is modelled as a case-sensitive substring test. SQLite's `LIKE` is case-insensitive for ASCII.
- `Players.PlayerRepository.FindMatch`: when several rows match, one of them is returned, with no order between them. The database picks one the model cannot predict.
- `Player` keeps only the columns the repository filters on: id, name, user name, client and user agent.
- `SpreadFs.SpreadFS.KeyMapper`: SHA-1 and its hexadecimal printing are a parameter, `digest`. Collision resistance cannot be proved, so distinctness of the mapped paths is a precondition where it is needed.
- The spread file system's directories, permission bits (0755), file handles, `Close`, I/O errors and the error tolerance of the tree walk are not modelled. The tree is a map from paths to contents.
- Logging, the scheduler, the playlist-track repository, the UI components and the database test fixtures are not part of this model.
- Strings are sequences of Unicode scalar values. Invalid UTF-8, and Go's byte-based string indexing, are not modelled.
