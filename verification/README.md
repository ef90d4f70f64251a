# file-kraken core, modelled in Dafny

file-kraken keeps an inventory of files under a set of managed
*locations*. Each location is a directory with three attributes:

- a retention type: normal, preferred or excluded;
- a scan state;
- its parent, which is the longest other location that contains it.

The inventory is stored in a SQLite `files` table and also held in memory:

- a list of locations, in insertion order;
- one bucket of files per location.

Duplicate detection works like this:

1. Group the files by length.
2. Hash every file whose length is shared by at least one other file.
3. Cache each hash in the table. The text `"NULL"` stands for "not hashed yet".

This project models the following:

- path ownership (`is_path_parent`, `get_longest_parent_path`);
- the in-memory effects of the store's operations;
- the files table as the store's SQL statements use it;
- the hash cache;
- the replay performed when the store is opened;
- the duplicate-size scan.

It then proves properties of them.

Modules, one per file:

- `Wrappers`: `Option`.
- `Paths`: paths as component lists, following `std::path::Path`.
  - `Split`, `KeepParts` and `Parse` are the component split.
  - `Parent` is `Path::parent`.
  - `IsPathParent` is `is_path_parent`.
  - `IsStrictAncestor` is an independent reference definition of the same relation.
- `Locations`: the location type and state, `Display`, the default type, and the decoders used at load time.
- `ParentPath`: `get_longest_parent_path`.
  - The fold is written over an arbitrary ownership test.
  - `LongestSpec` is an independent "first of the longest owners" reference.
- `Records`: files, duplicate groups, and the duplicate finder's status.
- `FilesTable`: the `files` table as a sequence of rows.
  - `path` is the primary key.
  - It covers the insert, delete and update statements, the hash sentinel, and row decoding.
- `Store`: the `AppState` operations.
  - They are pure functions from state to state.
  - `Valid` is the invariant they keep.
- `FindDuplicates`: `find_duplicate_file_sizes`, `get_files_by_size`, `set_processing_message` and `find_file_duplicates`.
- `Connect`: the in-memory part of `connect_sqlite`, which replays the location rows, then the file rows, then clears the buckets of `Unscanned` locations.
  - The file replay takes a `HashReader`, which says how the `hash_256` column is read back.
  - `AsWritten` is what the program does: the column is read as `Option<String>`, so the sentinel comes back as `Some("NULL")`.
  - `Corrected` reads the sentinel back as no hash. It is the corrected half of the finding below.

Parameters:

- The file hasher (SHA-256 of the file's bytes) is a parameter `hashFile: string -> Digest`.
  - `Digest` is 64 upper-case hexadecimal characters, as `format!("{:X}")` prints a SHA-256 digest.
- The rows that `connect_sqlite` reads are parameters, given in the order the queries return them.

Where the code and its documentation disagree, the model follows the code:

- `parentLocationPath` is computed once, when the location is added.
  - It is never recomputed when a shorter location arrives later.
- Adding a location empties the whole bucket of its parent.
  - This includes files that do not lie under the new location.
- `add_file_to_location` persists the file type as `"normal"` whatever the file's type is.
- `find_file_duplicates` writes each hash onto the records `get_files_by_size` builds, which are then dropped.
  - Only the table's hash column changes.
  - The buckets and the duplicate list are left as they were.
- The location state has three variants, `Unscanned`, `PartialScanned` and `Scanned`. These are the ones `src/state/app_state.rs` uses.
  - `src/state/location.rs`, in the revision this model follows, defines neither this enum nor `parent_location_path`, although `app_state.rs` uses both.
  - The model follows `app_state.rs`.
- The duplicate finder's default status `None` is called `Idle` here.

## Model

| member | source | states |
|---|---|---|
| Paths.Parse | src/utils/parent_path.rs:5-6 | `Path::new`: every component is non-empty and holds no `/` |
| Paths.ParseRender | src/utils/parent_path.rs:5-6 | a path of plain components, absolute or relative and possibly with no components, written out with single separators parses back to the same root and components |
| Paths.ParseTrailingSlash | src/utils/parent_path.rs:5-6 | a trailing `/` does not change a non-empty path: `a/b/` is `a/b` and `/` stays the root |
| Paths.ParseDot | src/utils/parent_path.rs:5-6 | a `.` component survives only as the first component of a relative path |
| Paths.WalkUp | src/utils/parent_path.rs:7-13 | the loop over `parent()` succeeds only on a path with the same root and strictly fewer components |
| Paths.IsPathParent | src/utils/parent_path.rs:4-15 | `is_path_parent(child, parent)` holds only when `parent` has the same root as `child` and strictly fewer components; the exact characterisation, a proper component prefix, is `Paths.IsPathParentIff` |
| Paths.Parent | src/utils/parent_path.rs:7-12 | `Path::parent`: none exactly when the path has no components; otherwise the same path minus its last component |
| Paths.WalkUpIff | src/utils/parent_path.rs:7-14 | walking up the parents of a path reaches `target` if and only if `target` is a proper component prefix of the path, with the same root |
| Paths.IsPathParentIff | src/utils/parent_path.rs:4-15 | `is_path_parent(child, parent)` holds exactly when `parent`'s components are a proper prefix of `child`'s components, with the same root |
| Paths.NeverOwnParent | src/utils/parent_path.rs:4-15 | no path is its own parent |
| Paths.IsPathParentTransitive | src/utils/parent_path.rs:4-15 | an ancestor of an ancestor is an ancestor |
| Paths.ParseAbsolute3 | src/utils/parent_path.rs:5-6 | an absolute path of three plain names parses to exactly those three components |
| Paths.ComponentParent | src/utils/parent_path.rs:4-15 | `/a/b` is a parent of `/a/b/c` |
| Paths.ComponentNotTextPrefix | src/utils/parent_path.rs:4-15 | the test compares whole components, not text: `/a/b` is not a parent of `/a/c/d` when `b != c`, even if `b` is a text prefix of `c` |
| Paths.CanonicalStrictAncestorShorter | src/utils/parent_path.rs:24 | of two canonical paths, a proper component-prefix is strictly shorter as text |
| Paths.AncestorsNested | src/utils/parent_path.rs:24 | two canonical ancestors of the same child: the one with fewer components is the shorter text, so the text-length comparison picks the nearest ancestor |
| Paths.CanonicalAncestorsByLength | src/utils/parent_path.rs:24 | two canonical ancestors of the same child with equal text length are the same path, so the strict `>` never has to break a tie among them |
| ParentPath.LongestSoFar | src/utils/parent_path.rs:21-28 | the fold's result is the first location, in list order, among the longest owners of the child, or `""` when there is none |
| ParentPath.LongestStep | src/utils/parent_path.rs:24-27 | one iteration keeps the first-longest property: a new owner replaces the held path only when it is strictly longer |
| ParentPath.LongestSpecUnique | src/utils/parent_path.rs:21-28 | the first-longest owner is unique |
| ParentPath.LongestParentPath | src/utils/parent_path.rs:17-34 | none exactly when no location with a non-empty path owns the child; otherwise a non-empty listed location that is a parent of the child, no shorter than any other owner, and never the child itself |
| ParentPath.LongestParentPathFirstWins | src/utils/parent_path.rs:24 | the answer is the earliest listed among the longest owners |
| ParentPath.LongestParentPathInsert | src/utils/parent_path.rs:23-28 | inserting a location anywhere leaves the answer unchanged when that location is not an owner, or is shorter than the current answer |
| ParentPath.LongestParentPathSamePaths | src/utils/parent_path.rs:17-34 | only the locations' paths matter: types, states and parents do not affect the answer |
| ParentPath.LongestParentPathOrderFree | src/utils/parent_path.rs:23-28 | when all location paths are canonical, the order of the locations does not change the answer |
| ParentPath.PathSetAppend | src/state/app_state.rs:419-427 | appending a location adds exactly its path to the set of location paths |
| Locations.DefaultType | src/state/location.rs:11-17 | the default location type is the one every unrecognised stored text decodes to |
| Locations.TypeToString | src/state/location.rs:18-26 | each type's `Display` text is non-empty and decodes back to the same type; `Normal` is displayed as `"normal"` |
| Locations.TypeToStringInjective | src/state/location.rs:18-26 | distinct types are displayed as distinct texts |
| Locations.DecodeType | src/state/app_state.rs:68-73 | `"preferred"` and `"excluded"` decode to those types; every other text decodes to `Normal` |
| Locations.DecodeState | src/state/app_state.rs:74-79 | `"partial_scanned"` and `"scanned"` decode to those states; every other text decodes to `Unscanned` |
| FilesTable.DigestIsNotNull | src/utils/hashing.rs:4-12 | no digest the hasher can print equals the `"NULL"` sentinel |
| FilesTable.RowIndex | src/state/app_state.rs:132 | `WHERE path = ?`: none exactly when no row has the path; otherwise the first row with it |
| FilesTable.StoredHash | src/state/app_state.rs:234-237 | an absent hash is stored as `"NULL"`; a present hash is stored as itself |
| FilesTable.LoadedHashAsWritten | src/state/app_state.rs:106 | as written, the stored text is always read back as a present hash |
| FilesTable.LoadedHashAsWrittenLosesAbsence | src/state/app_state.rs:106 | as written, a file stored without a hash reloads with the hash `Some("NULL")` |
| FilesTable.LoadedHash | src/state/app_state.rs:106 | corrected reader: absent exactly when the stored text is the sentinel |
| FilesTable.HashRoundTrip | src/state/app_state.rs:234-237 | storing and reloading gives back every hash a file can carry |
| FilesTable.InsertIgnore | src/state/app_state.rs:218-226 | `ON CONFLICT(path) DO NOTHING`: the table is unchanged when the path exists, otherwise the row is appended; the primary key is kept |
| FilesTable.DeleteWhereLocation | src/state/app_state.rs:360-363 | exactly the rows of other locations remain; the primary key is kept |
| FilesTable.SetHash | src/state/app_state.rs:149-151 | only the hash column of the rows with that path changes |
| FilesTable.ReadHash | src/state/app_state.rs:106 | read as written, any stored text comes back as a present hash equal to it, the sentinel included; read with the corrected reader, the hash is absent exactly for the sentinel and otherwise equals the stored text |
| FilesTable.RowToFile | src/processing/find_duplicates.rs:74-81 | each field of the file is copied from its column. Read as written, the hash is the stored text, `"NULL"` included. Read with the corrected reader, the hash is absent exactly for the sentinel and is otherwise the stored text |
| Store.FindLocation | src/state/app_state.rs:264-271 | `.iter().find` by path: none exactly when no location has the path; otherwise the first index with it |
| Store.FindLocationUnique | src/state/app_state.rs:264-271 | with unique paths, the location found is the only one with that path |
| Store.GetLocationClone | src/state/app_state.rs:264-271 | none exactly when the path is not a location; otherwise a listed location with that path |
| Store.ModifyLocationState | src/state/app_state.rs:311-351 | only the state of the named location changes; the state is unchanged when it is already the requested one |
| Store.ModifyLocationStateValid | src/state/app_state.rs:311-351 | changing a state keeps the store invariant |
| Store.ModifyLocationType | src/state/app_state.rs:277-309 | only the type of the named location changes; the state is unchanged when the type is already the requested one |
| Store.ModifyLocationTypeValid | src/state/app_state.rs:277-309 | changing a type keeps the store invariant |
| Store.ClearLocationFiles | src/state/app_state.rs:353-374 | that bucket becomes empty and the others are untouched; when persisting, exactly that location's rows leave the table |
| Store.AddLocation | src/state/app_state.rs:376-428 | appends the location with an empty bucket, and its parent is the longest earlier proper ancestor, never itself. It empties the parent's bucket and deletes the parent's rows only when persisting. Every other bucket is untouched and the invariant is kept |
| Store.AddLocationValid | src/state/app_state.rs:376-428 | appending a location with a fresh path and a consistent parent keeps the store invariant |
| Store.AppendKeepsParentsEarlier | src/state/app_state.rs:412-427 | a parent chosen among the existing locations is earlier in the list than the location it belongs to |
| Store.AddFileToLocation | src/state/app_state.rs:191-262 | the file is put into that bucket, replacing any file with the same path, and every other bucket is untouched. An `Unscanned` location becomes `PartialScanned` and nothing else changes in the list. When persisting, a row of type `Normal` with the stored hash is appended only if the path is new |
| Store.AddFile | src/state/app_state.rs:165-189 | the owner is the longest location that is a parent of the file path. Its bucket gains the file, replacing any file with that path, and no other bucket changes. An `Unscanned` owner becomes `PartialScanned` and no other location changes. When persisting, a row under the owner, of type `Normal`, with the stored hash, is appended only if the path is new |
| Store.CalculateFileHash | src/state/app_state.rs:123-159 | a cached hash is returned and nothing is written. For the sentinel, the file is hashed and the hash is stored in that row alone. The result is never the sentinel |
| Store.CalculateFileHashIdempotent | src/state/app_state.rs:123-159 | asking a second time returns the same hash and writes nothing |
| Store.UnhashedFileIsHashedOnDemand | src/state/app_state.rs:139-155 | a file persisted without a hash is stored with the sentinel, so the first hash request computes and returns its digest |
| FindDuplicates.CountLenIgnoresHash | src/processing/find_duplicates.rs:103 | the number of files of each length does not depend on the hash column |
| FindDuplicates.FindDuplicateFileSizes | src/processing/find_duplicates.rs:96-113 | `GROUP BY file_len HAVING c > 1`: a length is listed exactly when at least two rows have it, and no length twice |
| FindDuplicates.GetFilesBySize | src/processing/find_duplicates.rs:49-85 | one file per row of that length: the count matches, every file comes from a row of that length, and every such row is present. Each hash is read as written, so an unhashed row gives `Some("NULL")` |
| FindDuplicates.NatToString | src/processing/find_duplicates.rs:28-31 | `{}` of a length: a non-empty decimal numeral, starting with `0` only for zero |
| FindDuplicates.NatToStringValue | src/processing/find_duplicates.rs:28-31 | reading the numeral back gives the length printed |
| FindDuplicates.SizeMessage | src/processing/find_duplicates.rs:28-31 | the message is the fixed prefix followed by a numeral that reads back as the length, and it differs from the scanning message |
| FindDuplicates.SetProcessingMessage | src/processing/find_duplicates.rs:87-94 | the status becomes `Processing(message)` and nothing else changes |
| FindDuplicates.HashFiles | src/processing/find_duplicates.rs:35-38 | after hashing a list of files, each listed file's row holds a non-sentinel hash, and one that held the sentinel now holds the digest of its own path; every other row, and every row already hashed, is unchanged |
| FindDuplicates.HashSize | src/processing/find_duplicates.rs:26-38 | one round for one length: the paths asked for are exactly those of the files of that length, in order; every such row is hashed, an unhashed one with its own digest |
| FindDuplicates.HashAllSizes | src/processing/find_duplicates.rs:25-39 | the loop over the shared lengths: one size message per length, in order; every row of a shared length is hashed, an unhashed one with its own digest; the paths asked for are exactly the shared-length paths |
| FindDuplicates.FindFileDuplicates | src/processing/find_duplicates.rs:21-47 | every row whose length is shared ends hashed, and one that held the sentinel ends with the digest of its own path. Rows of unique length and rows already hashed are unchanged. The paths passed to `calculate_file_hash` are exactly the paths of the shared-length rows. Locations, buckets and the duplicate list are untouched. The status runs through the scanning message, then one size message per duplicate length, then `Processed` |
| Connect.AddRow | src/state/app_state.rs:66-80 | one location row is appended with its path, decoded type and decoded state; nothing is persisted; the invariant is kept |
| Connect.LoadLocations | src/state/app_state.rs:60-82 | replaying distinct new location rows keeps the store invariant |
| Connect.LoadLocationsAppends | src/state/app_state.rs:60-82 | the replay appends one location per row, in row order, with the row's path, decoded type and decoded state |
| Connect.LoadLocationsKeepsEmpty | src/state/app_state.rs:80 | the location replay writes no row and fills no bucket |
| Connect.AddFileKeepsFilledScanned | src/state/app_state.rs:243-253 | adding a file keeps every location with a non-empty bucket out of `Unscanned` |
| Connect.AddRowFile | src/state/app_state.rs:89-107 | one file row's file, with its hash read back by the reader, is put into its owner's bucket, replacing any file with that path, and every other bucket is unchanged. The owner moves from `Unscanned` to `PartialScanned` and keeps any other state; every other location is unchanged; the table is untouched |
| Connect.LoadFiles | src/state/app_state.rs:84-109 | replaying owned file rows keeps the invariant, the table and the set of buckets. It changes only location states, and only from `Unscanned` to `PartialScanned` |
| Connect.LoadFilesFillsPromoted | src/state/app_state.rs:84-109 | a location changes state during the replay only if the replay leaves a file in its bucket |
| Connect.LoadFilesKeeps | src/state/app_state.rs:84-109 | the file replay only adds to buckets, and changes no file whose path is not among the rows |
| Connect.LoadFilesOnlyAdds | src/state/app_state.rs:84-109 | every file the replay leaves in a bucket was there before, unchanged, or is the file of one of the rows, in the bucket of the location owning its path |
| Connect.LoadFilesHoldsEveryRow | src/state/app_state.rs:84-109 | after the replay of a keyed table, every row's file, with its hash read back by the reader, is in the bucket of the location that owns it |
| Connect.LoadFilesKeepsFilledScanned | src/state/app_state.rs:84-109 | after the file replay, no location with a non-empty bucket is `Unscanned` |
| Connect.ClearUnscannedFrom | src/state/app_state.rs:111-117 | the bucket of every `Unscanned` location at or after the index is empty. The buckets of the locations before the index, and of every location that is not `Unscanned`, are unchanged. Every bucket is kept or emptied; the set of buckets, the locations and the table are untouched |
| Connect.ClearUnscanned | src/state/app_state.rs:111-117 | afterwards every `Unscanned` location has an empty bucket, every other location keeps its bucket unchanged, and the set of buckets is the same |
| Connect.ClearEmptyIsNoOp | src/state/app_state.rs:353-374 | clearing an already empty bucket without persisting changes nothing |
| Connect.ClearUnscannedNoOp | src/state/app_state.rs:111-117 | when every `Unscanned` location's bucket is already empty, the final clear changes nothing |
| Connect.ConnectLoad | src/state/app_state.rs:60-120 | opening the store from a fresh state gives a state satisfying the invariant whose table is the `files` table that was read |
| Connect.ConnectClearIsNoOp | src/state/app_state.rs:111-117 | the final clear in opening the store never removes a file, because the file replay moves every location it fills out of `Unscanned`: opening is the two replays followed by installing the table |
| Connect.ConnectLoadHoldsRows | src/state/app_state.rs:60-120 | after opening: one location per row, in order, with the row's path and decoded type. Every file row's file, with its hash read back by the reader, is in its owner's bucket, and no other file is in any bucket. Each location has its stored state, except that an `Unscanned` one whose bucket holds a file is `PartialScanned`. The table is the one read |
| Connect.ConnectLoadOnlyRows | src/state/app_state.rs:84-117 | after opening, every file in every bucket is the file of some file row, in the bucket of the location owning its path |
| Connect.ConnectLoadStates | src/state/app_state.rs:60-120 | after opening, each location has the state decoded from its row, except that an `Unscanned` location whose bucket holds a file is `PartialScanned` |
| Connect.SentinelRowReloads | src/state/app_state.rs:106 | as written, a row holding the sentinel reopens as a file whose hash is `Some("NULL")` |
| Connect.UnhashedFileReloadsAsNull | src/state/app_state.rs:60-109 | as written, a file persisted without a hash is, once the store is reopened, in its owner's bucket with the hash `Some("NULL")` |
| Connect.ConnectLoadRoundTrip | src/state/app_state.rs:234-237 | with the corrected reader, every file reopens with the hash it was stored with, including no hash |

## Left out

- SQL plumbing is not modelled:
  - opening the database file;
  - creating tables and indexes;
  - errors from `rusqlite`.
- The `locations` table is not modelled, so neither are the location replay's `INSERT INTO locations` nor the `UPDATE locations` statements of the modify operations.
  - `modify_location_type` has no `persist_to_db` parameter and always issues its `UPDATE`.
  - `modify_location_state` issues its `UPDATE` only when `persist_to_db` is set.
  - `Store.ModifyLocationType` and `Store.ModifyLocationState` model only the in-memory change, so neither takes a `persist` flag.
- Locks, `Arc`, `RwLock` and concurrent access are not modelled. Each operation is one atomic step.
- File I/O and SHA-256 are the parameter `hashFile`. Only the digest's format is modelled.
- Panics and `expect`/`unwrap` failures are turned into preconditions. These include:
  - a missing location;
  - an unowned file in `add_file`;
  - a missing row in `calculate_file_hash`;
  - the `assert!` in `add_location`.
- `hash_file` panics when a file cannot be opened or read (`src/utils/hashing.rs:6-9`).
  - `find_file_duplicates` then stops partway and never reaches `Processed`.
  - The total `hashFile` never fails, so `FindDuplicates.FindFileDuplicates` always finishes.
- The model assumes that the store is connected. The panics on a missing connection are not modelled; an example is the `expect("sqlite connection not set")` at `src/state/app_state.rs:291-295` in `modify_location_type`.
- Stored file types are given already decoded. The panic on an unknown file-type text is not modelled.
- Lengths and timestamps are `u64` in the source and unbounded `nat` here. No arithmetic is done on them.
- `GROUP BY` output order is unspecified in SQL. `FindDuplicateFileSizes` uses first-occurrence order.
- The scanning module, the GUI, `get_files_by_location`, `is_sqlite_connected`, duplicate grouping and deletion are not modelled.
- `Display` of the location state is not modelled, because its source is not part of this model.
- Location paths are compared by text length, counting characters. The source counts UTF-8 bytes. The two agree on ASCII paths.
- Connect.ConnectLoad: it requires that the location rows have distinct, new paths, and that the file rows have distinct paths, as the tables' primary keys guarantee. It also requires that every file row has an owning location; the source panics otherwise.
- Store.ModifyLocationState and Store.ModifyLocationType: they require the path to be a location. The source unwraps a failed lookup.

## Findings

| source | as written | input that shows it | evidently intended | confidence | as-written member | corrected member |
|---|---|---|---|---|---|---|
| src/state/app_state.rs:106 (also src/processing/find_duplicates.rs:80) | the `hash_256` column is read as `Option<String>`. The sentinel text `"NULL"` that `add_file_to_location` stores for an unhashed file comes back as `Some("NULL")` | a file added with hash `None` while persisting, then the store reopened: the file's in-memory hash is `Some("NULL")` | the sentinel reads back as `None`, so that storing and reloading returns the original hash | not executed | Connect.UnhashedFileReloadsAsNull | Connect.ConnectLoadRoundTrip |
