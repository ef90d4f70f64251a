/**
  The store's in-memory state and the effects of its mutating operations.

  The state is the ordered location list, one file bucket per location
  (file path to file), the durable `files` table, and the duplicate
  finder's shared results. Locks, reference counting and the SQL text are
  erased: every operation is a function from the state before to the state
  after. The durable `locations` table is not part of this model.
 */
module Store {
  import opened Wrappers
  import opened Paths
  import opened Locations
  import opened ParentPath
  import opened Records
  import opened FilesTable

  datatype AppState = AppState(
    locations: seq<Location>,
    filesByLocation: map<string, map<string, File>>,
    db: Table,
    findDuplicates: FindDuplicatesState)

  /** The state a fresh application starts from. */
  function Initial(): AppState
  {
    AppState([], map[], [], FindDuplicatesState([], Idle))
  }

  /** No two locations share a path. */
  predicate LocationPathsUnique(locs: seq<Location>)
  {
    forall i, j :: 0 <= i < j < |locs| ==> locs[i].path != locs[j].path
  }

  /** Every recorded parent is an earlier location that is a proper ancestor. */
  predicate ParentsEarlier(locs: seq<Location>)
  {
    forall i :: 0 <= i < |locs| && locs[i].parentLocationPath.Some? ==>
      exists j :: 0 <= j < i && locs[j].path == locs[i].parentLocationPath.value
                  && IsPathParent(locs[i].path, locs[j].path)
  }

  /** Every location has a file bucket. */
  predicate BucketsCover(st: AppState)
  {
    PathSet(st.locations) <= st.filesByLocation.Keys
  }

  /** The invariant every operation keeps: unique paths, exactly one bucket per location, consistent parents, a keyed table. */
  predicate Valid(st: AppState)
  {
    && LocationPathsUnique(st.locations)
    && st.filesByLocation.Keys == PathSet(st.locations)
    && ParentsEarlier(st.locations)
    && KeysUnique(st.db)
  }

  /** The fresh state satisfies the invariant. */
  lemma InitialValid()
    ensures Valid(Initial())
  {
  }

  /** `.iter().find(|x| x.path == location_path)`: the index of the first location with `path`. */
  function FindLocation(locs: seq<Location>, path: string): (r: Option<nat>)
    ensures r.None? <==> path !in PathSet(locs)
    ensures r.Some? ==> r.value < |locs| && locs[r.value].path == path
    ensures r.Some? ==> forall j :: 0 <= j < r.value ==> locs[j].path != path
  {
    if |locs| == 0 then None
    else if locs[0].path == path then Some(0)
    else
      var rest := FindLocation(locs[1..], path);
      assert PathSet(locs) == {locs[0].path} + PathSet(locs[1..]) by {
        assert locs == [locs[0]] + locs[1..];
      }
      match rest
      case None => None
      case Some(i) => Some(i + 1)
  }

  /** With unique paths, the location found is the only one with that path. */
  lemma FindLocationUnique(locs: seq<Location>, path: string, j: int)
    requires LocationPathsUnique(locs)
    requires 0 <= j < |locs| && locs[j].path == path
    ensures FindLocation(locs, path) == Some(j)
  {
    assert locs[j] in locs;
  }

  /** `get_location_clone`: a copy of the location with `path`, if there is one. */
  function GetLocationClone(st: AppState, path: string): (r: Option<Location>)
    ensures r.None? <==> path !in PathSet(st.locations)
    ensures r.Some? ==> r.value in st.locations && r.value.path == path
  {
    match FindLocation(st.locations, path)
    case None => None
    case Some(i) => Some(st.locations[i])
  }

  /** The location lists agree on length, paths, types and parents; only states may differ. */
  predicate SameButStates(a: seq<Location>, b: seq<Location>)
  {
    |a| == |b| && forall j :: 0 <= j < |a| ==> b[j] == a[j].(locationState := b[j].locationState)
  }

  /** The location lists agree on length, paths, states and parents; only types may differ. */
  predicate SameButTypes(a: seq<Location>, b: seq<Location>)
  {
    |a| == |b| && forall j :: 0 <= j < |a| ==> b[j] == a[j].(locationType := b[j].locationType)
  }

  /**
    `modify_location_state`, in memory: a no-op when the state is already
    `state`, otherwise the first location with `path` gets the new state.
   */
  function ModifyLocationState(st: AppState, path: string, state: LocationState): (r: AppState)
    requires path in PathSet(st.locations)
    ensures SameButStates(st.locations, r.locations)
    ensures var i := FindLocation(st.locations, path).value;
      && r.locations[i].locationState == state
      && (forall j :: 0 <= j < |st.locations| && j != i ==> r.locations[j] == st.locations[j])
      && (st.locations[i].locationState == state ==> r == st)
    ensures r.filesByLocation == st.filesByLocation && r.db == st.db && r.findDuplicates == st.findDuplicates
  {
    var i := FindLocation(st.locations, path).value;
    if st.locations[i].locationState == state then st
    else st.(locations := st.locations[i := st.locations[i].(locationState := state)])
  }

  /**
    `modify_location_type`, in memory: a no-op when the type is already
    `locationType`, otherwise the first location with `path` gets the new type.
   */
  function ModifyLocationType(st: AppState, path: string, locationType: LocationType): (r: AppState)
    requires path in PathSet(st.locations)
    ensures SameButTypes(st.locations, r.locations)
    ensures var i := FindLocation(st.locations, path).value;
      && r.locations[i].locationType == locationType
      && (forall j :: 0 <= j < |st.locations| && j != i ==> r.locations[j] == st.locations[j])
      && (st.locations[i].locationType == locationType ==> r == st)
    ensures r.filesByLocation == st.filesByLocation && r.db == st.db && r.findDuplicates == st.findDuplicates
  {
    var i := FindLocation(st.locations, path).value;
    if st.locations[i].locationType == locationType then st
    else st.(locations := st.locations[i := st.locations[i].(locationType := locationType)])
  }

  /** Changing a location's state keeps the invariant. */
  lemma ModifyLocationStateValid(st: AppState, path: string, state: LocationState)
    requires Valid(st) && path in PathSet(st.locations)
    ensures Valid(ModifyLocationState(st, path, state))
  {
    SameShapeValid(st, ModifyLocationState(st, path, state));
  }

  /** Changing a location's type keeps the invariant. */
  lemma ModifyLocationTypeValid(st: AppState, path: string, locationType: LocationType)
    requires Valid(st) && path in PathSet(st.locations)
    ensures Valid(ModifyLocationType(st, path, locationType))
  {
    SameShapeValid(st, ModifyLocationType(st, path, locationType));
  }

  /** A state whose locations keep their paths and parents, whose buckets keep their keys and whose table keeps its key, stays valid. */
  lemma SameShapeValid(st: AppState, r: AppState)
    requires |r.locations| == |st.locations|
    requires forall j :: 0 <= j < |st.locations| ==>
      r.locations[j].path == st.locations[j].path && r.locations[j].parentLocationPath == st.locations[j].parentLocationPath
    requires r.filesByLocation.Keys == st.filesByLocation.Keys
    requires KeysUnique(st.db) ==> KeysUnique(r.db)
    ensures Valid(st) ==> Valid(r)
  {
    SamePathsSamePathSet(st.locations, r.locations);
  }

  /** Lists with the same paths position by position have the same path set. */
  lemma SamePathsSamePathSet(a: seq<Location>, b: seq<Location>)
    requires |a| == |b|
    requires forall j :: 0 <= j < |a| ==> a[j].path == b[j].path
    ensures PathSet(a) == PathSet(b)
  {
    forall p | p in PathSet(a) ensures p in PathSet(b) {
      var l :| l in a && l.path == p;
      var j :| 0 <= j < |a| && a[j] == l;
      assert b[j] in b;
    }
    forall p | p in PathSet(b) ensures p in PathSet(a) {
      var l :| l in b && l.path == p;
      var j :| 0 <= j < |b| && b[j] == l;
      assert a[j] in a;
    }
  }

  /**
    `clear_location_files`: the bucket of `path` becomes empty; when
    persisting, the table loses exactly the rows filed under `path`.
   */
  function ClearLocationFiles(st: AppState, persist: bool, path: string): (r: AppState)
    requires path in st.filesByLocation
    ensures r.filesByLocation.Keys == st.filesByLocation.Keys
    ensures r.filesByLocation[path] == map[]
    ensures forall k :: k in st.filesByLocation && k != path ==> r.filesByLocation[k] == st.filesByLocation[k]
    ensures persist ==> forall row :: row in r.db <==> row in st.db && row.locationPath != path
    ensures !persist ==> r.db == st.db
    ensures KeysUnique(st.db) ==> KeysUnique(r.db)
    ensures r.locations == st.locations && r.findDuplicates == st.findDuplicates
  {
    var db := if persist then DeleteWhereLocation(st.db, path) else st.db;
    st.(db := db, filesByLocation := st.filesByLocation[path := map[]])
  }

  /**
    `add_location`: a new location is appended with a fresh empty bucket.
    Its parent is the longest proper ancestor among the locations that
    existed before it, and that parent's bucket is emptied.
   */
  function AddLocation(st: AppState, persist: bool, path: string, locationType: LocationType, state: LocationState): (r: AppState)
    requires path !in PathSet(st.locations)
    requires BucketsCover(st)
    ensures r.filesByLocation.Keys == st.filesByLocation.Keys + {path}
    ensures r.filesByLocation[path] == map[]
    ensures var parent := LongestParentPath(path, st.locations);
      && |r.locations| == |st.locations| + 1
      && r.locations[..|st.locations|] == st.locations
      && r.locations[|st.locations|] == Location(path, locationType, state, parent)
    ensures var parent := r.locations[|st.locations|].parentLocationPath;
      && parent != Some(path)
      && (parent.Some? ==> parent.value in PathSet(st.locations) && IsPathParent(path, parent.value))
      && (parent.Some? ==> r.filesByLocation[parent.value] == map[])
      && (parent.Some? && persist ==> forall row :: row in r.db <==> row in st.db && row.locationPath != parent.value)
      && (parent.None? || !persist ==> r.db == st.db)
      && (forall k :: k in st.filesByLocation && k != path && Some(k) != parent ==> r.filesByLocation[k] == st.filesByLocation[k])
    ensures r.findDuplicates == st.findDuplicates
    ensures Valid(st) ==> Valid(r)
  {
    var parent := LongestParentPath(path, st.locations);
    var withBucket := st.(filesByLocation := st.filesByLocation[path := map[]]);
    var cleared := if parent.Some? then ClearLocationFiles(withBucket, persist, parent.value) else withBucket;
    var l := Location(path, locationType, state, parent);
    var r := cleared.(locations := st.locations + [l]);
    AddLocationValid(st, l, r);
    r
  }

  /** Appending a location with a new path keeps the paths unique. */
  lemma AppendKeepsPathsUnique(locs: seq<Location>, l: Location)
    requires LocationPathsUnique(locs) && l.path !in PathSet(locs)
    ensures LocationPathsUnique(locs + [l])
  {
    var r := locs + [l];
    forall i, j | 0 <= i < j < |r| ensures r[i].path != r[j].path {
      if j == |locs| {
        assert r[i] in locs;
      }
    }
  }

  /** Appending a location whose parent is an ancestor among the earlier ones keeps parents consistent. */
  lemma AppendKeepsParentsEarlier(locs: seq<Location>, l: Location)
    requires ParentsEarlier(locs)
    requires l.parentLocationPath.Some? ==>
      l.parentLocationPath.value in PathSet(locs) && IsPathParent(l.path, l.parentLocationPath.value)
    ensures ParentsEarlier(locs + [l])
  {
    var r := locs + [l];
    forall i | 0 <= i < |r| && r[i].parentLocationPath.Some?
      ensures exists j :: 0 <= j < i && r[j].path == r[i].parentLocationPath.value
                          && IsPathParent(r[i].path, r[j].path)
    {
      if i < |locs| {
        var j :| 0 <= j < i && locs[j].path == locs[i].parentLocationPath.value
                 && IsPathParent(locs[i].path, locs[j].path);
        assert r[j] == locs[j];
      } else {
        var j := PathIndex(locs, l.parentLocationPath.value);
        assert r[j] == locs[j];
      }
    }
  }

  /** Appending a location with a new path and a parent among the earlier ones keeps the invariant. */
  lemma AddLocationValid(st: AppState, l: Location, r: AppState)
    requires l.path !in PathSet(st.locations)
    requires r.locations == st.locations + [l]
    requires l.parentLocationPath.Some? ==>
      l.parentLocationPath.value in PathSet(st.locations) && IsPathParent(l.path, l.parentLocationPath.value)
    requires r.filesByLocation.Keys == st.filesByLocation.Keys + {l.path}
    requires KeysUnique(st.db) ==> KeysUnique(r.db)
    ensures Valid(st) ==> Valid(r)
  {
    if Valid(st) {
      PathSetAppend(st.locations, l);
      AppendKeepsPathsUnique(st.locations, l);
      AppendKeepsParentsEarlier(st.locations, l);
    }
  }

  /**
    `add_file_to_location`: the file is put into the bucket of
    `locationPath` (replacing any entry with the same path), an
    `Unscanned` location becomes `PartialScanned`, and when persisting a
    row is inserted unless one with the same path exists. The row's type
    is always `Normal` and an absent hash is stored as the sentinel.
   */
  function AddFileToLocation(st: AppState, persist: bool, locationPath: string, filePath: string,
                             fileType: FileType, fileLen: nat, timeCreated: nat, timeModified: nat,
                             hash: Option<string>): (r: AppState)
    requires locationPath in PathSet(st.locations)
    requires locationPath in st.filesByLocation
    ensures r.filesByLocation.Keys == st.filesByLocation.Keys
    ensures r.filesByLocation[locationPath] ==
      st.filesByLocation[locationPath][filePath := File(filePath, fileType, fileLen, timeCreated, timeModified, hash)]
    ensures r.filesByLocation - {locationPath} == st.filesByLocation - {locationPath}
    ensures SameButStates(st.locations, r.locations)
    ensures var i := FindLocation(st.locations, locationPath).value;
      && r.locations[i].locationState == (if st.locations[i].locationState == Unscanned then PartialScanned else st.locations[i].locationState)
      && (forall j :: 0 <= j < |st.locations| && j != i ==> r.locations[j] == st.locations[j])
    ensures persist && RowIndex(st.db, filePath).None? ==>
      r.db == st.db + [Row(filePath, locationPath, FileType.Normal, fileLen, timeCreated, timeModified, StoredHash(hash))]
    ensures !persist || RowIndex(st.db, filePath).Some? ==> r.db == st.db
    ensures r.findDuplicates == st.findDuplicates
    ensures Valid(st) ==> Valid(r)
  {
    var file := File(filePath, fileType, fileLen, timeCreated, timeModified, hash);
    var db := if persist then InsertIgnore(st.db, Row(filePath, locationPath, FileType.Normal, fileLen, timeCreated, timeModified, StoredHash(hash))) else st.db;
    var inserted := st.(db := db);
    var i := FindLocation(st.locations, locationPath).value;
    var promoted := if st.locations[i].locationState == Unscanned then ModifyLocationState(inserted, locationPath, PartialScanned) else inserted;
    var r := promoted.(filesByLocation := promoted.filesByLocation[locationPath := promoted.filesByLocation[locationPath][filePath := file]]);
    SameShapeValid(st, r);
    r
  }

  /**
    `add_file`: the file goes to the location that owns its path, the
    longest location that is a proper ancestor of it.
   */
  function AddFile(st: AppState, persist: bool, filePath: string,
                   fileType: FileType, fileLen: nat, timeCreated: nat, timeModified: nat,
                   hash: Option<string>): (r: AppState)
    requires LongestParentPath(filePath, st.locations).Some?
    requires BucketsCover(st)
    ensures var owner := LongestParentPath(filePath, st.locations).value;
      && IsPathParent(filePath, owner)
      && owner in st.filesByLocation && owner in r.filesByLocation
      && r.filesByLocation[owner] ==
         st.filesByLocation[owner][filePath := File(filePath, fileType, fileLen, timeCreated, timeModified, hash)]
      && r.filesByLocation - {owner} == st.filesByLocation - {owner}
    ensures r.filesByLocation.Keys == st.filesByLocation.Keys
    ensures SameButStates(st.locations, r.locations)
    ensures var owner := LongestParentPath(filePath, st.locations).value;
      var i := FindLocation(st.locations, owner).value;
      && r.locations[i].locationState == (if st.locations[i].locationState == Unscanned then PartialScanned else st.locations[i].locationState)
      && (forall j :: 0 <= j < |st.locations| && j != i ==> r.locations[j] == st.locations[j])
    ensures var owner := LongestParentPath(filePath, st.locations).value;
      persist && RowIndex(st.db, filePath).None? ==>
        r.db == st.db + [Row(filePath, owner, FileType.Normal, fileLen, timeCreated, timeModified, StoredHash(hash))]
    ensures !persist || RowIndex(st.db, filePath).Some? ==> r.db == st.db
    ensures r.findDuplicates == st.findDuplicates
    ensures Valid(st) ==> Valid(r)
  {
    var owner := LongestParentPath(filePath, st.locations).value;
    assert owner in PathSet(st.locations);
    assert owner in st.filesByLocation;
    var r := AddFileToLocation(st, persist, owner, filePath, fileType, fileLen, timeCreated, timeModified, hash);
    assert r.filesByLocation.Keys == st.filesByLocation.Keys;
    r
  }

  /**
    The cache lookup of `calculate_file_hash`: the stored hash when there
    is one; otherwise the digest of the file's content, which is written
    to the table. `hashFile` stands for reading and digesting the file.
   */
  function CalculateFileHash(db: Table, path: string, hashFile: string -> Digest): (r: (string, Table))
    requires RowIndex(db, path).Some?
    ensures var stored := db[RowIndex(db, path).value].hash;
      && (stored != NullHash ==> r == (stored, db))
      && (stored == NullHash ==> r.0 == hashFile(path))
    ensures r.0 != NullHash
    ensures RowIndex(r.1, path) == RowIndex(db, path)
    ensures r.1[RowIndex(db, path).value].hash == r.0
    ensures SameFilesExceptHash(db, r.1)
    ensures forall i :: 0 <= i < |db| && db[i].path != path ==> r.1[i] == db[i]
    ensures KeysUnique(db) ==> forall i :: 0 <= i < |db| && db[i].hash != NullHash ==> r.1[i] == db[i]
  {
    var stored := db[RowIndex(db, path).value].hash;
    if stored == NullHash then
      var h := hashFile(path);
      DigestIsNotNull(h);
      (h, SetHash(db, path, h))
    else
      (stored, db)
  }

  /** Asking twice gives the same hash, and the second call leaves the table as the first left it. */
  lemma CalculateFileHashIdempotent(db: Table, path: string, hashFile: string -> Digest)
    requires RowIndex(db, path).Some?
    ensures var (h1, db1) := CalculateFileHash(db, path, hashFile);
      RowIndex(db1, path).Some? && CalculateFileHash(db1, path, hashFile) == (h1, db1)
  {
  }

  /** A file persisted without a hash is stored with the sentinel, so its first hash request computes the digest. */
  lemma UnhashedFileIsHashedOnDemand(st: AppState, locationPath: string, filePath: string,
                                     fileType: FileType, fileLen: nat, timeCreated: nat, timeModified: nat,
                                     hashFile: string -> Digest)
    requires locationPath in PathSet(st.locations) && locationPath in st.filesByLocation
    requires RowIndex(st.db, filePath).None?
    ensures var r := AddFileToLocation(st, true, locationPath, filePath, fileType, fileLen, timeCreated, timeModified, None);
      && RowIndex(r.db, filePath) == Some(|st.db|)
      && r.db[|st.db|].hash == NullHash
      && CalculateFileHash(r.db, filePath, hashFile).0 == hashFile(filePath)
  {
    var r := AddFileToLocation(st, true, locationPath, filePath, fileType, fileLen, timeCreated, timeModified, None);
    assert r.db[|st.db|].path == filePath;
  }
}
