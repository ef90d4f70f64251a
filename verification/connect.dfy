/**
  What opening the store does to the in-memory state: every persisted
  location is replayed through `add_location` (without persisting), then
  every persisted file through `add_file`, and finally every location
  still `Unscanned` has its bucket cleared. The SQL reads are erased: the
  rows are given as sequences, in the order the queries return them.
 */
module Connect {
  import opened Wrappers
  import opened Paths
  import opened Locations
  import opened ParentPath
  import opened Records
  import opened FilesTable
  import opened Store

  /** A row of the `locations` table, its type and state columns still text. */
  datatype LocationRow = LocationRow(path: string, locationType: string, locationState: string)

  /** Every bucket is empty. */
  predicate AllBucketsEmpty(st: AppState)
  {
    forall k :: k in st.filesByLocation ==> st.filesByLocation[k] == map[]
  }

  /** A location whose bucket holds a file is no longer `Unscanned`. */
  predicate FilledAreScanned(st: AppState)
  {
    FilledScanned(st.locations, st.filesByLocation)
  }

  predicate FilledScanned(locs: seq<Location>, buckets: map<string, map<string, File>>)
  {
    forall i ::
      (0 <= i < |locs| && locs[i].path in buckets && buckets[locs[i].path] != map[]) ==> locs[i].locationState != Unscanned
  }

  /** Filling the bucket of the location at `k` while moving it out of `Unscanned` keeps every filled location scanned. */
  lemma FilledScannedStep(a: seq<Location>, b: seq<Location>, m: map<string, map<string, File>>,
                          n: map<string, map<string, File>>, k: nat)
    requires FilledScanned(a, m) && LocationPathsUnique(a)
    requires |a| == |b| && k < |a| && b[k].locationState != Unscanned
    requires forall j :: 0 <= j < |a| && j != k ==> b[j] == a[j]
    requires m.Keys == n.Keys && n - {a[k].path} == m - {a[k].path}
    ensures FilledScanned(b, n)
  {
    forall i | 0 <= i < |b| && b[i].path in n && n[b[i].path] != map[]
      ensures b[i].locationState != Unscanned
    {
      if i != k {
        assert a[i].path != a[k].path;
        assert n[a[i].path] == (n - {a[k].path})[a[i].path];
      }
    }
  }

  /** Every row path is new: not yet a location, and not repeated among the rows. */
  predicate FreshRows(st: AppState, rows: seq<LocationRow>)
  {
    && (forall i :: 0 <= i < |rows| ==> rows[i].path !in PathSet(st.locations))
    && (forall i, j :: 0 <= i < j < |rows| ==> rows[i].path != rows[j].path)
  }

  /** One location row replayed: `add_location` of the row's path, decoded type and decoded state, without persisting. */
  function AddRow(st: AppState, row: LocationRow): (r: AppState)
    requires Valid(st) && row.path !in PathSet(st.locations)
    ensures Valid(r)
    ensures |r.locations| == |st.locations| + 1 && r.locations[..|st.locations|] == st.locations
    ensures r.locations[|st.locations|].path == row.path
    ensures r.locations[|st.locations|].locationType == DecodeType(row.locationType)
    ensures r.locations[|st.locations|].locationState == DecodeState(row.locationState)
    ensures r.db == st.db && r.findDuplicates == st.findDuplicates
    ensures AllBucketsEmpty(st) ==> AllBucketsEmpty(r)
  {
    AddLocation(st, false, row.path, DecodeType(row.locationType), DecodeState(row.locationState))
  }

  /** The rows after the first are still fresh once the first is a location. */
  lemma FreshRowsTail(st: AppState, rows: seq<LocationRow>, next: AppState)
    requires |rows| > 0 && FreshRows(st, rows)
    requires |next.locations| == |st.locations| + 1 && next.locations[..|st.locations|] == st.locations
    requires next.locations[|st.locations|].path == rows[0].path
    ensures FreshRows(next, rows[1..])
  {
    assert next.locations == st.locations + [next.locations[|st.locations|]];
    PathSetAppend(st.locations, next.locations[|st.locations|]);
  }

  /**
    The location replay: each row, in order, is added with its decoded
    type and state. The table's primary key makes the paths distinct.
   */
  function LoadLocations(st: AppState, rows: seq<LocationRow>): (r: AppState)
    requires Valid(st) && FreshRows(st, rows)
    ensures Valid(r)
    decreases |rows|
  {
    if |rows| == 0 then st
    else
      var next := AddRow(st, rows[0]);
      FreshRowsTail(st, rows, next);
      LoadLocations(next, rows[1..])
  }

  /** The location a row was replayed as carries the row's path, decoded type and decoded state. */
  predicate RowLoaded(l: Location, row: LocationRow)
  {
    l.path == row.path && l.locationType == DecodeType(row.locationType)
    && l.locationState == DecodeState(row.locationState)
  }

  /** `locs` is `prefix` followed by one location per row, each replayed from its row. */
  predicate Loaded(prefix: seq<Location>, locs: seq<Location>, rows: seq<LocationRow>)
  {
    && |locs| == |prefix| + |rows|
    && locs[..|prefix|] == prefix
    && forall i :: 0 <= i < |rows| ==> RowLoaded(locs[|prefix| + i], rows[i])
  }

  /** One replayed row followed by the replay of the rest is the replay of all rows. */
  lemma LoadedStep(a: seq<Location>, b: seq<Location>, c: seq<Location>, rows: seq<LocationRow>)
    requires |rows| > 0
    requires |b| == |a| + 1 && b[..|a|] == a && RowLoaded(b[|a|], rows[0])
    requires Loaded(b, c, rows[1..])
    ensures Loaded(a, c, rows)
  {
    assert c[..|a|] == c[..|b|][..|a|];
    forall i | 0 <= i < |rows| ensures RowLoaded(c[|a| + i], rows[i]) {
      if i == 0 {
        assert c[|a|] == c[..|b|][|a|];
      } else {
        assert rows[1..][i - 1] == rows[i];
        assert |a| + i == |b| + (i - 1);
      }
    }
  }

  /** The replay appends one location per row, in row order, with the row's path, decoded type and decoded state. */
  lemma {:induction false} LoadLocationsAppends(st: AppState, rows: seq<LocationRow>)
    requires Valid(st) && FreshRows(st, rows)
    ensures Loaded(st.locations, LoadLocations(st, rows).locations, rows)
    decreases |rows|
  {
    if |rows| == 0 {
      assert st.locations[..|st.locations|] == st.locations;
    } else {
      var next := AddRow(st, rows[0]);
      FreshRowsTail(st, rows, next);
      LoadLocationsAppends(next, rows[1..]);
      LoadedStep(st.locations, next.locations, LoadLocations(next, rows[1..]).locations, rows);
    }
  }

  /** The replay neither persists anything nor fills any bucket. */
  lemma {:induction false} LoadLocationsKeepsEmpty(st: AppState, rows: seq<LocationRow>)
    requires Valid(st) && FreshRows(st, rows)
    ensures var r := LoadLocations(st, rows);
      && r.db == st.db && r.findDuplicates == st.findDuplicates
      && (AllBucketsEmpty(st) ==> AllBucketsEmpty(r))
    decreases |rows|
  {
    if |rows| > 0 {
      var next := AddRow(st, rows[0]);
      FreshRowsTail(st, rows, next);
      LoadLocationsKeepsEmpty(next, rows[1..]);
    }
  }

  /** Adding a file without persisting it keeps every filled location scanned. */
  lemma AddFileKeepsFilledScanned(st: AppState, filePath: string, fileType: FileType,
                                  fileLen: nat, timeCreated: nat, timeModified: nat, hash: Option<string>)
    requires Valid(st)
    requires LongestParentPath(filePath, st.locations).Some?
    ensures FilledAreScanned(st) ==> FilledAreScanned(AddFile(st, false, filePath, fileType, fileLen, timeCreated, timeModified, hash))
  {
    var owner := LongestParentPath(filePath, st.locations).value;
    var r := AddFile(st, false, filePath, fileType, fileLen, timeCreated, timeModified, hash);
    assert r == AddFileToLocation(st, false, owner, filePath, fileType, fileLen, timeCreated, timeModified, hash);
    if FilledAreScanned(st) {
      FilledScannedStep(st.locations, r.locations, st.filesByLocation, r.filesByLocation, FindLocation(st.locations, owner).value);
    }
  }

  /** Every row's path has an owning location. */
  predicate Owned(locs: seq<Location>, rows: seq<Row>)
  {
    forall i :: 0 <= i < |rows| ==> LongestParentPath(rows[i].path, locs).Some?
  }

  /** Locations that differ only in their states own the same paths. */
  lemma OwnersUnchanged(rows: seq<Row>, a: seq<Location>, b: seq<Location>)
    requires SameButStates(a, b)
    ensures forall i :: 0 <= i < |rows| ==> LongestParentPath(rows[i].path, b) == LongestParentPath(rows[i].path, a)
  {
    forall i | 0 <= i < |rows|
      ensures LongestParentPath(rows[i].path, b) == LongestParentPath(rows[i].path, a)
    {
      LongestParentPathSamePaths(rows[i].path, a, b);
    }
  }

  /** The rows after the first keep their owners once the first file is added. */
  lemma OwnedTail(rows: seq<Row>, a: seq<Location>, b: seq<Location>)
    requires |rows| > 0 && Owned(a, rows) && SameButStates(a, b)
    ensures Owned(b, rows[1..])
    ensures forall i :: 0 <= i < |rows| ==> LongestParentPath(rows[i].path, b) == LongestParentPath(rows[i].path, a)
  {
    OwnersUnchanged(rows, a, b);
    forall i | 0 <= i < |rows| - 1 ensures LongestParentPath(rows[1..][i].path, b).Some? {
      assert rows[1..][i] == rows[i + 1];
    }
  }

  lemma SameButStatesTrans(a: seq<Location>, b: seq<Location>, c: seq<Location>)
    requires SameButStates(a, b) && SameButStates(b, c)
    ensures SameButStates(a, c)
  {
  }

  /** The only state change from `a` to `b` is a move from `Unscanned` to `PartialScanned`. */
  predicate StatesOnlyPromoted(a: seq<Location>, b: seq<Location>)
  {
    |a| == |b| && forall i :: 0 <= i < |a| && b[i].locationState != a[i].locationState ==>
      a[i].locationState == Unscanned && b[i].locationState == PartialScanned
  }

  lemma StatesOnlyPromotedTrans(a: seq<Location>, b: seq<Location>, c: seq<Location>)
    requires StatesOnlyPromoted(a, b) && StatesOnlyPromoted(b, c)
    ensures StatesOnlyPromoted(a, c)
  {
  }

  /** The file decoded from `row` is in the bucket of the location that owns the row's path. */
  predicate RowHeld(reader: HashReader, locs: seq<Location>, row: Row, buckets: map<string, map<string, File>>)
  {
    && LongestParentPath(row.path, locs).Some?
    && LongestParentPath(row.path, locs).value in buckets
    && row.path in buckets[LongestParentPath(row.path, locs).value]
    && buckets[LongestParentPath(row.path, locs).value][row.path] == RowToFile(reader, row)
  }

  /**
    Every bucket of `m` is still a bucket of `n` and only gained files;
    its files whose paths are not in `except` are unchanged.
   */
  predicate KeepsFiles(m: map<string, map<string, File>>, n: map<string, map<string, File>>, except: set<string>)
  {
    forall k :: k in m ==>
      && k in n && m[k].Keys <= n[k].Keys
      && forall p :: p in m[k] && p !in except ==> n[k][p] == m[k][p]
  }

  /** Putting one file into one bucket keeps every other file. */
  lemma OneBucketKeeps(m: map<string, map<string, File>>, n: map<string, map<string, File>>, owner: string, path: string, f: File)
    requires m.Keys == n.Keys && n - {owner} == m - {owner}
    requires owner in m && n[owner] == m[owner][path := f]
    ensures KeepsFiles(m, n, {path})
  {
    forall k | k in m ensures k in n && m[k].Keys <= n[k].Keys && forall p :: p in m[k] && p !in {path} ==> n[k][p] == m[k][p] {
      if k != owner {
        assert m[k] == (m - {owner})[k];
        assert n[k] == (n - {owner})[k];
      }
    }
  }

  lemma KeepsFilesTrans(a: map<string, map<string, File>>, b: map<string, map<string, File>>, c: map<string, map<string, File>>,
                        x: set<string>, y: set<string>)
    requires KeepsFiles(a, b, x) && KeepsFiles(b, c, y)
    ensures KeepsFiles(a, c, x + y)
  {
  }

  /** The file `f` at path `p` of bucket `k` is the file of one of `rows`, whose path `k` owns. */
  predicate FromRow(reader: HashReader, locs: seq<Location>, rows: seq<Row>, k: string, p: string, f: File)
  {
    exists i :: 0 <= i < |rows| && rows[i].path == p && LongestParentPath(p, locs) == Some(k) && f == RowToFile(reader, rows[i])
  }

  /** Every file of `n` is a file of `m`, unchanged, or the file of one of `rows` in its owner's bucket. */
  predicate OnlyAdds(reader: HashReader, locs: seq<Location>, rows: seq<Row>,
                     m: map<string, map<string, File>>, n: map<string, map<string, File>>)
  {
    forall k, p :: k in n && p in n[k] ==>
      (k in m && p in m[k] && n[k][p] == m[k][p]) || FromRow(reader, locs, rows, k, p, n[k][p])
  }

  /** Putting one row's file into its owner's bucket adds nothing else. */
  lemma OneBucketOnlyAdds(reader: HashReader, locs: seq<Location>, row: Row,
                          m: map<string, map<string, File>>, n: map<string, map<string, File>>, owner: string)
    requires LongestParentPath(row.path, locs) == Some(owner)
    requires m.Keys == n.Keys && n - {owner} == m - {owner}
    requires owner in m && n[owner] == m[owner][row.path := RowToFile(reader, row)]
    ensures OnlyAdds(reader, locs, [row], m, n)
  {
    forall k, p | k in n && p in n[k]
      ensures (k in m && p in m[k] && n[k][p] == m[k][p]) || FromRow(reader, locs, [row], k, p, n[k][p])
    {
      if k != owner {
        assert m[k] == (m - {owner})[k];
        assert n[k] == (n - {owner})[k];
      } else if p == row.path {
        assert [row][0] == row;
      }
    }
  }

  /** A file of the first row is a file of the rows. */
  lemma FromFirstRow(reader: HashReader, locs: seq<Location>, rows: seq<Row>, k: string, p: string, f: File)
    requires |rows| > 0 && FromRow(reader, locs, [rows[0]], k, p, f)
    ensures FromRow(reader, locs, rows, k, p, f)
  {
    var i :| 0 <= i < 1 && [rows[0]][i].path == p && LongestParentPath(p, locs) == Some(k) && f == RowToFile(reader, [rows[0]][i]);
    assert rows[0] == [rows[0]][i];
  }

  /** A file of a later row, under locations that differ only in states, is a file of the rows. */
  lemma FromLaterRow(reader: HashReader, a: seq<Location>, b: seq<Location>, rows: seq<Row>, k: string, p: string, f: File)
    requires |rows| > 0 && SameButStates(a, b) && FromRow(reader, b, rows[1..], k, p, f)
    ensures FromRow(reader, a, rows, k, p, f)
  {
    var i :| 0 <= i < |rows[1..]| && rows[1..][i].path == p && LongestParentPath(p, b) == Some(k) && f == RowToFile(reader, rows[1..][i]);
    LongestParentPathSamePaths(p, a, b);
    assert rows[i + 1] == rows[1..][i];
  }

  /** One row's additions followed by the later rows' additions, under locations that own the same paths. */
  lemma OnlyAddsTrans(reader: HashReader, a: seq<Location>, b: seq<Location>, rows: seq<Row>,
                      m: map<string, map<string, File>>, n: map<string, map<string, File>>, o: map<string, map<string, File>>)
    requires |rows| > 0 && SameButStates(a, b)
    requires OnlyAdds(reader, a, [rows[0]], m, n) && OnlyAdds(reader, b, rows[1..], n, o)
    ensures OnlyAdds(reader, a, rows, m, o)
  {
    forall k, p | k in o && p in o[k]
      ensures (k in m && p in m[k] && o[k][p] == m[k][p]) || FromRow(reader, a, rows, k, p, o[k][p])
    {
      if k in n && p in n[k] && o[k][p] == n[k][p] {
        if !(k in m && p in m[k] && n[k][p] == m[k][p]) {
          FromFirstRow(reader, a, rows, k, p, o[k][p]);
        }
      } else {
        FromLaterRow(reader, a, b, rows, k, p, o[k][p]);
      }
    }
  }

  /** Only the location at `owner` may change state, and only from `Unscanned` to `PartialScanned`, which it must. */
  predicate PromotesOwner(a: seq<Location>, b: seq<Location>, owner: string)
  {
    |a| == |b| && forall i :: 0 <= i < |a| ==>
      b[i].locationState ==
        (if a[i].path == owner && a[i].locationState == Unscanned then PartialScanned else a[i].locationState)
  }

  /** Promoting the location at index `k` alone, among distinct paths, promotes exactly the location at its path. */
  lemma PromotesAtOwner(a: seq<Location>, b: seq<Location>, k: nat)
    requires LocationPathsUnique(a) && |a| == |b| && k < |a|
    requires b[k].locationState == (if a[k].locationState == Unscanned then PartialScanned else a[k].locationState)
    requires forall j :: 0 <= j < |a| && j != k ==> b[j] == a[j]
    ensures PromotesOwner(a, b, a[k].path)
    ensures StatesOnlyPromoted(a, b)
  {
    forall i | 0 <= i < |a| && i != k ensures a[i].path != a[k].path {
    }
  }

  /** The file a row is replayed as: it is added, with its hash read back by `reader`, to the bucket of its owner. */
  function AddRowFile(reader: HashReader, st: AppState, row: Row): (r: AppState)
    requires Valid(st) && LongestParentPath(row.path, st.locations).Some?
    ensures Valid(r)
    ensures RowHeld(reader, st.locations, row, r.filesByLocation)
    ensures var owner := LongestParentPath(row.path, st.locations).value;
      && owner in st.filesByLocation && owner in r.filesByLocation
      && r.filesByLocation[owner] == st.filesByLocation[owner][row.path := RowToFile(reader, row)]
      && r.filesByLocation - {owner} == st.filesByLocation - {owner}
    ensures KeepsFiles(st.filesByLocation, r.filesByLocation, {row.path})
    ensures OnlyAdds(reader, st.locations, [row], st.filesByLocation, r.filesByLocation)
    ensures r.filesByLocation.Keys == st.filesByLocation.Keys
    ensures SameButStates(st.locations, r.locations)
    ensures PromotesOwner(st.locations, r.locations, LongestParentPath(row.path, st.locations).value)
    ensures StatesOnlyPromoted(st.locations, r.locations)
    ensures r.db == st.db && r.findDuplicates == st.findDuplicates
  {
    var f := RowToFile(reader, row);
    var owner := LongestParentPath(row.path, st.locations).value;
    var r := AddFile(st, false, row.path, f.fileType, f.fileLen, f.timeCreated, f.timeModified, f.hash);
    PromotesAtOwner(st.locations, r.locations, FindLocation(st.locations, owner).value);
    OneBucketKeeps(st.filesByLocation, r.filesByLocation, owner, row.path, f);
    OneBucketOnlyAdds(reader, st.locations, row, st.filesByLocation, r.filesByLocation, owner);
    r
  }

  /**
    The file replay: each row, in order, is added to the location that
    owns its path, with the stored hash read back by `reader`. A row no
    location owns makes the source panic, so every row must be owned.
   */
  function LoadFiles(reader: HashReader, st: AppState, rows: seq<Row>): (r: AppState)
    requires Valid(st) && Owned(st.locations, rows)
    ensures Valid(r)
    ensures SameButStates(st.locations, r.locations)
    ensures StatesOnlyPromoted(st.locations, r.locations)
    ensures r.filesByLocation.Keys == st.filesByLocation.Keys
    ensures r.db == st.db && r.findDuplicates == st.findDuplicates
    decreases |rows|
  {
    if |rows| == 0 then st
    else
      var next := AddRowFile(reader, st, rows[0]);
      OwnedTail(rows, st.locations, next.locations);
      var r := LoadFiles(reader, next, rows[1..]);
      SameButStatesTrans(st.locations, next.locations, r.locations);
      StatesOnlyPromotedTrans(st.locations, next.locations, r.locations);
      r
  }

  /** The paths of a sequence of file rows. */
  function FilePaths(rows: seq<Row>): (r: set<string>)
    ensures forall i :: 0 <= i < |rows| ==> rows[i].path in r
  {
    set i | 0 <= i < |rows| :: rows[i].path
  }

  lemma FilePathsFirst(rows: seq<Row>)
    requires |rows| > 0
    ensures FilePaths(rows) == {rows[0].path} + FilePaths(rows[1..])
  {
    forall p | p in FilePaths(rows) ensures p in {rows[0].path} + FilePaths(rows[1..]) {
      var i :| 0 <= i < |rows| && rows[i].path == p;
      if i > 0 {
        assert rows[1..][i - 1] == rows[i];
      }
    }
  }

  /** The replay only adds to buckets, and changes no file whose path is not among the rows. */
  lemma {:induction false} LoadFilesKeeps(reader: HashReader, st: AppState, rows: seq<Row>)
    requires Valid(st) && Owned(st.locations, rows)
    ensures KeepsFiles(st.filesByLocation, LoadFiles(reader, st, rows).filesByLocation, FilePaths(rows))
    decreases |rows|
  {
    if |rows| == 0 {
      assert FilePaths(rows) == {};
    } else {
      var next := AddRowFile(reader, st, rows[0]);
      OwnedTail(rows, st.locations, next.locations);
      LoadFilesKeeps(reader, next, rows[1..]);
      KeepsFilesTrans(st.filesByLocation, next.filesByLocation, LoadFiles(reader, next, rows[1..]).filesByLocation,
                      {rows[0].path}, FilePaths(rows[1..]));
      FilePathsFirst(rows);
    }
  }

  /** The replay adds no file but the rows' files, each in its owner's bucket. */
  lemma {:induction false} LoadFilesOnlyAdds(reader: HashReader, st: AppState, rows: seq<Row>)
    requires Valid(st) && Owned(st.locations, rows)
    ensures OnlyAdds(reader, st.locations, rows, st.filesByLocation, LoadFiles(reader, st, rows).filesByLocation)
    decreases |rows|
  {
    if |rows| > 0 {
      var next := AddRowFile(reader, st, rows[0]);
      OwnedTail(rows, st.locations, next.locations);
      LoadFilesOnlyAdds(reader, next, rows[1..]);
      OnlyAddsTrans(reader, st.locations, next.locations, rows,
                    st.filesByLocation, next.filesByLocation, LoadFiles(reader, next, rows[1..]).filesByLocation);
    }
  }

  /** Every location whose state differs between `a` and `b` has a filled bucket in `buckets`. */
  predicate PromotedFilled(a: seq<Location>, b: seq<Location>, buckets: map<string, map<string, File>>)
  {
    forall i :: 0 <= i < |a| && i < |b| && b[i].locationState != a[i].locationState ==>
      a[i].path in buckets && buckets[a[i].path] != map[]
  }

  /** The replay changes the state only of locations it puts a file into. */
  lemma {:induction false} LoadFilesFillsPromoted(reader: HashReader, st: AppState, rows: seq<Row>)
    requires Valid(st) && Owned(st.locations, rows)
    ensures PromotedFilled(st.locations, LoadFiles(reader, st, rows).locations, LoadFiles(reader, st, rows).filesByLocation)
    decreases |rows|
  {
    if |rows| > 0 {
      var row := rows[0];
      var next := AddRowFile(reader, st, row);
      OwnedTail(rows, st.locations, next.locations);
      LoadFilesFillsPromoted(reader, next, rows[1..]);
      LoadFilesKeeps(reader, next, rows[1..]);
      var r := LoadFiles(reader, next, rows[1..]);
      assert r == LoadFiles(reader, st, rows);
      var owner := LongestParentPath(row.path, st.locations).value;
      var k := FindLocation(st.locations, owner).value;
      forall i | 0 <= i < |st.locations| && i < |r.locations| && r.locations[i].locationState != st.locations[i].locationState
        ensures st.locations[i].path in r.filesByLocation && r.filesByLocation[st.locations[i].path] != map[]
      {
        assert next.locations[i].path == st.locations[i].path;
        if next.locations[i].locationState == st.locations[i].locationState {
          assert r.locations[i].locationState != next.locations[i].locationState;
        } else {
          assert i == k;
          assert row.path in next.filesByLocation[owner];
          assert row.path in r.filesByLocation[owner];
        }
      }
    }
  }

  /** A held row stays held when no later file has its path and owners are unchanged. */
  lemma RowStaysHeld(reader: HashReader, a: seq<Location>, b: seq<Location>, row: Row,
                     m: map<string, map<string, File>>, n: map<string, map<string, File>>, except: set<string>)
    requires RowHeld(reader, b, row, m) && KeepsFiles(m, n, except) && row.path !in except
    requires LongestParentPath(row.path, b) == LongestParentPath(row.path, a)
    ensures RowHeld(reader, a, row, n)
  {
  }

  /** A later row of a keyed table never has the path of the first. */
  lemma FirstPathNotLater(rows: seq<Row>)
    requires |rows| > 0 && KeysUnique(rows)
    ensures rows[0].path !in FilePaths(rows[1..])
    ensures KeysUnique(rows[1..])
  {
  }

  /**
    After the replay of a keyed table, every row's file, with its hash
    read back by `reader`, is in the bucket of the location that owns it.
   */
  lemma {:induction false} LoadFilesHoldsEveryRow(reader: HashReader, st: AppState, rows: seq<Row>)
    requires Valid(st) && Owned(st.locations, rows) && KeysUnique(rows)
    ensures forall i :: 0 <= i < |rows| ==> RowHeld(reader, st.locations, rows[i], LoadFiles(reader, st, rows).filesByLocation)
    decreases |rows|
  {
    if |rows| > 0 {
      var next := AddRowFile(reader, st, rows[0]);
      OwnedTail(rows, st.locations, next.locations);
      FirstPathNotLater(rows);
      LoadFilesHoldsEveryRow(reader, next, rows[1..]);
      LoadFilesKeeps(reader, next, rows[1..]);
      var r := LoadFiles(reader, next, rows[1..]);
      assert r == LoadFiles(reader, st, rows);
      forall i | 0 <= i < |rows| ensures RowHeld(reader, st.locations, rows[i], r.filesByLocation) {
        if i == 0 {
          RowStaysHeld(reader, st.locations, st.locations, rows[0], next.filesByLocation, r.filesByLocation, FilePaths(rows[1..]));
        } else {
          assert rows[1..][i - 1] == rows[i];
          RowStaysHeld(reader, st.locations, next.locations, rows[i], r.filesByLocation, r.filesByLocation, {});
        }
      }
    }
  }

  /** After the replay of files, a location whose bucket is filled is no longer `Unscanned`, provided that held before. */
  lemma {:induction false} LoadFilesKeepsFilledScanned(reader: HashReader, st: AppState, rows: seq<Row>)
    requires Valid(st) && Owned(st.locations, rows)
    ensures FilledAreScanned(st) ==> FilledAreScanned(LoadFiles(reader, st, rows))
    decreases |rows|
  {
    if |rows| > 0 {
      var row := rows[0];
      var next := AddRowFile(reader, st, row);
      var f := RowToFile(reader, row);
      AddFileKeepsFilledScanned(st, row.path, f.fileType, f.fileLen, f.timeCreated, f.timeModified, f.hash);
      OwnedTail(rows, st.locations, next.locations);
      LoadFilesKeepsFilledScanned(reader, next, rows[1..]);
    }
  }

  /** A location that is `Unscanned` has an empty bucket, from index `k` on. */
  predicate UnscannedEmptyFrom(st: AppState, k: nat)
  {
    forall i :: k <= i < |st.locations| && st.locations[i].locationState == Unscanned ==>
      st.locations[i].path in st.filesByLocation && st.filesByLocation[st.locations[i].path] == map[]
  }

  /** Every bucket of `n` is the bucket of `m` or empty. */
  predicate ClearsOnly(m: map<string, map<string, File>>, n: map<string, map<string, File>>)
  {
    forall p :: p in m ==> p in n && (n[p] == m[p] || n[p] == map[])
  }

  lemma ClearsOnlyTrans(a: map<string, map<string, File>>, b: map<string, map<string, File>>, c: map<string, map<string, File>>)
    requires ClearsOnly(a, b) && ClearsOnly(b, c)
    ensures ClearsOnly(a, c)
  {
  }

  /** The buckets of the locations before index `k`, and of every location not `Unscanned`, are the same in `m` and `n`. */
  predicate KeepsBucketsFrom(locs: seq<Location>, m: map<string, map<string, File>>, n: map<string, map<string, File>>, k: nat)
  {
    forall i :: 0 <= i < |locs| && (i < k || locs[i].locationState != Unscanned) ==>
      locs[i].path in m && locs[i].path in n && n[locs[i].path] == m[locs[i].path]
  }

  /** The last step of opening the store: the bucket of every `Unscanned` location from index `k` on is cleared, without persisting. */
  function ClearUnscannedFrom(st: AppState, k: nat): (r: AppState)
    requires Valid(st) && k <= |st.locations|
    ensures Valid(r)
    ensures r.locations == st.locations && r.db == st.db && r.findDuplicates == st.findDuplicates
    ensures r.filesByLocation.Keys == st.filesByLocation.Keys
    ensures ClearsOnly(st.filesByLocation, r.filesByLocation)
    ensures KeepsBucketsFrom(st.locations, st.filesByLocation, r.filesByLocation, k)
    ensures UnscannedEmptyFrom(r, k)
    decreases |st.locations| - k
  {
    if k == |st.locations| then st
    else
      var l := st.locations[k];
      var next := if l.locationState == Unscanned then ClearLocationFiles(st, false, l.path) else st;
      assert Valid(next);
      var r := ClearUnscannedFrom(next, k + 1);
      ClearedStaysEmpty(st, next, r, k);
      ClearsOnlyTrans(st.filesByLocation, next.filesByLocation, r.filesByLocation);
      ClearStepKeeps(st, next, r, k);
      r
  }

  /** Clearing the bucket at index `k` and then the later ones keeps every bucket the clear must not touch. */
  lemma ClearStepKeeps(st: AppState, next: AppState, r: AppState, k: nat)
    requires Valid(st) && k < |st.locations|
    requires next == (if st.locations[k].locationState == Unscanned then ClearLocationFiles(st, false, st.locations[k].path) else st)
    requires next.locations == st.locations && next.filesByLocation.Keys == st.filesByLocation.Keys
    requires KeepsBucketsFrom(next.locations, next.filesByLocation, r.filesByLocation, k + 1)
    ensures KeepsBucketsFrom(st.locations, st.filesByLocation, r.filesByLocation, k)
  {
    var locs := st.locations;
    forall i | 0 <= i < |locs| && (i < k || locs[i].locationState != Unscanned)
      ensures locs[i].path in st.filesByLocation && locs[i].path in r.filesByLocation
      ensures r.filesByLocation[locs[i].path] == st.filesByLocation[locs[i].path]
    {
      assert locs[i].path in PathSet(locs);
      if i != k {
        assert locs[i].path != locs[k].path by { assert LocationPathsUnique(locs); }
      }
      assert next.filesByLocation[locs[i].path] == st.filesByLocation[locs[i].path];
    }
  }

  /** Clearing later buckets keeps the bucket at index `k` empty when it was cleared. */
  lemma ClearedStaysEmpty(st: AppState, next: AppState, r: AppState, k: nat)
    requires Valid(st) && k < |st.locations|
    requires next == (if st.locations[k].locationState == Unscanned then ClearLocationFiles(st, false, st.locations[k].path) else st)
    requires r.locations == next.locations && ClearsOnly(next.filesByLocation, r.filesByLocation)
    requires UnscannedEmptyFrom(r, k + 1)
    ensures ClearsOnly(st.filesByLocation, next.filesByLocation)
    ensures UnscannedEmptyFrom(r, k)
  {
    if st.locations[k].locationState == Unscanned {
      assert next.filesByLocation[st.locations[k].path] == map[];
    }
  }

  function ClearUnscanned(st: AppState): (r: AppState)
    requires Valid(st)
    ensures Valid(r)
    ensures r.locations == st.locations && r.db == st.db && r.findDuplicates == st.findDuplicates
    ensures r.filesByLocation.Keys == st.filesByLocation.Keys
    ensures KeepsBucketsFrom(st.locations, st.filesByLocation, r.filesByLocation, 0)
    ensures UnscannedEmptyFrom(r, 0)
  {
    ClearUnscannedFrom(st, 0)
  }

  /** Clearing an empty bucket without persisting changes nothing. */
  lemma ClearEmptyIsNoOp(st: AppState, path: string)
    requires path in st.filesByLocation && st.filesByLocation[path] == map[]
    ensures ClearLocationFiles(st, false, path) == st
  {
    assert st.filesByLocation[path := map[]] == st.filesByLocation;
  }

  /** Clearing buckets that are already empty changes nothing. */
  lemma {:induction false} ClearUnscannedNoOp(st: AppState, k: nat)
    requires Valid(st) && k <= |st.locations| && UnscannedEmptyFrom(st, k)
    ensures ClearUnscannedFrom(st, k) == st
    decreases |st.locations| - k
  {
    if k < |st.locations| {
      var l := st.locations[k];
      if l.locationState == Unscanned {
        ClearEmptyIsNoOp(st, l.path);
      }
      ClearUnscannedNoOp(st, k + 1);
    }
  }

  /** With every bucket empty, no filled bucket belongs to an `Unscanned` location. */
  lemma EmptyBucketsAreScanned(st: AppState)
    requires AllBucketsEmpty(st)
    ensures FilledAreScanned(st)
  {
  }

  /** With every filled bucket scanned, every `Unscanned` location has an empty bucket. */
  lemma FilledScannedEmptiesUnscanned(st: AppState)
    requires Valid(st) && FilledAreScanned(st)
    ensures UnscannedEmptyFrom(st, 0)
  {
    forall i | 0 <= i < |st.locations| && st.locations[i].locationState == Unscanned
      ensures st.locations[i].path in st.filesByLocation && st.filesByLocation[st.locations[i].path] == map[]
    {
      assert st.locations[i].path in PathSet(st.locations);
    }
  }

  /**
    Opening the store, from a fresh state: the location rows are replayed,
    then the file rows, then the buckets of `Unscanned` locations are
    cleared, and the connection holding the `files` table that was read
    becomes the store's. Every file row must be owned by some location,
    and the table's primary key makes its paths unique. The program reads
    the stored hashes with `AsWritten`.
   */
  function ConnectLoad(reader: HashReader, locationRows: seq<LocationRow>, fileRows: seq<Row>): (r: AppState)
    requires FreshRows(Initial(), locationRows)
    requires Owned(LoadLocations(Initial(), locationRows).locations, fileRows)
    requires KeysUnique(fileRows)
    ensures Valid(r)
    ensures r.db == fileRows
  {
    InitialValid();
    var located := LoadLocations(Initial(), locationRows);
    ClearUnscanned(LoadFiles(reader, located, fileRows)).(db := fileRows)
  }

  /**
    The final clear of opening the store never removes a file: the file
    replay moves every location it fills out of `Unscanned`, and the
    location replay leaves every bucket empty.
   */
  lemma {:induction false} ConnectClearIsNoOp(reader: HashReader, locationRows: seq<LocationRow>, fileRows: seq<Row>)
    requires FreshRows(Initial(), locationRows)
    requires Owned(LoadLocations(Initial(), locationRows).locations, fileRows)
    requires KeysUnique(fileRows)
    ensures ConnectLoad(reader, locationRows, fileRows) == LoadFiles(reader, LoadLocations(Initial(), locationRows), fileRows).(db := fileRows)
  {
    InitialValid();
    var located := LoadLocations(Initial(), locationRows);
    assert AllBucketsEmpty(Initial());
    LoadLocationsKeepsEmpty(Initial(), locationRows);
    EmptyBucketsAreScanned(located);
    var loaded := LoadFiles(reader, located, fileRows);
    LoadFilesKeepsFilledScanned(reader, located, fileRows);
    FilledScannedEmptiesUnscanned(loaded);
    ClearUnscannedNoOp(loaded, 0);
  }

  /** One location per row, in row order, with the row's path and decoded type. */
  predicate PathsAndTypesLoaded(locs: seq<Location>, rows: seq<LocationRow>)
  {
    |locs| == |rows| && forall i :: 0 <= i < |rows| ==>
      locs[i].path == rows[i].path && locs[i].locationType == DecodeType(rows[i].locationType)
  }

  /** Changing only states keeps what the location replay put in place of paths and types. */
  lemma LoadedSurvivesStates(a: seq<Location>, b: seq<Location>, rows: seq<LocationRow>)
    requires Loaded([], a, rows) && SameButStates(a, b)
    ensures PathsAndTypesLoaded(b, rows)
  {
    forall i | 0 <= i < |rows|
      ensures b[i].path == rows[i].path && b[i].locationType == DecodeType(rows[i].locationType)
    {
      assert RowLoaded(a[0 + i], rows[i]);
    }
  }

  /**
    Each location carries the state decoded from its row, except that an
    `Unscanned` location whose bucket is filled is `PartialScanned`.
   */
  predicate StatesLoaded(locs: seq<Location>, rows: seq<LocationRow>, buckets: map<string, map<string, File>>)
  {
    |locs| == |rows| && forall i :: 0 <= i < |rows| ==>
      && rows[i].path in buckets
      && locs[i].locationState ==
         (if DecodeState(rows[i].locationState) == Unscanned && buckets[rows[i].path] != map[]
          then PartialScanned else DecodeState(rows[i].locationState))
  }

  /** Opening the store leaves each location in its stored state, promoted once when a file row fills its bucket. */
  lemma {:induction false} ConnectLoadStates(reader: HashReader, locationRows: seq<LocationRow>, fileRows: seq<Row>)
    requires FreshRows(Initial(), locationRows)
    requires Owned(LoadLocations(Initial(), locationRows).locations, fileRows)
    requires KeysUnique(fileRows)
    ensures StatesLoaded(ConnectLoad(reader, locationRows, fileRows).locations, locationRows,
                         ConnectLoad(reader, locationRows, fileRows).filesByLocation)
  {
    InitialValid();
    var located := LoadLocations(Initial(), locationRows);
    LoadLocationsAppends(Initial(), locationRows);
    assert AllBucketsEmpty(Initial());
    LoadLocationsKeepsEmpty(Initial(), locationRows);
    EmptyBucketsAreScanned(located);
    var loaded := LoadFiles(reader, located, fileRows);
    LoadFilesKeepsFilledScanned(reader, located, fileRows);
    LoadFilesFillsPromoted(reader, located, fileRows);
    ConnectClearIsNoOp(reader, locationRows, fileRows);
    PromotedStatesLoaded(located.locations, loaded.locations, locationRows, loaded.filesByLocation);
  }

  /** Replayed states, promoted only where a bucket was filled and with every filled location scanned, are the loaded states. */
  lemma PromotedStatesLoaded(a: seq<Location>, b: seq<Location>, rows: seq<LocationRow>, buckets: map<string, map<string, File>>)
    requires Loaded([], a, rows) && SameButStates(a, b) && StatesOnlyPromoted(a, b)
    requires PromotedFilled(a, b, buckets) && FilledScanned(b, buckets)
    requires PathSet(b) <= buckets.Keys
    ensures StatesLoaded(b, rows, buckets)
  {
    forall i | 0 <= i < |rows|
      ensures rows[i].path in buckets
      ensures b[i].locationState ==
        (if DecodeState(rows[i].locationState) == Unscanned && buckets[rows[i].path] != map[]
         then PartialScanned else DecodeState(rows[i].locationState))
    {
      assert RowLoaded(a[0 + i], rows[i]);
      assert b[i].path == a[i].path;
      assert b[i].path in PathSet(b);
    }
  }

  /** Every file in every bucket is the file of one of `rows`, in the bucket of the location that owns its path. */
  predicate OnlyRowFiles(reader: HashReader, locs: seq<Location>, rows: seq<Row>, buckets: map<string, map<string, File>>)
  {
    forall k, p :: k in buckets && p in buckets[k] ==> FromRow(reader, locs, rows, k, p, buckets[k][p])
  }

  /** Opening the store puts no file in memory but the file rows' files. */
  lemma ConnectLoadOnlyRows(reader: HashReader, locationRows: seq<LocationRow>, fileRows: seq<Row>)
    requires FreshRows(Initial(), locationRows)
    requires Owned(LoadLocations(Initial(), locationRows).locations, fileRows)
    requires KeysUnique(fileRows)
    ensures OnlyRowFiles(reader, LoadLocations(Initial(), locationRows).locations, fileRows,
                         ConnectLoad(reader, locationRows, fileRows).filesByLocation)
  {
    InitialValid();
    var located := LoadLocations(Initial(), locationRows);
    assert AllBucketsEmpty(Initial());
    LoadLocationsKeepsEmpty(Initial(), locationRows);
    LoadFilesOnlyAdds(reader, located, fileRows);
    ConnectClearIsNoOp(reader, locationRows, fileRows);
  }

  /**
    What opening the store yields: one location per location row, in row
    order, with the decoded type and the stored state, promoted when its
    bucket was filled; every file row's file, with its hash read back by
    `reader`, in the bucket of the location that owns it, and no other
    file; and the table that was read.
   */
  lemma {:induction false} ConnectLoadHoldsRows(reader: HashReader, locationRows: seq<LocationRow>, fileRows: seq<Row>)
    requires FreshRows(Initial(), locationRows)
    requires Owned(LoadLocations(Initial(), locationRows).locations, fileRows)
    requires KeysUnique(fileRows)
    ensures PathsAndTypesLoaded(ConnectLoad(reader, locationRows, fileRows).locations, locationRows)
    ensures forall i :: 0 <= i < |fileRows| ==>
      RowHeld(reader, LoadLocations(Initial(), locationRows).locations, fileRows[i], ConnectLoad(reader, locationRows, fileRows).filesByLocation)
    ensures OnlyRowFiles(reader, LoadLocations(Initial(), locationRows).locations, fileRows,
                         ConnectLoad(reader, locationRows, fileRows).filesByLocation)
    ensures StatesLoaded(ConnectLoad(reader, locationRows, fileRows).locations, locationRows,
                         ConnectLoad(reader, locationRows, fileRows).filesByLocation)
    ensures ConnectLoad(reader, locationRows, fileRows).db == fileRows
  {
    InitialValid();
    var located := LoadLocations(Initial(), locationRows);
    LoadLocationsAppends(Initial(), locationRows);
    LoadFilesHoldsEveryRow(reader, located, fileRows);
    ConnectClearIsNoOp(reader, locationRows, fileRows);
    LoadedSurvivesStates(located.locations, LoadFiles(reader, located, fileRows).locations, locationRows);
    ConnectLoadOnlyRows(reader, locationRows, fileRows);
    ConnectLoadStates(reader, locationRows, fileRows);
  }

  /** The bucket of the location owning the row's path holds a file with that path and the hash `h`. */
  predicate HashHeld(locs: seq<Location>, row: Row, buckets: map<string, map<string, File>>, h: Option<string>)
  {
    && LongestParentPath(row.path, locs).Some?
    && LongestParentPath(row.path, locs).value in buckets
    && row.path in buckets[LongestParentPath(row.path, locs).value]
    && buckets[LongestParentPath(row.path, locs).value][row.path].hash == h
  }

  /** A held row's file carries the hash the reader makes of the stored text. */
  lemma HeldRowHash(reader: HashReader, locs: seq<Location>, row: Row, buckets: map<string, map<string, File>>)
    requires RowHeld(reader, locs, row, buckets)
    ensures HashHeld(locs, row, buckets, ReadHash(reader, row.hash))
  {
  }

  /**
    A row holding the sentinel reopens, as written, as a file whose hash is
    the text "NULL" (with the corrected reader it reopens without a hash:
    `ConnectLoadRoundTrip` with `h == None`).
   */
  lemma SentinelRowReloads(locationRows: seq<LocationRow>, fileRows: seq<Row>, i: nat)
    requires FreshRows(Initial(), locationRows)
    requires Owned(LoadLocations(Initial(), locationRows).locations, fileRows)
    requires KeysUnique(fileRows) && i < |fileRows| && fileRows[i].hash == NullHash
    ensures HashHeld(LoadLocations(Initial(), locationRows).locations, fileRows[i],
                     ConnectLoad(AsWritten, locationRows, fileRows).filesByLocation, Some("NULL"))
  {
    var locs := LoadLocations(Initial(), locationRows).locations;
    ConnectLoadHoldsRows(AsWritten, locationRows, fileRows);
    HeldRowHash(AsWritten, locs, fileRows[i], ConnectLoad(AsWritten, locationRows, fileRows).filesByLocation);
  }

  /**
    With the corrected reader, every file row reopens with the hash its
    file was stored with: a file stored without a hash reopens without one,
    and a stored digest reopens as that digest.
   */
  lemma ConnectLoadRoundTrip(locationRows: seq<LocationRow>, fileRows: seq<Row>, i: nat, h: Option<string>)
    requires FreshRows(Initial(), locationRows)
    requires Owned(LoadLocations(Initial(), locationRows).locations, fileRows)
    requires KeysUnique(fileRows) && i < |fileRows|
    requires h != Some(NullHash) && fileRows[i].hash == StoredHash(h)
    ensures HashHeld(LoadLocations(Initial(), locationRows).locations, fileRows[i],
                     ConnectLoad(Corrected, locationRows, fileRows).filesByLocation, h)
  {
    var locs := LoadLocations(Initial(), locationRows).locations;
    ConnectLoadHoldsRows(Corrected, locationRows, fileRows);
    HeldRowHash(Corrected, locs, fileRows[i], ConnectLoad(Corrected, locationRows, fileRows).filesByLocation);
    HashRoundTrip(h);
  }

  /**
    The finding end to end: a file persisted without a hash, once the store
    is reopened from the table that holds its row, is in its owner's bucket
    with the hash `Some("NULL")`.
   */
  lemma UnhashedFileReloadsAsNull(st: AppState, locationPath: string, filePath: string,
                                  fileType: FileType, fileLen: nat, timeCreated: nat, timeModified: nat,
                                  locationRows: seq<LocationRow>)
    requires Valid(st) && locationPath in PathSet(st.locations)
    requires RowIndex(st.db, filePath).None?
    requires FreshRows(Initial(), locationRows)
    requires Owned(LoadLocations(Initial(), locationRows).locations,
                   AddFileToLocation(st, true, locationPath, filePath, fileType, fileLen, timeCreated, timeModified, None).db)
    ensures var db := AddFileToLocation(st, true, locationPath, filePath, fileType, fileLen, timeCreated, timeModified, None).db;
      HashHeld(LoadLocations(Initial(), locationRows).locations, db[|st.db|],
               ConnectLoad(AsWritten, locationRows, db).filesByLocation, Some("NULL"))
  {
    var db := AddFileToLocation(st, true, locationPath, filePath, fileType, fileLen, timeCreated, timeModified, None).db;
    assert db[|st.db|].hash == NullHash;
    SentinelRowReloads(locationRows, db, |st.db|);
  }
}
