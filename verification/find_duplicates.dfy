/**
  The duplicate finder's hashing pass. It asks the table for the file
  lengths shared by two or more files, then, size by size, loads the files
  of that length and makes sure each has a cached content hash. The run
  reports its progress through the shared status value and ends with
  `Processed`. Grouping the hashed files into duplicate groups is not part
  of this pass.
 */
module FindDuplicates {
  import opened Wrappers
  import opened Records
  import opened FilesTable
  import opened Store

  /** Number of rows whose file length is `size`. */
  function CountLen(t: Table, size: nat): nat
  {
    if |t| == 0 then 0
    else (if t[0].fileLen == size then 1 else 0) + CountLen(t[1..], size)
  }

  /** A length counted at least once is carried by some row. */
  lemma {:induction false} CountLenWitness(t: Table, size: nat)
    requires CountLen(t, size) > 0
    ensures exists i :: 0 <= i < |t| && t[i].fileLen == size
  {
    if t[0].fileLen != size {
      CountLenWitness(t[1..], size);
      var i :| 0 <= i < |t[1..]| && t[1..][i].fileLen == size;
      assert t[i + 1].fileLen == size;
    }
  }

  /** Tables that differ only in their hash column count lengths alike. */
  lemma {:induction false} CountLenIgnoresHash(t: Table, u: Table, size: nat)
    requires SameFilesExceptHash(t, u)
    ensures CountLen(t, size) == CountLen(u, size)
  {
    if |t| > 0 {
      assert t[0].fileLen == u[0].fileLen;
      assert SameFilesExceptHash(t[1..], u[1..]) by {
        forall i | 0 <= i < |t[1..]| ensures t[1..][i].(hash := u[1..][i].hash) == u[1..][i] {
          assert t[1..][i] == t[i + 1] && u[1..][i] == u[i + 1];
        }
      }
      CountLenIgnoresHash(t[1..], u[1..], size);
    }
  }

  /**
    The lengths, first met at row `k` or later, that at least two rows
    carry; each is listed once, at its first row.
   */
  function SharedSizesFrom(t: Table, k: nat): (r: seq<nat>)
    requires k <= |t|
    ensures forall n :: n in r <==>
      && CountLen(t, n) >= 2
      && (exists j :: k <= j < |t| && t[j].fileLen == n)
      && (forall j :: 0 <= j < k ==> t[j].fileLen != n)
    ensures forall a, b :: 0 <= a < b < |r| ==> r[a] != r[b]
    decreases |t| - k
  {
    if k == |t| then []
    else
      var size := t[k].fileLen;
      var rest := SharedSizesFrom(t, k + 1);
      if CountLen(t, size) >= 2 && forall j :: 0 <= j < k ==> t[j].fileLen != size then
        assert size !in rest;
        [size] + rest
      else
        rest
  }

  /**
    `find_duplicate_file_sizes` (`GROUP BY file_len HAVING COUNT(*) > 1`):
    exactly the lengths carried by two or more rows, each listed once.
   */
  function FindDuplicateFileSizes(t: Table): (r: seq<nat>)
    ensures forall n :: n in r <==> CountLen(t, n) >= 2
    ensures forall a, b :: 0 <= a < b < |r| ==> r[a] != r[b]
  {
    var r := SharedSizesFrom(t, 0);
    assert forall n :: CountLen(t, n) >= 2 ==> n in r by {
      forall n | CountLen(t, n) >= 2 ensures n in r {
        CountLenWitness(t, n);
      }
    }
    r
  }

  /** The files of the rows from `k` on whose length is `size`, in table order. */
  function FilesOfSize(t: Table, size: nat, k: nat): (r: seq<File>)
    requires k <= |t|
    ensures |r| == CountLen(t[k..], size)
    ensures forall f :: f in r ==> exists i :: k <= i < |t| && t[i].fileLen == size && RowToFile(AsWritten, t[i]) == f
    ensures forall i :: k <= i < |t| && t[i].fileLen == size ==> RowToFile(AsWritten, t[i]) in r
    decreases |t| - k
  {
    if k == |t| then []
    else
      var rest := FilesOfSize(t, size, k + 1);
      assert t[k..][1..] == t[k + 1..];
      if t[k].fileLen == size then [RowToFile(AsWritten, t[k])] + rest else rest
  }

  /**
    `get_files_by_size` (`WHERE file_len = ?`): one file per row of that
    length, every field copied from its row and the hash column read as the
    program reads it, so an unhashed row comes back with `Some("NULL")`.
   */
  function GetFilesBySize(db: Table, size: nat): (r: seq<File>)
    ensures |r| == CountLen(db, size)
    ensures forall f :: f in r ==> f.fileLen == size && exists i :: 0 <= i < |db| && RowToFile(AsWritten, db[i]) == f
    ensures forall i :: 0 <= i < |db| && db[i].fileLen == size ==> RowToFile(AsWritten, db[i]) in r
  {
    assert db[0..] == db;
    FilesOfSize(db, size, 0)
  }

  /** `set_processing_message`: the status becomes `Processing(message)` and nothing else changes. */
  function SetProcessingMessage(st: AppState, message: string): (r: AppState)
    ensures r.findDuplicates.state == Processing(message)
    ensures r.findDuplicates.duplicates == st.findDuplicates.duplicates
    ensures r.locations == st.locations && r.filesByLocation == st.filesByLocation && r.db == st.db
  {
    st.(findDuplicates := st.findDuplicates.(state := Processing(message)))
  }

  /** Decimal digits of `n`, as `format!("{}", n)` prints them. */
  predicate IsDigits(s: string)
  {
    forall i :: 0 <= i < |s| ==> '0' <= s[i] <= '9'
  }

  /** Reference reading of a decimal numeral, most significant digit first. */
  function DigitsValue(s: string): nat
    requires IsDigits(s)
    decreases |s|
  {
    if |s| == 0 then 0 else DigitsValue(s[..|s| - 1]) * 10 + (s[|s| - 1] as int - '0' as int)
  }

  /** `{}` of an unsigned integer: its decimal numeral, without leading zeros. */
  function NatToString(n: nat): (s: string)
    ensures |s| > 0 && IsDigits(s)
    ensures s[0] == '0' <==> n == 0
    ensures n == 0 ==> s == "0"
    decreases n
  {
    var digit := [(('0' as int) + n % 10) as char];
    if n < 10 then digit else NatToString(n / 10) + digit
  }

  /** Reading the numeral back gives the number printed. */
  lemma {:induction false} NatToStringValue(n: nat)
    ensures DigitsValue(NatToString(n)) == n
    decreases n
  {
    var s := NatToString(n);
    if n >= 10 {
      NatToStringValue(n / 10);
      assert s[..|s| - 1] == NatToString(n / 10);
    }
  }

  const ScanningMessage: string := "Scanning for file size matches..."

  const SizePrefix: string := "Calculating hashes for files of size "

  /** The status shown while one length is being hashed. */
  function SizeMessage(size: nat): (s: string)
    ensures |s| > |SizePrefix| && s[..|SizePrefix|] == SizePrefix
    ensures IsDigits(s[|SizePrefix|..]) && DigitsValue(s[|SizePrefix|..]) == size
    ensures s != ScanningMessage
  {
    NatToStringValue(size);
    var s := SizePrefix + NatToString(size);
    assert s[|SizePrefix|..] == NatToString(size);
    assert s[0] != ScanningMessage[0];
    s
  }

  /** With a keyed table, a row's path finds that very row. */
  lemma RowIndexOfKey(t: Table, i: int)
    requires KeysUnique(t) && 0 <= i < |t|
    ensures RowIndex(t, t[i].path) == Some(i)
  {
  }

  /** Changing only hashes keeps the key unique. */
  lemma KeysUniqueIgnoresHash(t: Table, u: Table)
    requires SameFilesExceptHash(t, u) && KeysUnique(t)
    ensures KeysUnique(u)
  {
    forall i, j | 0 <= i < j < |u| ensures u[i].path != u[j].path {
      assert t[i].(hash := u[i].hash) == u[i] && t[j].(hash := u[j].hash) == u[j];
    }
  }

  /** Being the same up to hashes is transitive. */
  lemma SameFilesExceptHashTrans(t: Table, u: Table, v: Table)
    requires SameFilesExceptHash(t, u) && SameFilesExceptHash(u, v)
    ensures SameFilesExceptHash(t, v)
  {
    forall i | 0 <= i < |t| ensures t[i].(hash := v[i].hash) == v[i] {
      assert t[i].(hash := u[i].hash) == u[i] && u[i].(hash := v[i].hash) == v[i];
    }
  }

  /** A path that names some file of `files`. */
  predicate Listed(files: seq<File>, path: string)
  {
    exists m :: 0 <= m < |files| && files[m].path == path
  }

  /**
    `out` is `db` after the hash of every file of `listed` was asked for:
    same files, each listed file's row hashed, an unhashed one with the
    digest of its own path, every other row and every row hashed
    beforehand untouched.
   */
  predicate HashedListed(db: Table, out: Table, listed: seq<File>, hashFile: string -> Digest)
  {
    && SameFilesExceptHash(db, out)
    && KeysUnique(out)
    && (forall i :: 0 <= i < |db| && Listed(listed, db[i].path) ==> out[i].hash != NullHash)
    && (forall i :: 0 <= i < |db| && Listed(listed, db[i].path) && db[i].hash == NullHash ==> out[i].hash == hashFile(db[i].path))
    && (forall i :: 0 <= i < |db| && !Listed(listed, db[i].path) ==> out[i] == db[i])
    && (forall i :: 0 <= i < |db| && db[i].hash != NullHash ==> out[i] == db[i])
  }

  /** A file whose row was in `db` still has a row in a table that differs from `db` only in hashes. */
  lemma HashStepIndex(db: Table, out: Table, files: seq<File>, j: nat)
    requires j < |files| && SameFilesExceptHash(db, out)
    requires RowIndex(db, files[j].path).Some?
    ensures RowIndex(out, files[j].path).Some?
  {
    var i0 := RowIndex(db, files[j].path).value;
    assert out[i0].path == files[j].path;
  }

  /** Asking for one more file's hash extends the hashed prefix by that file. */
  lemma HashStep(db: Table, out: Table, files: seq<File>, j: nat, hashFile: string -> Digest)
    requires j < |files| && HashedListed(db, out, files[..j], hashFile)
    requires RowIndex(out, files[j].path).Some?
    ensures HashedListed(db, CalculateFileHash(out, files[j].path, hashFile).1, files[..j + 1], hashFile)
    ensures j + 1 == |files| ==> HashedListed(db, CalculateFileHash(out, files[j].path, hashFile).1, files, hashFile)
  {
    assert j + 1 == |files| ==> files[..j + 1] == files;
    var path := files[j].path;
    var next := CalculateFileHash(out, path, hashFile).1;
    SameFilesExceptHashTrans(db, out, next);
    KeysUniqueIgnoresHash(out, next);
    forall i | 0 <= i < |db| && Listed(files[..j + 1], db[i].path)
      ensures next[i].hash != NullHash
      ensures db[i].hash == NullHash ==> next[i].hash == hashFile(db[i].path)
    {
      ListedSnoc(files, j, db[i].path);
      if db[i].path == path {
        assert out[i].path == path;
        RowIndexOfKey(out, i);
      }
    }
    forall i | 0 <= i < |db| && !Listed(files[..j + 1], db[i].path)
      ensures next[i] == db[i]
    {
      ListedSnoc(files, j, db[i].path);
    }
  }

  /** A path is listed in one more file exactly when it was listed before or names that file. */
  lemma ListedSnoc(files: seq<File>, j: nat, p: string)
    requires j < |files|
    ensures Listed(files[..j + 1], p) <==> Listed(files[..j], p) || files[j].path == p
  {
    assert files[..j + 1][j] == files[j];
    assert forall m :: 0 <= m < j ==> files[..j][m] == files[..j + 1][m];
  }

  /** The paths of `files`, in order. */
  function PathsOf(files: seq<File>): (r: seq<string>)
    ensures |r| == |files| && forall m :: 0 <= m < |files| ==> r[m] == files[m].path
  {
    if |files| == 0 then [] else [files[0].path] + PathsOf(files[1..])
  }

  /**
    The inner loop of `find_file_duplicates`: asks for the hash of every
    file of `files` in turn, and returns the table afterwards.
   */
  function HashFiles(db: Table, files: seq<File>, hashFile: string -> Digest): (r: Table)
    requires KeysUnique(db)
    requires forall m :: 0 <= m < |files| ==> RowIndex(db, files[m].path).Some?
    ensures HashedListed(db, r, files, hashFile)
  {
    if |files| == 0 then
      db
    else
      var j := |files| - 1;
      var prefix := files[..j];
      assert forall m :: 0 <= m < j ==> prefix[m] == files[m];
      var out := HashFiles(db, prefix, hashFile);
      HashStepIndex(db, out, files, j);
      HashStep(db, out, files, j, hashFile);
      CalculateFileHash(out, files[j].path, hashFile).1
  }

  /**
    `out` is `db` after the files of every length in `done` were hashed:
    same files, rows of those lengths hashed, an unhashed one with the
    digest of its own path, every other row and every row hashed
    beforehand untouched.
   */
  predicate HashedSizes(db: Table, out: Table, done: seq<nat>, hashFile: string -> Digest)
  {
    && SameFilesExceptHash(db, out)
    && KeysUnique(out)
    && (forall i :: 0 <= i < |db| && db[i].fileLen in done ==> out[i].hash != NullHash)
    && (forall i :: 0 <= i < |db| && db[i].fileLen in done && db[i].hash == NullHash ==> out[i].hash == hashFile(db[i].path))
    && (forall i :: 0 <= i < |db| && db[i].fileLen !in done ==> out[i] == db[i])
    && (forall i :: 0 <= i < |db| && db[i].hash != NullHash ==> out[i] == db[i])
  }

  /** Every path in `paths` is the path of a row whose length is in `done`. */
  predicate PathsOfSizes(db: Table, paths: seq<string>, done: seq<nat>)
  {
    forall p :: p in paths ==> exists i :: 0 <= i < |db| && db[i].path == p && db[i].fileLen in done
  }

  /** Every row whose length is in `done` has its path in `paths`. */
  predicate SizesCovered(db: Table, paths: seq<string>, done: seq<nat>)
  {
    forall i :: 0 <= i < |db| && db[i].fileLen in done ==> db[i].path in paths
  }

  /** With keys unique, the listed files of one length are exactly the rows of that length. */
  lemma ListedIffSize(cur: Table, size: nat, i: int)
    requires KeysUnique(cur) && 0 <= i < |cur|
    ensures Listed(GetFilesBySize(cur, size), cur[i].path) <==> cur[i].fileLen == size
  {
    var files := GetFilesBySize(cur, size);
    if Listed(files, cur[i].path) {
      var m :| 0 <= m < |files| && files[m].path == cur[i].path;
      assert files[m] in files;
      var i1 :| 0 <= i1 < |cur| && RowToFile(AsWritten, cur[i1]) == files[m];
      assert cur[i1].path == cur[i].path;
    }
    if cur[i].fileLen == size {
      var m :| 0 <= m < |files| && files[m] == RowToFile(AsWritten, cur[i]);
    }
  }

  /** Hashing the files of one more length extends the set of hashed lengths by it. */
  lemma SizeStep(db: Table, cur: Table, done: seq<nat>, size: nat, next: Table, hashFile: string -> Digest)
    requires HashedSizes(db, cur, done, hashFile)
    requires HashedListed(cur, next, GetFilesBySize(cur, size), hashFile)
    ensures HashedSizes(db, next, done + [size], hashFile)
  {
    SameFilesExceptHashTrans(db, cur, next);
    forall i | 0 <= i < |db|
      ensures Listed(GetFilesBySize(cur, size), db[i].path) <==> db[i].fileLen == size
    {
      ListedIffSize(cur, size, i);
    }
  }

  /** The paths asked for while hashing one length are paths of rows of that length. */
  lemma SizeStepPaths(db: Table, cur: Table, done: seq<nat>, size: nat, hashed: seq<string>, paths: seq<string>)
    requires SameFilesExceptHash(db, cur)
    requires PathsOfSizes(db, hashed, done)
    requires var files := GetFilesBySize(cur, size);
      |paths| == |files| && forall m :: 0 <= m < |files| ==> paths[m] == files[m].path
    ensures PathsOfSizes(db, hashed + paths, done + [size])
  {
    var files := GetFilesBySize(cur, size);
    forall p | p in hashed + paths
      ensures exists i :: 0 <= i < |db| && db[i].path == p && db[i].fileLen in done + [size]
    {
      if p in hashed {
        var i :| 0 <= i < |db| && db[i].path == p && db[i].fileLen in done;
        assert db[i].fileLen in done + [size];
      } else {
        var m :| 0 <= m < |paths| && paths[m] == p;
        assert files[m] in files;
        var i1 :| 0 <= i1 < |cur| && RowToFile(AsWritten, cur[i1]) == files[m];
        assert db[i1].path == p && db[i1].fileLen == size;
      }
    }
  }

  /** The paths asked for while hashing one length are every path of that length. */
  lemma SizeStepCovers(db: Table, cur: Table, done: seq<nat>, size: nat, hashed: seq<string>)
    requires SameFilesExceptHash(db, cur)
    requires SizesCovered(db, hashed, done)
    ensures SizesCovered(db, hashed + PathsOf(GetFilesBySize(cur, size)), done + [size])
  {
    var files := GetFilesBySize(cur, size);
    var asked := PathsOf(files);
    forall i | 0 <= i < |db| && db[i].fileLen in done + [size]
      ensures db[i].path in hashed + asked
    {
      if db[i].fileLen !in done {
        assert cur[i].fileLen == size;
        var m :| 0 <= m < |files| && files[m] == RowToFile(AsWritten, cur[i]);
        assert asked[m] == db[i].path;
      }
    }
  }

  /**
    The outer loop's progress after the lengths `done`: the table is
    hashed for them, and `hashed` lists exactly the paths of their rows.
   */
  predicate Progress(db: Table, out: Table, hashed: seq<string>, done: seq<nat>, hashFile: string -> Digest)
  {
    HashedSizes(db, out, done, hashFile) && PathsOfSizes(db, hashed, done) && SizesCovered(db, hashed, done)
  }

  /** Having hashed every shared length is having hashed every row whose length is shared. */
  lemma SharedSizesHashed(db: Table, out: Table, hashed: seq<string>, hashFile: string -> Digest)
    requires Progress(db, out, hashed, FindDuplicateFileSizes(db), hashFile)
    ensures forall i :: 0 <= i < |db| && CountLen(db, db[i].fileLen) >= 2 ==> out[i].hash != NullHash
    ensures forall i :: 0 <= i < |db| && CountLen(db, db[i].fileLen) >= 2 && db[i].hash == NullHash ==>
      out[i].hash == hashFile(db[i].path)
    ensures forall i :: 0 <= i < |db| && CountLen(db, db[i].fileLen) < 2 ==> out[i] == db[i]
  {
  }

  /** Having asked for every shared length is having asked for exactly the paths of rows whose length is shared. */
  lemma SharedSizesAsked(db: Table, out: Table, hashed: seq<string>, hashFile: string -> Digest)
    requires Progress(db, out, hashed, FindDuplicateFileSizes(db), hashFile)
    ensures forall i :: 0 <= i < |db| && CountLen(db, db[i].fileLen) >= 2 ==> db[i].path in hashed
    ensures forall p :: p in hashed ==> exists i :: 0 <= i < |db| && db[i].path == p && CountLen(db, db[i].fileLen) >= 2
  {
  }

  lemma TakeOneMore(s: seq<nat>, k: nat)
    requires k < |s|
    ensures s[..k + 1] == s[..k] + [s[k]]
  {
  }

  /**
    One round of the outer loop of `find_file_duplicates`: loads the files
    of length `size` and asks for each one's hash.
   */
  method HashSize(db: Table, cur: Table, done: seq<nat>, size: nat, hashed: seq<string>, hashFile: string -> Digest)
    returns (next: Table, paths: seq<string>)
    requires Progress(db, cur, hashed, done, hashFile)
    ensures paths == PathsOf(GetFilesBySize(cur, size))
    ensures Progress(db, next, hashed + paths, done + [size], hashFile)
  {
    var files := GetFilesBySize(cur, size);
    forall m | 0 <= m < |files| ensures RowIndex(cur, files[m].path).Some? {
      assert files[m] in files;
    }
    var out := HashFiles(cur, files, hashFile);
    var asked := PathsOf(files);
    SizeStep(db, cur, done, size, out, hashFile);
    SizeStepPaths(db, cur, done, size, hashed, asked);
    SizeStepCovers(db, cur, done, size, hashed);
    next, paths := out, asked;
  }

  /**
    The outer loop of `find_file_duplicates`: for each shared length in
    turn, sets the size message, then asks for the hash of every file of
    that length. `statuses` lists the status values set, starting with
    the status on entry.
   */
  method HashAllSizes(st: AppState, hashFile: string -> Digest)
    returns (r: AppState, statuses: seq<StatusType>, hashed: seq<string>)
    requires KeysUnique(st.db)
    ensures r.locations == st.locations && r.filesByLocation == st.filesByLocation
    ensures r.findDuplicates.duplicates == st.findDuplicates.duplicates
    ensures Progress(st.db, r.db, hashed, FindDuplicateFileSizes(st.db), hashFile)
    ensures var sizes := FindDuplicateFileSizes(st.db);
      && |statuses| == |sizes| + 1 && statuses[0] == st.findDuplicates.state
      && forall k :: 0 <= k < |sizes| ==> statuses[k + 1] == Processing(SizeMessage(sizes[k]))
  {
    var cur := st;
    statuses := [st.findDuplicates.state];
    hashed := [];
    var sizes := FindDuplicateFileSizes(st.db);
    var k := 0;
    while k < |sizes|
      invariant 0 <= k <= |sizes|
      invariant cur.locations == st.locations && cur.filesByLocation == st.filesByLocation
      invariant cur.findDuplicates.duplicates == st.findDuplicates.duplicates
      invariant Progress(st.db, cur.db, hashed, sizes[..k], hashFile)
      invariant |statuses| == k + 1 && statuses[0] == st.findDuplicates.state
      invariant forall m :: 0 <= m < k ==> statuses[m + 1] == Processing(SizeMessage(sizes[m]))
    {
      var size := sizes[k];
      cur := SetProcessingMessage(cur, SizeMessage(size));
      statuses := statuses + [cur.findDuplicates.state];
      var next, paths := HashSize(st.db, cur.db, sizes[..k], size, hashed, hashFile);
      TakeOneMore(sizes, k);
      cur := cur.(db := next);
      hashed := hashed + paths;
      k := k + 1;
    }
    assert sizes[..k] == sizes;
    r := cur;
  }

  /**
    `find_file_duplicates`: every file whose length is shared ends with a
    cached hash, the digest of its own path when it had none (hashes
    already cached are kept); files with a unique length are never
    hashed; locations, buckets, duplicates and every other column stay as
    they were; the status moves through `Processing` messages and ends at
    `Processed`. `statuses` lists the status values in the order they are
    set; `hashed` lists the paths handed to `calculate_file_hash`, which
    are exactly the paths of the rows whose length is shared.
   */
  method FindFileDuplicates(st: AppState, hashFile: string -> Digest)
    returns (r: AppState, statuses: seq<StatusType>, hashed: seq<string>)
    requires KeysUnique(st.db)
    ensures r.locations == st.locations && r.filesByLocation == st.filesByLocation
    ensures r.findDuplicates.duplicates == st.findDuplicates.duplicates
    ensures SameFilesExceptHash(st.db, r.db)
    ensures forall i :: 0 <= i < |st.db| && CountLen(st.db, st.db[i].fileLen) >= 2 ==> r.db[i].hash != NullHash
    ensures forall i :: 0 <= i < |st.db| && CountLen(st.db, st.db[i].fileLen) >= 2 && st.db[i].hash == NullHash ==>
      r.db[i].hash == hashFile(st.db[i].path)
    ensures forall i :: 0 <= i < |st.db| && CountLen(st.db, st.db[i].fileLen) < 2 ==> r.db[i] == st.db[i]
    ensures forall i :: 0 <= i < |st.db| && st.db[i].hash != NullHash ==> r.db[i] == st.db[i]
    ensures forall p :: p in hashed ==> exists i :: 0 <= i < |st.db| && st.db[i].path == p && CountLen(st.db, st.db[i].fileLen) >= 2
    ensures forall i :: 0 <= i < |st.db| && CountLen(st.db, st.db[i].fileLen) >= 2 ==> st.db[i].path in hashed
    ensures r.findDuplicates.state == Processed
    ensures var sizes := FindDuplicateFileSizes(st.db);
      && |statuses| == |sizes| + 2
      && statuses[0] == Processing(ScanningMessage) && statuses[|statuses| - 1] == Processed
      && forall k :: 0 <= k < |sizes| ==> statuses[k + 1] == Processing(SizeMessage(sizes[k]))
  {
    var scanning := SetProcessingMessage(st, ScanningMessage);
    var cur, sizeStatuses;
    cur, sizeStatuses, hashed := HashAllSizes(scanning, hashFile);
    r := cur.(findDuplicates := cur.findDuplicates.(state := Processed));
    statuses := sizeStatuses + [r.findDuplicates.state];
    SharedSizesHashed(scanning.db, r.db, hashed, hashFile);
    SharedSizesAsked(scanning.db, r.db, hashed, hashFile);
    assert scanning.db == st.db;
  }
}
