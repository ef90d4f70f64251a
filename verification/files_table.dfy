/**
  The durable `files` table, as the statements the store issues use it.
  Rows are kept in insertion order; `path` is the primary key. The hash
  column holds the text "NULL" for a file whose digest is not known yet
  (the sentinel is a four-letter string, not SQL's NULL).
 */
module FilesTable {
  import opened Wrappers
  import opened Records

  datatype Row = Row(
    path: string,
    locationPath: string,
    fileType: FileType,
    fileLen: nat,
    timeCreated: nat,
    timeModified: nat,
    hash: string)

  type Table = seq<Row>

  /** The text stored in the hash column for "not hashed yet". */
  const NullHash: string := "NULL"

  /** An upper-case hexadecimal SHA-256 digest, the only thing the hasher produces. */
  predicate IsHexDigest(s: string)
  {
    |s| == 64 && forall k :: 0 <= k < |s| ==> s[k] in "0123456789ABCDEF"
  }

  type Digest = s: string | IsHexDigest(s)
    witness seq(64, k => '0')

  /** No digest can be mistaken for the sentinel. */
  lemma DigestIsNotNull(d: Digest)
    ensures d != NullHash
  {
    assert |d| != |NullHash|;
  }

  /** The primary key: no two rows share a path. */
  predicate KeysUnique(t: Table)
  {
    forall i, j :: 0 <= i < j < |t| ==> t[i].path != t[j].path
  }

  /** `WHERE path = ?`: the index of the first row with `path`, if any. */
  function RowIndex(t: Table, path: string): (r: Option<nat>)
    ensures r.None? <==> forall i :: 0 <= i < |t| ==> t[i].path != path
    ensures r.Some? ==> r.value < |t| && t[r.value].path == path
    ensures r.Some? ==> forall j :: 0 <= j < r.value ==> t[j].path != path
  {
    if |t| == 0 then None
    else if t[0].path == path then Some(0)
    else match RowIndex(t[1..], path)
      case None => None
      case Some(i) => Some(i + 1)
  }

  /** The text persisted for an in-memory hash: the hash itself, or the sentinel. */
  function StoredHash(h: Option<string>): (s: string)
    ensures h.None? ==> s == NullHash
    ensures h.Some? ==> s == h.value
  {
    match h
    case Some(x) => x
    case None => NullHash
  }

  /** The hash column read back as `Option<String>`, as written: the sentinel becomes `Some("NULL")`. */
  function LoadedHashAsWritten(stored: string): (h: Option<string>)
    ensures h.Some? && h.value == stored
  {
    Some(stored)
  }

  /** The as-written reader does not give back what was stored for an unhashed file. */
  lemma LoadedHashAsWrittenLosesAbsence()
    ensures LoadedHashAsWritten(StoredHash(None)) == Some("NULL")
    ensures LoadedHashAsWritten(StoredHash(None)) != None
  {
  }

  /** The hash column read back with the sentinel recognised as "not hashed yet". */
  function LoadedHash(stored: string): (h: Option<string>)
    ensures h.None? <==> stored == NullHash
    ensures h.Some? ==> h.value == stored
  {
    if stored == NullHash then None else Some(stored)
  }

  /** Storing a hash and reading it back gives the same hash, for every value a file can carry. */
  lemma {:induction false} HashRoundTrip(h: Option<string>)
    requires h != Some(NullHash)
    ensures LoadedHash(StoredHash(h)) == h
  {
    match h
    case None =>
    case Some(x) =>
      assert StoredHash(h) == x;
  }

  /** `INSERT ... ON CONFLICT(path) DO NOTHING`. */
  function InsertIgnore(t: Table, row: Row): (r: Table)
    ensures RowIndex(t, row.path).Some? ==> r == t
    ensures RowIndex(t, row.path).None? ==> r == t + [row]
    ensures KeysUnique(t) ==> KeysUnique(r)
  {
    if RowIndex(t, row.path).Some? then t else t + [row]
  }

  /** `DELETE FROM files WHERE location_path = ?`: keeps every other row, in order. */
  function DeleteWhereLocation(t: Table, locationPath: string): (r: Table)
    ensures forall row :: row in r <==> row in t && row.locationPath != locationPath
    ensures |r| <= |t|
    ensures KeysUnique(t) ==> KeysUnique(r)
  {
    if |t| == 0 then []
    else
      var rest := DeleteWhereLocation(t[1..], locationPath);
      assert forall row :: row in t[1..] ==> row in t;
      assert KeysUnique(t) ==> forall row :: row in rest ==> row.path != t[0].path;
      if t[0].locationPath == locationPath then rest else [t[0]] + rest
  }

  /** `UPDATE files SET hash_256 = ? WHERE path = ?`. */
  function SetHash(t: Table, path: string, h: string): (r: Table)
    ensures |r| == |t|
    ensures forall i :: 0 <= i < |t| && t[i].path == path ==> r[i] == t[i].(hash := h)
    ensures forall i :: 0 <= i < |t| && t[i].path != path ==> r[i] == t[i]
  {
    if |t| == 0 then []
    else [if t[0].path == path then t[0].(hash := h) else t[0]] + SetHash(t[1..], path, h)
  }

  /** Two tables hold the same files, row by row, except perhaps for their hash column. */
  predicate SameFilesExceptHash(t: Table, u: Table)
  {
    |t| == |u| && forall i :: 0 <= i < |t| ==> t[i].(hash := u[i].hash) == u[i]
  }

  /**
    How a stored hash column is turned back into an optional hash:
    `AsWritten` is what the program does, `Corrected` recognises the
    sentinel.
   */
  datatype HashReader = AsWritten | Corrected

  function ReadHash(reader: HashReader, stored: string): (h: Option<string>)
    ensures reader == AsWritten ==> h == Some(stored)
    ensures reader == Corrected ==> (h.None? <==> stored == NullHash)
    ensures reader == Corrected && h.Some? ==> h.value == stored
  {
    match reader
    case AsWritten => LoadedHashAsWritten(stored)
    case Corrected => LoadedHash(stored)
  }

  /** The file a `SELECT path, file_type, file_len, time_created, time_modified, hash_256` row decodes to. */
  function RowToFile(reader: HashReader, row: Row): (f: File)
    ensures f.path == row.path && f.fileType == row.fileType && f.fileLen == row.fileLen
    ensures f.timeCreated == row.timeCreated && f.timeModified == row.timeModified
    ensures reader == AsWritten ==> f.hash == Some(row.hash)
    ensures reader == Corrected ==> (f.hash.None? <==> row.hash == NullHash)
    ensures reader == Corrected && f.hash.Some? ==> f.hash.value == row.hash
  {
    File(row.path, row.fileType, row.fileLen, row.timeCreated, row.timeModified, ReadHash(reader, row.hash))
  }
}
