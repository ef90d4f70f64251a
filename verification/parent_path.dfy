/**
  Ownership resolution: which location is the longest proper ancestor of a
  path. The source folds over the locations in order and keeps a candidate
  only when it is a parent and strictly longer (by text length) than the
  one held so far, so among equally long candidates the first one wins.

  The fold is stated for any ownership test `owns`; `get_longest_parent_path`
  is the fold with `owns(p) = is_path_parent(child, p)`.
 */
module ParentPath {
  import opened Wrappers
  import opened Paths
  import opened Locations

  /** The ownership test of `get_longest_parent_path` for `child`. */
  function ParentTest(child: string): (owns: string -> bool)
    ensures forall p :: owns(p) == IsPathParent(child, p)
  {
    p => IsPathParent(child, p)
  }

  /** The location at index `i` is owning, is at least as long as every owning one, and strictly longer than every earlier one. */
  ghost predicate FirstLongest(owns: string -> bool, locs: seq<Location>, i: int)
  {
    && 0 <= i < |locs|
    && owns(locs[i].path)
    && |locs[i].path| > 0
    && (forall j :: 0 <= j < |locs| && owns(locs[j].path) ==> |locs[j].path| <= |locs[i].path|)
    && (forall j :: 0 <= j < i && owns(locs[j].path) ==> |locs[j].path| < |locs[i].path|)
  }

  /** Reference definition of the fold's final value: empty when no owning location has a non-empty path, else the first longest. */
  ghost predicate LongestSpec(owns: string -> bool, locs: seq<Location>, s: string)
  {
    if s == "" then
      forall i :: 0 <= i < |locs| && owns(locs[i].path) ==> locs[i].path == ""
    else
      exists i :: FirstLongest(owns, locs, i) && locs[i].path == s
  }

  /** The reference definition has one solution at most. */
  lemma LongestSpecUnique(owns: string -> bool, locs: seq<Location>, s: string, t: string)
    requires LongestSpec(owns, locs, s) && LongestSpec(owns, locs, t)
    ensures s == t
  {
    if s != "" && t != "" {
      var i :| FirstLongest(owns, locs, i) && locs[i].path == s;
      var k :| FirstLongest(owns, locs, k) && locs[k].path == t;
      assert |s| == |t|;
      assert i == k;
    }
  }

  /** Every owning location is at most as long as the reference result. */
  lemma OwnersBoundedBy(owns: string -> bool, locs: seq<Location>, held: string)
    requires LongestSpec(owns, locs, held)
    ensures forall j :: 0 <= j < |locs| && owns(locs[j].path) ==> |locs[j].path| <= |held|
  {
    if held != "" {
      var i :| FirstLongest(owns, locs, i) && locs[i].path == held;
    }
  }

  /** One step of the fold: visiting the last location of `locs` keeps the reference definition true. */
  lemma LongestStep(owns: string -> bool, locs: seq<Location>, held: string)
    requires |locs| > 0
    requires LongestSpec(owns, locs[..|locs| - 1], held)
    ensures var l := locs[|locs| - 1];
      LongestSpec(owns, locs, if owns(l.path) && |l.path| > |held| then l.path else held)
  {
    var prefix := locs[..|locs| - 1];
    var l := locs[|locs| - 1];
    assert forall j :: 0 <= j < |prefix| ==> prefix[j] == locs[j];
    if owns(l.path) && |l.path| > |held| {
      OwnersBoundedBy(owns, prefix, held);
      assert FirstLongest(owns, locs, |locs| - 1);
    } else if held != "" {
      var i :| FirstLongest(owns, prefix, i) && prefix[i].path == held;
      assert FirstLongest(owns, locs, i);
    }
  }

  /** The accumulator `file_parent_location` after the fold has visited all of `locs`. */
  function LongestSoFar(owns: string -> bool, locs: seq<Location>): (r: string)
    ensures LongestSpec(owns, locs, r)
  {
    if |locs| == 0 then ""
    else
      var held := LongestSoFar(owns, locs[..|locs| - 1]);
      var l := locs[|locs| - 1];
      LongestStep(owns, locs, held);
      if owns(l.path) && |l.path| > |held| then l.path else held
  }

  /** A non-empty fold result is the path of one of the locations, and an owning one. */
  lemma LongestSoFarMember(owns: string -> bool, locs: seq<Location>)
    ensures LongestSoFar(owns, locs) != "" ==> LongestSoFar(owns, locs) in PathSet(locs) && owns(LongestSoFar(owns, locs))
  {
    var s := LongestSoFar(owns, locs);
    if s != "" {
      var i :| FirstLongest(owns, locs, i) && locs[i].path == s;
      assert locs[i] in locs;
    }
  }

  /** `get_longest_parent_path`: the owning location's path, or none when nothing owns `child`. */
  function LongestParentPath(child: string, locs: seq<Location>): (r: Option<string>)
    ensures r.None? <==> forall i :: 0 <= i < |locs| && IsPathParent(child, locs[i].path) ==> |locs[i].path| == 0
    ensures r.Some? ==> IsPathParent(child, r.value) && |r.value| > 0
    ensures r.Some? ==> r.value in PathSet(locs)
    ensures r.Some? ==> forall j :: 0 <= j < |locs| && IsPathParent(child, locs[j].path) ==> |locs[j].path| <= |r.value|
    ensures r.Some? ==> r.value != child
  {
    var owns := ParentTest(child);
    var s := LongestSoFar(owns, locs);
    LongestSoFarMember(owns, locs);
    OwnersBoundedBy(owns, locs, s);
    if |s| > 0 then
      NeverOwnParent(child);
      Some(s)
    else None
  }

  /**
    Tie-break: the result is the first parent of maximal length, since a
    later candidate replaces the held one only when strictly longer.
   */
  lemma LongestParentPathFirstWins(child: string, locs: seq<Location>)
    ensures var r := LongestParentPath(child, locs);
      r.Some? ==> exists i :: FirstLongest(ParentTest(child), locs, i) && locs[i].path == r.value
  {
  }

  /** Where each element of a list with one inserted location comes from. */
  lemma InsertIndex(locs: seq<Location>, k: nat, l: Location)
    requires k <= |locs|
    ensures |locs[..k] + [l] + locs[k..]| == |locs| + 1
    ensures forall j :: 0 <= j < |locs| + 1 ==>
      (locs[..k] + [l] + locs[k..])[j] == (if j < k then locs[j] else if j == k then l else locs[j - 1])
  {
  }

  /** Inserting a location that does not own or has an empty path keeps "no owner" true. */
  lemma NoOwnerInsert(owns: string -> bool, locs: seq<Location>, k: nat, l: Location)
    requires k <= |locs|
    requires LongestSpec(owns, locs, "")
    requires !owns(l.path) || l.path == ""
    ensures LongestSpec(owns, locs[..k] + [l] + locs[k..], "")
  {
    InsertIndex(locs, k, l);
  }

  /** Inserting a location no longer than `n` (or not owning) keeps every owning location of the first `m` no longer than `n`. */
  lemma InsertKeepsBound(owns: string -> bool, locs: seq<Location>, k: nat, l: Location, m: nat, n: nat, strict: bool)
    requires k <= |locs| && m <= |locs|
    requires forall j :: 0 <= j < m && owns(locs[j].path) ==> (if strict then |locs[j].path| < n else |locs[j].path| <= n)
    requires !owns(l.path) || (if strict then |l.path| < n else |l.path| <= n)
    ensures var bigger := locs[..k] + [l] + locs[k..];
      forall j :: 0 <= j < (if m <= k then m else m + 1) && owns(bigger[j].path) ==>
        (if strict then |bigger[j].path| < n else |bigger[j].path| <= n)
  {
    var bigger := locs[..k] + [l] + locs[k..];
    InsertIndex(locs, k, l);
    forall j | 0 <= j < (if m <= k then m else m + 1) && owns(bigger[j].path)
      ensures if strict then |bigger[j].path| < n else |bigger[j].path| <= n
    {
      if j != k {
        var j0 := if j < k then j else j - 1;
        assert bigger[j] == locs[j0];
      }
    }
  }

  /** The first longest owning location stays first longest, one place on if the insertion is before it. */
  lemma FirstLongestInsert(owns: string -> bool, locs: seq<Location>, k: nat, l: Location, i: nat)
    requires k <= |locs| && FirstLongest(owns, locs, i)
    requires !owns(l.path) || |l.path| < |locs[i].path|
    ensures FirstLongest(owns, locs[..k] + [l] + locs[k..], if i < k then i else i + 1)
  {
    var bigger := locs[..k] + [l] + locs[k..];
    InsertIndex(locs, k, l);
    InsertKeepsBound(owns, locs, k, l, |locs|, |locs[i].path|, false);
    InsertKeepsBound(owns, locs, k, l, i, |locs[i].path|, true);
  }

  /** Inserting a location that does not own, is empty, or is shorter than the owner keeps the owner. */
  lemma OwnerInsert(owns: string -> bool, locs: seq<Location>, k: nat, l: Location, s: string)
    requires k <= |locs| && s != ""
    requires LongestSpec(owns, locs, s)
    requires !owns(l.path) || l.path == "" || |l.path| < |s|
    ensures LongestSpec(owns, locs[..k] + [l] + locs[k..], s)
  {
    var i :| FirstLongest(owns, locs, i) && locs[i].path == s;
    FirstLongestInsert(owns, locs, k, l, i);
    var i' := if i < k then i else i + 1;
    assert (locs[..k] + [l] + locs[k..])[i'] == locs[i];
  }

  /** The reference definition survives inserting a location that does not own, is empty, or is shorter than the result. */
  lemma LongestSpecInsert(owns: string -> bool, locs: seq<Location>, k: nat, l: Location, s: string)
    requires k <= |locs|
    requires LongestSpec(owns, locs, s)
    requires !owns(l.path) || l.path == "" || |l.path| < |s|
    ensures LongestSpec(owns, locs[..k] + [l] + locs[k..], s)
  {
    if s == "" {
      NoOwnerInsert(owns, locs, k, l);
    } else {
      OwnerInsert(owns, locs, k, l, s);
    }
  }

  /** Inserting a location anywhere leaves the result alone when it is no parent, has an empty path, or is shorter than the result. */
  lemma LongestParentPathInsert(child: string, locs: seq<Location>, k: nat, l: Location)
    requires k <= |locs|
    requires || !IsPathParent(child, l.path)
             || l.path == ""
             || (LongestParentPath(child, locs).Some? && |l.path| < |LongestParentPath(child, locs).value|)
    ensures LongestParentPath(child, locs[..k] + [l] + locs[k..]) == LongestParentPath(child, locs)
  {
    var owns := ParentTest(child);
    var bigger := locs[..k] + [l] + locs[k..];
    var s := LongestSoFar(owns, locs);
    LongestSpecInsert(owns, locs, k, l, s);
    LongestSpecUnique(owns, bigger, s, LongestSoFar(owns, bigger));
  }

  /** The fold reads nothing of a location but its path. */
  lemma {:induction false} LongestSoFarSamePaths(owns: string -> bool, a: seq<Location>, b: seq<Location>)
    requires |a| == |b|
    requires forall j :: 0 <= j < |a| ==> a[j].path == b[j].path
    ensures LongestSoFar(owns, a) == LongestSoFar(owns, b)
    decreases |a|
  {
    if |a| > 0 {
      var n := |a| - 1;
      LongestSoFarSamePaths(owns, a[..n], b[..n]);
    }
  }

  /** Changing the types or states of locations does not change which one owns a path. */
  lemma LongestParentPathSamePaths(child: string, a: seq<Location>, b: seq<Location>)
    requires |a| == |b|
    requires forall j :: 0 <= j < |a| ==> a[j].path == b[j].path
    ensures LongestParentPath(child, a) == LongestParentPath(child, b)
  {
    LongestSoFarSamePaths(ParentTest(child), a, b);
  }

  /** The set of paths of a location list. */
  function PathSet(locs: seq<Location>): set<string>
  {
    set l | l in locs :: l.path
  }

  /** Appending a location adds its path to the set. */
  lemma PathSetAppend(locs: seq<Location>, l: Location)
    ensures PathSet(locs + [l]) == PathSet(locs) + {l.path}
  {
    var r := locs + [l];
    forall p | p in PathSet(r) ensures p in PathSet(locs) + {l.path} {
      var m :| m in r && m.path == p;
      if m != l {
        assert m in locs;
      }
    }
    forall p | p in PathSet(locs) ensures p in PathSet(r) {
      var m :| m in locs && m.path == p;
      assert m in r;
    }
    assert l in r;
  }

  /** The position of a path of the set in the list. */
  lemma PathIndex(locs: seq<Location>, p: string) returns (j: nat)
    requires p in PathSet(locs)
    ensures j < |locs| && locs[j].path == p
  {
    var l :| l in locs && l.path == p;
    j :| 0 <= j < |locs| && locs[j] == l;
  }

  /** A location of `x` has a namesake in any list with the same path set. */
  lemma SamePathElsewhere(x: seq<Location>, y: seq<Location>, j: int)
    requires PathSet(x) == PathSet(y) && 0 <= j < |x|
    ensures exists k :: 0 <= k < |y| && y[k].path == x[j].path
  {
    assert x[j] in x;
    assert x[j].path in PathSet(y);
    var m :| m in y && m.path == x[j].path;
    var k :| 0 <= k < |y| && y[k] == m;
  }

  /** Lists with the same path set agree on whether anything owns. */
  lemma OwnerTransfers(owns: string -> bool, a: seq<Location>, b: seq<Location>, s: string, t: string)
    requires PathSet(a) == PathSet(b)
    requires LongestSpec(owns, a, s) && LongestSpec(owns, b, t)
    requires s != ""
    ensures t != ""
  {
    var i :| FirstLongest(owns, a, i) && a[i].path == s;
    SamePathElsewhere(a, b, i);
    var k :| 0 <= k < |b| && b[k].path == a[i].path;
    assert owns(b[k].path) && b[k].path != "";
  }

  /** With canonical paths, lists with the same path set have the same reference result. */
  lemma LongestSpecOrderFree(child: string, a: seq<Location>, b: seq<Location>, s: string, t: string)
    requires PathSet(a) == PathSet(b)
    requires forall p :: p in PathSet(a) ==> Canonical(p)
    requires LongestSpec(ParentTest(child), a, s) && LongestSpec(ParentTest(child), b, t)
    ensures s == t
  {
    var owns := ParentTest(child);
    if s != "" {
      OwnerTransfers(owns, a, b, s, t);
      var i :| FirstLongest(owns, a, i) && a[i].path == s;
      var k :| FirstLongest(owns, b, k) && b[k].path == t;
      SamePathElsewhere(a, b, i);
      SamePathElsewhere(b, a, k);
      assert |s| == |t|;
      assert a[i] in a;
      assert s in PathSet(a) && t in PathSet(a);
      CanonicalAncestorsByLength(child, s, t);
    } else if t != "" {
      OwnerTransfers(owns, b, a, t, s);
    }
  }

  /**
    With canonical location paths the owner does not depend on the order
    (or repetition) of the locations: only the set of paths matters.
   */
  lemma LongestParentPathOrderFree(child: string, a: seq<Location>, b: seq<Location>)
    requires PathSet(a) == PathSet(b)
    requires forall p :: p in PathSet(a) ==> Canonical(p)
    ensures LongestParentPath(child, a) == LongestParentPath(child, b)
  {
    var owns := ParentTest(child);
    LongestSpecOrderFree(child, a, b, LongestSoFar(owns, a), LongestSoFar(owns, b));
  }
}
