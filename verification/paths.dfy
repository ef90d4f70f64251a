/**
  Filesystem paths as `std::path::Path` sees them on a Unix system.

  A path string is read as an optional root followed by its components:
  the text is split at every '/', empty pieces are dropped (so `a//b` and
  `a/b/` mean `a/b`), and a `.` piece is dropped unless it is the very
  first piece of a relative path (`./a` keeps its leading current-directory
  component). Two paths are equal exactly when their roots and component
  lists are equal, which is how `Path`'s `==` compares them.
 */
module Paths {
  import opened Wrappers

  datatype Path = Path(absolute: bool, parts: seq<string>)

  /** The pieces of `s` between its '/' separators, empty pieces included. */
  function Split(s: string): (r: seq<string>)
    ensures |r| >= 1
    ensures forall k :: 0 <= k < |r| ==> '/' !in r[k]
  {
    if |s| == 0 then [""]
    else if s[0] == '/' then [""] + Split(s[1..])
    else
      var rest := Split(s[1..]);
      [[s[0]] + rest[0]] + rest[1..]
  }

  /** Keeps the pieces that are components; `first` marks the leading piece. */
  function KeepParts(pieces: seq<string>, first: bool): (r: seq<string>)
    ensures forall k :: 0 <= k < |r| ==> r[k] != ""
    ensures forall k :: 0 <= k < |r| ==> r[k] in pieces
  {
    if |pieces| == 0 then []
    else
      var keep := pieces[0] != "" && (pieces[0] != "." || first);
      (if keep then [pieces[0]] else []) + KeepParts(pieces[1..], false)
  }

  /** `Path::new(s)` viewed through its components. */
  function Parse(s: string): (p: Path)
    ensures forall k :: 0 <= k < |p.parts| ==> p.parts[k] != "" && '/' !in p.parts[k]
  {
    Path(|s| > 0 && s[0] == '/', KeepParts(Split(s), true))
  }

  /** Components joined by single separators. */
  function Join(parts: seq<string>): string
  {
    if |parts| == 0 then ""
    else if |parts| == 1 then parts[0]
    else Join(parts[..|parts| - 1]) + "/" + parts[|parts| - 1]
  }

  /** The shortest text naming `p`: root, then components joined by '/'. */
  function Render(p: Path): string
  {
    (if p.absolute then "/" else "") + Join(p.parts)
  }

  /** A path string is canonical when it is already its own shortest spelling. */
  predicate Canonical(s: string)
  {
    Render(Parse(s)) == s
  }

  /** `Path::parent`: the path without its last component, or none for a root or empty path. */
  function Parent(p: Path): (r: Option<Path>)
    ensures r.None? <==> |p.parts| == 0
    ensures r.Some? ==> r.value.absolute == p.absolute && r.value.parts == p.parts[..|p.parts| - 1]
  {
    if |p.parts| == 0 then None else Some(Path(p.absolute, p.parts[..|p.parts| - 1]))
  }

  /** The loop of `is_path_parent`: does walking up from `p` with `parent()` ever reach `target`? */
  function WalkUp(p: Path, target: Path): (b: bool)
    ensures b ==> target.absolute == p.absolute && |target.parts| < |p.parts|
    decreases |p.parts|
  {
    match Parent(p)
    case None => false
    case Some(q) => q == target || WalkUp(q, target)
  }

  /** `is_path_parent(child, parent)`: the walk starts at `child.parent()`, never at `child` itself. */
  function IsPathParent(child: string, parent: string): (b: bool)
    ensures b ==> Parse(parent).absolute == Parse(child).absolute && |Parse(parent).parts| < |Parse(child).parts|
  {
    WalkUp(Parse(child), Parse(parent))
  }

  /** Reference definition: `a` is a proper ancestor of `c`, compared component by component. */
  predicate IsStrictAncestor(a: Path, c: Path)
  {
    a.absolute == c.absolute && |a.parts| < |c.parts| && a.parts == c.parts[..|a.parts|]
  }

  /** The walk reaches `target` exactly when `target` is a proper ancestor of `p`. */
  lemma {:induction false} WalkUpIff(p: Path, target: Path)
    ensures WalkUp(p, target) <==> IsStrictAncestor(target, p)
    decreases |p.parts|
  {
    if |p.parts| > 0 {
      var q := Path(p.absolute, p.parts[..|p.parts| - 1]);
      WalkUpIff(q, target);
      if IsStrictAncestor(target, p) && target != q {
        assert |target.parts| != |q.parts|;
        assert q.parts[..|target.parts|] == p.parts[..|target.parts|];
      }
      if IsStrictAncestor(target, q) {
        assert q.parts[..|target.parts|] == p.parts[..|target.parts|];
      }
    }
  }

  /** `is_path_parent` decides whole-path proper ancestry, not a text prefix test. */
  lemma IsPathParentIff(child: string, parent: string)
    ensures IsPathParent(child, parent) <==> IsStrictAncestor(Parse(parent), Parse(child))
  {
    WalkUpIff(Parse(child), Parse(parent));
  }

  /** A path is never its own parent. */
  lemma NeverOwnParent(p: string)
    ensures !IsPathParent(p, p)
  {
    IsPathParentIff(p, p);
  }

  /** A proper ancestor of a proper ancestor is a proper ancestor. */
  lemma IsPathParentTransitive(a: string, b: string, c: string)
    requires IsPathParent(a, b) && IsPathParent(b, c)
    ensures IsPathParent(a, c)
  {
    IsPathParentIff(a, b);
    IsPathParentIff(b, c);
    IsPathParentIff(a, c);
    var pa, pb, pc := Parse(a).parts, Parse(b).parts, Parse(c).parts;
    assert pc == pb[..|pc|] == pa[..|pb|][..|pc|] == pa[..|pc|];
  }

  /** Splitting after a separator-free word extends that word's piece. */
  lemma {:induction false} SplitWord(w: string, rest: string)
    requires |w| > 0 && '/' !in w
    ensures Split(w + rest) == [w + Split(rest)[0]] + Split(rest)[1..]
    decreases |w|
  {
    assert (w + rest)[0] == w[0] != '/';
    assert (w + rest)[1..] == w[1..] + rest;
    if |w| > 1 {
      assert '/' !in w[1..];
      SplitWord(w[1..], rest);
      assert [w[0]] + (w[1..] + Split(rest)[0]) == w + Split(rest)[0];
    } else {
      assert w[1..] + rest == rest;
      assert [w[0]] + Split(rest)[0] == w + Split(rest)[0];
    }
  }

  /** Splitting after a separator adds an empty leading piece. */
  lemma SplitSlash(rest: string)
    ensures Split("/" + rest) == [""] + Split(rest)
  {
    assert ("/" + rest)[1..] == rest;
  }

  /** Splitting a separator-free word followed by the text `rest`. */
  lemma SplitWordThen(w: string, rest: string)
    requires |w| > 0 && '/' !in w
    ensures Split(w + "/" + rest) == [w] + Split(rest)
  {
    SplitWord(w, "/" + rest);
    SplitSlash(rest);
    assert w + "/" + rest == w + ("/" + rest);
    assert w + "" == w;
  }

  /** Splitting a separator-free word alone. */
  lemma SplitLastWord(w: string)
    requires |w| > 0 && '/' !in w
    ensures Split(w) == [w]
  {
    SplitWord(w, "");
    assert w + "" == w;
  }

  /** A plain component: non-empty, separator-free, and not `.`. */
  predicate PlainPart(w: string)
  {
    |w| > 0 && '/' !in w && w != "."
  }

  /** Plain components are all kept. */
  lemma {:induction false} KeepPlain(parts: seq<string>)
    requires forall i :: 0 <= i < |parts| ==> PlainPart(parts[i])
    ensures KeepParts(parts, false) == parts
    decreases |parts|
  {
    if |parts| > 0 {
      KeepPlain(parts[1..]);
    }
  }

  /** An absolute path whose split is a leading empty piece then plain components parses to those components. */
  lemma ParseAbsolutePlain(s: string, parts: seq<string>)
    requires |s| > 0 && s[0] == '/'
    requires forall i :: 0 <= i < |parts| ==> PlainPart(parts[i])
    requires Split(s) == [""] + parts
    ensures Parse(s) == Path(true, parts)
  {
    assert Split(s)[1..] == parts;
    KeepPlain(parts);
  }

  /** Joining peels off the first component: `a/b/c` is `a` then a separator then `b/c`. */
  lemma {:induction false} JoinFirst(parts: seq<string>)
    requires |parts| >= 2
    ensures Join(parts) == parts[0] + "/" + Join(parts[1..])
    decreases |parts|
  {
    var n := |parts|;
    if n > 2 {
      var init := parts[..n - 1];
      JoinFirst(init);
      assert init[1..] == parts[1..][..n - 2];
      assert parts[1..][n - 2] == parts[n - 1];
      calc {
        Join(parts);
        Join(init) + "/" + parts[n - 1];
        (init[0] + "/" + Join(init[1..])) + "/" + parts[n - 1];
        parts[0] + "/" + (Join(parts[1..][..n - 2]) + "/" + parts[1..][n - 2]);
        parts[0] + "/" + Join(parts[1..]);
      }
    }
  }

  /** Splitting joined separator-free, non-empty components gives the components back. */
  lemma {:induction false} SplitJoin(parts: seq<string>)
    requires |parts| > 0
    requires forall i :: 0 <= i < |parts| ==> |parts[i]| > 0 && '/' !in parts[i]
    ensures Split(Join(parts)) == parts
    decreases |parts|
  {
    if |parts| == 1 {
      SplitLastWord(parts[0]);
    } else {
      JoinFirst(parts);
      SplitWordThen(parts[0], Join(parts[1..]));
      SplitJoin(parts[1..]);
    }
  }

  /** The joined text of components starts with the first component. */
  lemma {:induction false} JoinStartsWithFirst(parts: seq<string>)
    requires |parts| > 0
    ensures |Join(parts)| >= |parts[0]| && Join(parts)[..|parts[0]|] == parts[0]
    decreases |parts|
  {
    if |parts| > 1 {
      JoinFirst(parts);
    }
  }

  /** Rendering a path of plain components and parsing the text gives the path back. */
  lemma ParseRender(p: Path)
    requires forall i :: 0 <= i < |p.parts| ==> PlainPart(p.parts[i])
    ensures Parse(Render(p)) == p
  {
    var s := Render(p);
    if |p.parts| == 0 {
      if p.absolute {
        assert s == "/" + "";
        SplitSlash("");
        assert ["", ""][1..] == [""];
        assert KeepParts(["", ""], true) == KeepParts([""], false) == [];
      } else {
        assert s == "";
      }
    } else {
      SplitJoin(p.parts);
      JoinStartsWithFirst(p.parts);
      if p.absolute {
        assert s == "/" + Join(p.parts);
        SplitSlash(Join(p.parts));
        ParseAbsolutePlain(s, p.parts);
      } else {
        assert s == Join(p.parts);
        assert s[0] == p.parts[0][0];
        KeepPlain(p.parts[1..]);
        assert KeepParts(p.parts, true) == [p.parts[0]] + p.parts[1..];
      }
    }
  }

  /** A trailing separator adds one empty piece at the end. */
  lemma {:induction false} SplitTrailingSlash(s: string)
    ensures Split(s + "/") == Split(s) + [""]
    decreases |s|
  {
    if |s| == 0 {
      assert s + "/" == "/" + "";
      SplitSlash("");
    } else {
      assert (s + "/")[1..] == s[1..] + "/";
      SplitTrailingSlash(s[1..]);
    }
  }

  /** An empty last piece is never kept. */
  lemma {:induction false} KeepPartsEmptyLast(pieces: seq<string>, first: bool)
    ensures KeepParts(pieces + [""], first) == KeepParts(pieces, first)
    decreases |pieces|
  {
    if |pieces| > 0 {
      assert (pieces + [""])[1..] == pieces[1..] + [""];
      KeepPartsEmptyLast(pieces[1..], false);
    }
  }

  /** A trailing separator does not change a non-empty path: `a/b/` is `a/b`, and `/` stays the root. */
  lemma ParseTrailingSlash(s: string)
    requires |s| > 0
    ensures Parse(s + "/") == Parse(s)
  {
    SplitTrailingSlash(s);
    KeepPartsEmptyLast(Split(s), true);
    assert (s + "/")[0] == s[0];
  }

  /** After the first piece, a `.` piece is never kept. */
  lemma {:induction false} KeepPartsDot(pieces: seq<string>, first: bool)
    ensures forall k :: 0 <= k < |KeepParts(pieces, first)| && KeepParts(pieces, first)[k] == "." ==>
      k == 0 && first && |pieces| > 0 && pieces[0] == "."
    decreases |pieces|
  {
    if |pieces| > 0 {
      KeepPartsDot(pieces[1..], false);
    }
  }

  /** A `.` component survives only as the first component of a relative path (`./a`). */
  lemma ParseDot(s: string)
    ensures forall k :: 0 <= k < |Parse(s).parts| && Parse(s).parts[k] == "." ==> k == 0 && !Parse(s).absolute
  {
    KeepPartsDot(Split(s), true);
    if |s| > 0 && s[0] == '/' {
      assert Split(s)[0] == "";
    }
  }

  /** An absolute path of two plain components parses to exactly those components. */
  lemma ParseAbsolute2(a: string, b: string)
    requires PlainPart(a) && PlainPart(b)
    ensures Parse("/" + a + "/" + b) == Path(true, [a, b])
  {
    SplitLastWord(b);
    SplitWordThen(a, b);
    SplitSlash(a + "/" + b);
    assert "/" + a + "/" + b == "/" + (a + "/" + b);
    ParseAbsolutePlain("/" + a + "/" + b, [a, b]);
  }

  /** An absolute path of three plain components parses to exactly those components. */
  lemma ParseAbsolute3(a: string, b: string, c: string)
    requires PlainPart(a) && PlainPart(b) && PlainPart(c)
    ensures Parse("/" + a + "/" + b + "/" + c) == Path(true, [a, b, c])
  {
    SplitLastWord(c);
    SplitWordThen(b, c);
    SplitWordThen(a, b + "/" + c);
    SplitSlash(a + "/" + (b + "/" + c));
    assert "/" + a + "/" + b + "/" + c == "/" + (a + "/" + (b + "/" + c));
    ParseAbsolutePlain("/" + a + "/" + b + "/" + c, [a, b, c]);
  }

  /** Ancestry is decided on whole components: `/a/b` owns `/a/b/c`. */
  lemma ComponentParent(a: string, b: string, c: string)
    requires PlainPart(a) && PlainPart(b) && PlainPart(c)
    ensures IsPathParent("/" + a + "/" + b + "/" + c, "/" + a + "/" + b)
  {
    ParseAbsolute2(a, b);
    ParseAbsolute3(a, b, c);
    assert [a, b, c][..2] == [a, b];
    IsPathParentIff("/" + a + "/" + b + "/" + c, "/" + a + "/" + b);
  }

  /**
    `/a/b` does not own `/a/c/d` when `b` and `c` differ, even when `b` is
    a text prefix of `c` (`/mnt/one` and `/mnt/one2/x`).
   */
  lemma ComponentNotTextPrefix(a: string, b: string, c: string, d: string)
    requires PlainPart(a) && PlainPart(b) && PlainPart(c) && PlainPart(d)
    requires b != c
    ensures !IsPathParent("/" + a + "/" + c + "/" + d, "/" + a + "/" + b)
  {
    ParseAbsolute2(a, b);
    ParseAbsolute3(a, c, d);
    assert [a, c, d][..2] != [a, b] by { assert [a, c, d][..2][1] == c; }
    IsPathParentIff("/" + a + "/" + c + "/" + d, "/" + a + "/" + b);
  }

  /** Joining more non-empty components gives strictly longer text. */
  lemma {:induction false} JoinPrefixShorter(parts: seq<string>, k: nat)
    requires k < |parts|
    requires forall i :: 0 <= i < |parts| ==> parts[i] != ""
    ensures |Join(parts[..k])| < |Join(parts)|
    decreases |parts|
  {
    var n := |parts|;
    if k < n - 1 {
      assert parts[..n - 1][..k] == parts[..k];
      JoinPrefixShorter(parts[..n - 1], k);
    } else {
      assert parts[..k] == parts[..n - 1];
    }
  }

  /** Dropping components of a path with non-empty components shortens its rendering. */
  lemma RenderPrefixShorter(p: Path, k: nat)
    requires k < |p.parts|
    requires forall i :: 0 <= i < |p.parts| ==> p.parts[i] != ""
    ensures |Render(Path(p.absolute, p.parts[..k]))| < |Render(p)|
  {
    JoinPrefixShorter(p.parts, k);
  }

  /** A canonical path whose components are a proper prefix of another canonical path's is textually shorter. */
  lemma CanonicalStrictAncestorShorter(a: string, b: string)
    requires Canonical(a) && Canonical(b)
    requires Parse(a).absolute == Parse(b).absolute
    requires |Parse(a).parts| < |Parse(b).parts|
    requires Parse(a).parts == Parse(b).parts[..|Parse(a).parts|]
    ensures |a| < |b|
  {
    var pa, pb := Parse(a), Parse(b);
    assert pa == Path(pb.absolute, pb.parts[..|pa.parts|]);
    RenderPrefixShorter(pb, |pa.parts|);
  }

  /** Two prefixes of one sequence: the shorter is a prefix of the longer. */
  lemma PrefixOfPrefix(x: seq<string>, y: seq<string>, z: seq<string>)
    requires |x| < |y| <= |z| && x == z[..|x|] && y == z[..|y|]
    ensures x == y[..|x|]
  {
  }

  /** Of two canonical ancestors of one path, the one with fewer components is textually shorter. */
  lemma AncestorsNested(child: string, a: string, b: string)
    requires Canonical(a) && Canonical(b)
    requires IsPathParent(child, a) && IsPathParent(child, b)
    requires |Parse(a).parts| < |Parse(b).parts|
    ensures |a| < |b|
  {
    IsPathParentIff(child, a);
    IsPathParentIff(child, b);
    PrefixOfPrefix(Parse(a).parts, Parse(b).parts, Parse(child).parts);
    CanonicalStrictAncestorShorter(a, b);
  }

  /**
    Two canonical proper ancestors of one path that have the same text
    length are the same path: a child's ancestors have strictly increasing
    lengths, so no two of them tie.
   */
  lemma CanonicalAncestorsByLength(child: string, a: string, b: string)
    requires Canonical(a) && Canonical(b)
    requires IsPathParent(child, a) && IsPathParent(child, b)
    requires |a| == |b|
    ensures a == b
  {
    if |Parse(a).parts| < |Parse(b).parts| {
      AncestorsNested(child, a, b);
    } else if |Parse(b).parts| < |Parse(a).parts| {
      AncestorsNested(child, b, a);
    } else {
      IsPathParentIff(child, a);
      IsPathParentIff(child, b);
      assert Parse(a) == Parse(b);
    }
  }
}
