/**
  Lexical path arithmetic in the way Ruby's Pathname does it: splitting a path string
  into components, `cleanpath`, `relative_path_from`, `basename`, `parent` and
  `File.extname`. An absolute path is represented by the sequence of its components,
  so "/opt/homebrew/bin" is ["opt", "homebrew", "bin"] and "/" is [].
 */
module Paths {

  type Path = seq<string>

  /** Pathname#absolute? on a POSIX system. */
  predicate IsAbsolute(s: string) {
    |s| > 0 && s[0] == '/'
  }

  /** String#start_with?: a plain string-prefix test. */
  predicate StartsWith(s: string, prefix: string) {
    |prefix| <= |s| && s[..|prefix|] == prefix
  }

  /** A component that names a child directory entry. */
  predicate IsName(c: string) {
    c != "" && c != "." && c != ".." && '/' !in c
  }

  /** A path without empty, `.` or `..` components, such as a walk of a tree yields. */
  predicate IsNormal(p: Path) {
    forall i :: 0 <= i < |p| ==> IsName(p[i])
  }

  /** The pieces of `s` between '/' separators, empty pieces included. */
  function Pieces(s: string): (r: seq<string>)
    ensures |r| > 0
    ensures forall i :: 0 <= i < |r| ==> '/' !in r[i]
  {
    if |s| == 0 then [""]
    else if s[0] == '/' then [""] + Pieces(s[1..])
    else
      var rest := Pieces(s[1..]);
      [[s[0]] + rest[0]] + rest[1..]
  }

  /** Drops the empty and `.` pieces, which do not move a lookup anywhere. */
  function DropTrivial(ps: seq<string>): (r: seq<string>)
    ensures forall i :: 0 <= i < |r| ==> r[i] != "" && r[i] != "."
    ensures forall c :: c in r ==> c in ps
  {
    if ps == [] then []
    else if ps[0] == "" || ps[0] == "." then DropTrivial(ps[1..])
    else [ps[0]] + DropTrivial(ps[1..])
  }

  /** The components of a path string, `..` kept. */
  function Components(s: string): (r: seq<string>)
    ensures forall i :: 0 <= i < |r| ==> r[i] != "" && r[i] != "." && '/' !in r[i]
  {
    var ps := Pieces(s);
    var r := DropTrivial(ps);
    assert forall i :: 0 <= i < |r| ==> r[i] in ps;
    r
  }

  /** The components joined by '/' (File.join of names). */
  function Join(parts: seq<string>): string
  {
    if |parts| == 0 then ""
    else if |parts| == 1 then parts[0]
    else parts[0] + "/" + Join(parts[1..])
  }

  /** The string of an absolute path. */
  function Render(p: Path): string
  {
    "/" + Join(p)
  }

  /** The string of a relative path; Pathname renders the empty relative path as ".". */
  function RenderRelative(parts: seq<string>): string
  {
    if parts == [] then "." else Join(parts)
  }

  /**
    Walks `parts` starting in directory `dir`: `..` goes up (and stays at the root),
    `.` and empty parts stay, a name goes down. This is how cleanpath resolves an
    absolute path and how a relative symlink target is resolved from its directory.
   */
  function Follow(dir: Path, parts: seq<string>): Path
    decreases |parts|
  {
    if parts == [] then dir
    else if parts[0] == ".." then Follow(if dir == [] then [] else dir[..|dir| - 1], parts[1..])
    else if parts[0] == "" || parts[0] == "." then Follow(dir, parts[1..])
    else Follow(dir + [parts[0]], parts[1..])
  }

  /** Pathname#cleanpath of an absolute path string, as components. */
  function Clean(s: string): Path
  {
    Follow([], Components(s))
  }

  /** Pathname#parent of an absolute path; the parent of the root is the root. */
  function Parent(p: Path): Path
  {
    if p == [] then [] else p[..|p| - 1]
  }

  /** Pathname#basename of an absolute path. */
  function Basename(p: Path): string
  {
    if p == [] then "/" else p[|p| - 1]
  }

  /** `..` repeated `n` times. */
  function Ups(n: nat): (r: seq<string>)
    ensures |r| == n && forall i :: 0 <= i < n ==> r[i] == ".."
  {
    seq(n, _ => "..")
  }

  /** The length of the longest common prefix of two component sequences. */
  function CommonPrefix(a: Path, b: Path): (n: nat)
    ensures n <= |a| && n <= |b| && a[..n] == b[..n]
    ensures n < |a| && n < |b| ==> a[n] != b[n]
  {
    if a == [] || b == [] || a[0] != b[0] then 0
    else
      var n := CommonPrefix(a[1..], b[1..]);
      assert a[1..][..n] == a[1..n + 1] && b[1..][..n] == b[1..n + 1];
      1 + n
  }

  /**
    Pathname#relative_path_from for two cleaned absolute paths: one `..` for each
    component of `base` not shared with `dest`, then the rest of `dest`.
   */
  function RelativeFrom(dest: Path, base: Path): seq<string>
  {
    var c := CommonPrefix(dest, base);
    Ups(|base| - c) + dest[c..]
  }

  /** File.extname as of Ruby 2.6: leading dots are skipped, and a trailing dot gives "". */
  function Extname(name: string): string
  {
    ExtOf(SkipDots(name))
  }

  /** The suffix of `body` from its last dot, or "" when it has no dot or ends in one. */
  function ExtOf(body: string): string
  {
    var i := LastDot(body, |body|);
    if i < 0 || i == |body| - 1 then "" else body[i..]
  }

  /**
    The extension of `body` is "" exactly when it has no dot or ends in one; otherwise it is
    the suffix from the last dot, which holds at least one more character and no further dot,
    and is shorter than `body` when `body` does not start with a dot.
  */
  lemma ExtOfMeaning(body: string)
    ensures var e := ExtOf(body);
      && (e == "" || (e[0] == '.' && |e| >= 2 && '.' !in e[1..]))
      && (e != "" ==> |e| <= |body| && body[|body| - |e|..] == e)
      && (e != "" && body[0] != '.' ==> |e| < |body|)
      && (e == "" <==> '.' !in body || body[|body| - 1] == '.')
  {
    var n := |body|;
    var i := LastDot(body, n);
    assert body[..n] == body;
    if i >= 0 && i < n - 1 {
      var e := body[i..];
      assert e[0] == '.' && e[1..] == body[i + 1..n];
      assert body[n - 1] == body[i + 1..n][n - 1 - (i + 1)];
      assert body[n - 1] != '.';
      assert body[n - |e|..] == e;
    }
  }

  /**
    `File.extname` (leading dots skipped): "" exactly when the rest of the name has no dot or
    ends in one; otherwise the suffix from the last dot, a dot with at least one more
    character and no further dot, shorter than the name.
  */
  lemma ExtnameMeaning(name: string)
    ensures var e, body := Extname(name), SkipDots(name);
      && (e == "" || (e[0] == '.' && |e| >= 2 && '.' !in e[1..]))
      && (e != "" ==> |e| < |body| && body[|body| - |e|..] == e)
      && (e == "" <==> '.' !in body || body[|body| - 1] == '.')
  {
    var body := SkipDots(name);
    ExtOfMeaning(body);
    SkipDotsMeaning(name);
    assert Extname(name) == ExtOf(body);
    assert body != "" ==> body[0] != '.';
  }

  /** `name` without its leading dots. */
  function SkipDots(name: string): string
  {
    if |name| > 0 && name[0] == '.' then SkipDots(name[1..]) else name
  }

  /** What `SkipDots` drops is a run of dots, and what it keeps is the rest of the name, not starting with a dot. */
  lemma {:induction false} SkipDotsMeaning(name: string)
    ensures var r := SkipDots(name);
      && |r| <= |name| && name[|name| - |r|..] == r
      && (r == "" || r[0] != '.')
      && forall i :: 0 <= i < |name| - |r| ==> name[i] == '.'
    decreases |name|
  {
    if |name| > 0 && name[0] == '.' {
      SkipDotsMeaning(name[1..]);
      var r := SkipDots(name);
      assert name[1..][|name[1..]| - |r|..] == name[|name| - |r|..];
      forall i | 0 <= i < |name| - |r| ensures name[i] == '.' {
        if i > 0 { assert name[i] == name[1..][i - 1]; }
      }
    }
  }

  /** The index of the last '.' in `s[..n]`, or -1. */
  function LastDot(s: string, n: nat): (i: int)
    requires n <= |s|
    ensures -1 <= i < n
    ensures i >= 0 ==> s[i] == '.' && '.' !in s[i + 1..n]
    ensures i < 0 ==> '.' !in s[..n]
  {
    if n == 0 then -1
    else if s[n - 1] == '.' then n - 1
    else
      var i := LastDot(s, n - 1);
      LastDotStep(s, n, i);
      i
  }

  /** A character other than '.' at `n - 1` leaves the last dot of `s[..n - 1]` the last dot of `s[..n]`. */
  lemma LastDotStep(s: string, n: nat, i: int)
    requires 0 < n <= |s| && s[n - 1] != '.' && -1 <= i < n - 1
    requires i >= 0 ==> s[i] == '.' && '.' !in s[i + 1..n - 1]
    requires i < 0 ==> '.' !in s[..n - 1]
    ensures i >= 0 ==> '.' !in s[i + 1..n]
    ensures i < 0 ==> '.' !in s[..n]
  {
    if i >= 0 {
      assert s[i + 1..n] == s[i + 1..n - 1] + [s[n - 1]];
    } else {
      assert s[..n] == s[..n - 1] + [s[n - 1]];
    }
  }

  // ---------------------------------------------------------------------------
  // Lemmas: splitting undoes joining, and a relative path resolves back.

  lemma {:induction false} PiecesOfName(x: string)
    requires '/' !in x
    ensures Pieces(x) == [x]
  {
    if |x| > 0 {
      PiecesOfName(x[1..]);
      assert [x[0]] + x[1..] == x;
    }
  }

  lemma {:induction false} PiecesOfSeparated(x: string, y: string)
    requires '/' !in x
    ensures Pieces(x + "/" + y) == [x] + Pieces(y)
  {
    if |x| == 0 {
      assert x + "/" + y == "/" + y;
      assert ("/" + y)[1..] == y;
    } else {
      assert (x + "/" + y)[1..] == x[1..] + "/" + y;
      PiecesOfSeparated(x[1..], y);
      assert [x[0]] + x[1..] == x;
    }
  }

  lemma {:induction false} PiecesOfJoin(parts: seq<string>)
    requires |parts| > 0
    requires forall i :: 0 <= i < |parts| ==> '/' !in parts[i]
    ensures Pieces(Join(parts)) == parts
  {
    if |parts| == 1 {
      PiecesOfName(parts[0]);
    } else {
      PiecesOfJoin(parts[1..]);
      PiecesOfSeparated(parts[0], Join(parts[1..]));
      assert [parts[0]] + parts[1..] == parts;
    }
  }

  lemma {:induction false} DropTrivialKeeps(ps: seq<string>)
    requires forall i :: 0 <= i < |ps| ==> ps[i] != "" && ps[i] != "."
    ensures DropTrivial(ps) == ps
  {
    if ps != [] {
      DropTrivialKeeps(ps[1..]);
      assert [ps[0]] + ps[1..] == ps;
    }
  }

  /** Rendering a relative path and splitting it again gives back its components. */
  lemma ComponentsOfRelative(parts: seq<string>)
    requires forall i :: 0 <= i < |parts| ==> parts[i] != "" && parts[i] != "." && '/' !in parts[i]
    ensures Components(RenderRelative(parts)) == parts
  {
    if parts == [] {
      var dot := ".";
      assert dot[0] == '.' && dot[1..] == "" && [dot[0]] + "" == dot;
      assert Pieces(dot) == [dot];
    } else {
      PiecesOfJoin(parts);
      DropTrivialKeeps(parts);
    }
  }

  /** Rendering a normal absolute path and splitting it again gives back its components. */
  lemma ComponentsOfRender(p: Path)
    requires IsNormal(p)
    ensures Components(Render(p)) == p
  {
    if p == [] {
      var root := "/";
      assert root[0] == '/' && root[1..] == "";
      assert Render(p) == root;
      assert Pieces(root) == ["", ""];
      assert DropTrivial(["", ""]) == DropTrivial([""]) == [];
    } else {
      PiecesOfJoin(p);
      assert Render(p) == "" + "/" + Join(p);
      PiecesOfSeparated("", Join(p));
      var ps := [""] + p;
      assert ps[0] == "" && ps[1..] == p;
      DropTrivialKeeps(p);
    }
  }

  lemma {:induction false} FollowNames(dir: Path, parts: seq<string>)
    requires forall i :: 0 <= i < |parts| ==> IsName(parts[i])
    ensures Follow(dir, parts) == dir + parts
    decreases parts
  {
    if parts != [] {
      FollowNames(dir + [parts[0]], parts[1..]);
      assert dir + [parts[0]] + parts[1..] == dir + parts;
    }
  }

  lemma {:induction false} FollowUps(dir: Path, n: nat, rest: seq<string>)
    requires n <= |dir|
    ensures Follow(dir, Ups(n) + rest) == Follow(dir[..|dir| - n], rest)
  {
    if n > 0 {
      assert (Ups(n) + rest)[0] == "..";
      assert (Ups(n) + rest)[1..] == Ups(n - 1) + rest;
      FollowUps(dir[..|dir| - 1], n - 1, rest);
      assert dir[..|dir| - 1][..|dir| - 1 - (n - 1)] == dir[..|dir| - n];
    } else {
      assert Ups(0) + rest == rest && dir[..|dir| - 0] == dir;
    }
  }

  /** Walking never produces a `..`, `.` or empty component from components without '/'. */
  lemma {:induction false} FollowIsNormal(dir: Path, parts: seq<string>)
    requires IsNormal(dir)
    requires forall i :: 0 <= i < |parts| ==> '/' !in parts[i]
    ensures IsNormal(Follow(dir, parts))
    decreases parts
  {
    if parts != [] {
      if parts[0] == ".." {
        FollowIsNormal(if dir == [] then [] else dir[..|dir| - 1], parts[1..]);
      } else if parts[0] == "" || parts[0] == "." {
        FollowIsNormal(dir, parts[1..]);
      } else {
        FollowIsNormal(dir + [parts[0]], parts[1..]);
      }
    }
  }

  /** cleanpath yields a normal path. */
  lemma CleanIsNormal(s: string)
    ensures IsNormal(Clean(s))
  {
    FollowIsNormal([], Components(s));
  }

  /**
    The relative path computed by `RelativeFrom(dest, base)`, walked from `base`, leads
    back to `dest`; and all its components are `..` followed by names of `dest`.
   */
  lemma RelativeFromResolves(dest: Path, base: Path)
    requires IsNormal(dest)
    ensures Follow(base, RelativeFrom(dest, base)) == dest
    ensures forall i :: 0 <= i < |RelativeFrom(dest, base)| ==>
      RelativeFrom(dest, base)[i] == ".." || IsName(RelativeFrom(dest, base)[i])
  {
    var c := CommonPrefix(dest, base);
    FollowUps(base, |base| - c, dest[c..]);
    assert base[..|base| - (|base| - c)] == base[..c] == dest[..c];
    FollowNames(dest[..c], dest[c..]);
    assert dest[..c] + dest[c..] == dest;
  }
}
