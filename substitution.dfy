/**
  The one-pass multi-pattern substitution of `String#gsub!(Regexp.union(keys), hash)`.

  `Gsub` follows the regular expression: at each position it tries the alternatives in
  their listed order and takes the first that matches; text it has replaced is never
  scanned again. `Scan` is an independent reference definition: at each position it
  replaces the LONGEST key that occurs there. When the alternatives are listed by
  descending length, the two agree (`GsubIsScan`).

  An empty key matches everywhere, as an empty regular expression does: Ruby then
  inserts its replacement before every character and once at the end of the string.
 */
module Substitution {
  import opened Wrappers

  /** `k` is a prefix of `s`: the key occurs at the start of `s`. */
  predicate IsPrefix(k: string, s: string) {
    |k| <= |s| && s[..|k|] == k
  }

  /** `k` occurs somewhere in `s`. */
  predicate OccursIn(k: string, s: string) {
    exists i :: 0 <= i <= |s| && IsPrefix(k, s[i..])
  }

  /** The rewritten text and the number of matches replaced (gsub! returns nil when it is 0). */
  datatype Rewrite = Rewrite(text: string, matches: nat)

  predicate SortedByLengthDesc(ks: seq<string>) {
    forall i, j :: 0 <= i < j < |ks| ==> |ks[i]| >= |ks[j]|
  }

  // ---------------------------------------------------------------------------
  // `keys.sort_by(&:length).reverse`

  /** Inserts `k` into a list sorted by descending length. */
  function Insert(k: string, ks: seq<string>): (r: seq<string>)
    requires SortedByLengthDesc(ks)
    ensures SortedByLengthDesc(r)
    ensures multiset(r) == multiset(ks) + multiset{k}
    ensures |r| > 0 && (|r[0]| == |k| || (ks != [] && r[0] == ks[0]))
  {
    if ks == [] || |ks[0]| <= |k| then [k] + ks
    else
      var rest := Insert(k, ks[1..]);
      assert ks == [ks[0]] + ks[1..];
      [ks[0]] + rest
  }

  /** The keys ordered by descending length: a permutation of `ks`. */
  function SortByLengthDesc(ks: seq<string>): (r: seq<string>)
    ensures SortedByLengthDesc(r)
    ensures multiset(r) == multiset(ks)
  {
    if ks == [] then []
    else
      assert ks == [ks[0]] + ks[1..];
      Insert(ks[0], SortByLengthDesc(ks[1..]))
  }

  // ---------------------------------------------------------------------------
  // Choosing the key that matches at a position.

  /** The first alternative that matches at the start of `s`, as regex alternation picks it. */
  function FirstMatch(alts: seq<string>, s: string): (r: Option<string>)
    ensures r.Some? ==> r.value in alts && IsPrefix(r.value, s)
    ensures r.None? ==> forall k :: k in alts ==> !IsPrefix(k, s)
  {
    if alts == [] then None
    else if IsPrefix(alts[0], s) then Some(alts[0])
    else FirstMatch(alts[1..], s)
  }

  /** The longest key that is a prefix of `s` and at most `n` long. */
  function LongestUpTo(keys: set<string>, s: string, n: nat): (r: Option<string>)
    requires n <= |s|
    ensures r.Some? ==> r.value in keys && IsPrefix(r.value, s) && |r.value| <= n
    ensures r.Some? ==> forall k :: k in keys && IsPrefix(k, s) && |k| <= n ==> |k| <= |r.value|
    ensures r.None? ==> forall k :: k in keys && IsPrefix(k, s) ==> |k| > n
  {
    if s[..n] in keys then Some(s[..n])
    else if n == 0 then None
    else LongestUpTo(keys, s, n - 1)
  }

  /** The longest key that occurs at the start of `s`. */
  function Longest(keys: set<string>, s: string): (r: Option<string>)
    ensures r.Some? ==> r.value in keys && IsPrefix(r.value, s)
    ensures r.Some? ==> forall k :: k in keys && IsPrefix(k, s) ==> |k| <= |r.value|
    ensures r.None? ==> forall k :: k in keys ==> !IsPrefix(k, s)
  {
    LongestUpTo(keys, s, |s|)
  }

  // ---------------------------------------------------------------------------
  // The substitution, as the regular expression performs it and as specified.

  /** gsub! over the alternation `alts`, replacing each match `k` by `m[k]`. */
  function Gsub(s: string, alts: seq<string>, m: map<string, string>): (r: Rewrite)
    requires forall k :: k in alts ==> k in m
    ensures r.matches == 0 ==> r.text == s
    decreases |s|
  {
    match FirstMatch(alts, s)
    case None =>
      if s == [] then Rewrite([], 0)
      else
        var t := Gsub(s[1..], alts, m);
        assert [s[0]] + s[1..] == s;
        Rewrite([s[0]] + t.text, t.matches)
    case Some(k) =>
      if |k| > 0 then var t := Gsub(s[|k|..], alts, m); Rewrite(m[k] + t.text, t.matches + 1)
      else if s == [] then Rewrite(m[k], 1)
      else var t := Gsub(s[1..], alts, m); Rewrite(m[k] + [s[0]] + t.text, t.matches + 1)
  }

  /** Left-to-right substitution of the longest key occurring at each position. */
  function Scan(s: string, m: map<string, string>): (r: Rewrite)
    decreases |s|
  {
    match Longest(m.Keys, s)
    case None =>
      if s == [] then Rewrite([], 0)
      else var t := Scan(s[1..], m); Rewrite([s[0]] + t.text, t.matches)
    case Some(k) =>
      if |k| > 0 then var t := Scan(s[|k|..], m); Rewrite(m[k] + t.text, t.matches + 1)
      else if s == [] then Rewrite(m[k], 1)
      else var t := Scan(s[1..], m); Rewrite(m[k] + [s[0]] + t.text, t.matches + 1)
  }

  // ---------------------------------------------------------------------------
  // Alternation by descending length is longest match.

  /** In a list sorted by descending length, the first alternative that matches is a longest one. */
  lemma {:induction false} FirstMatchIsLongest(alts: seq<string>, s: string)
    requires SortedByLengthDesc(alts)
    ensures FirstMatch(alts, s) == Longest((set k | k in alts), s)
  {
    var keys := set k | k in alts;
    FirstMatchLongerThanRest(alts, s);
    var f, l := FirstMatch(alts, s), Longest(keys, s);
    if f.Some? {
      assert l.Some? && |l.value| >= |f.value|;
      assert l.value == s[..|l.value|] && f.value == s[..|f.value|];
    }
  }

  lemma {:induction false} FirstMatchLongerThanRest(alts: seq<string>, s: string)
    requires SortedByLengthDesc(alts)
    ensures FirstMatch(alts, s).Some? ==>
      forall k :: k in alts && IsPrefix(k, s) ==> |k| <= |FirstMatch(alts, s).value|
  {
    if alts != [] && !IsPrefix(alts[0], s) {
      FirstMatchLongerThanRest(alts[1..], s);
      assert forall k :: k in alts && k != alts[0] ==> k in alts[1..];
    }
  }

  /** The regular expression over keys sorted by descending length performs `Scan`. */
  lemma {:induction false} GsubIsScan(s: string, alts: seq<string>, m: map<string, string>)
    requires SortedByLengthDesc(alts)
    requires forall k :: k in alts <==> k in m
    ensures Gsub(s, alts, m) == Scan(s, m)
    decreases |s|
  {
    FirstMatchIsLongest(alts, s);
    assert (set k | k in alts) == m.Keys;
    match FirstMatch(alts, s)
    case None =>
      if s != [] { GsubIsScan(s[1..], alts, m); }
    case Some(k) =>
      if |k| > 0 { GsubIsScan(s[|k|..], alts, m); }
      else if s != [] { GsubIsScan(s[1..], alts, m); }
  }

  // ---------------------------------------------------------------------------
  // What one pass does.

  /**
    Where `k` is the longest key occurring at the start of `s`, it is replaced whole and
    scanning resumes after it: a shorter key the match contains never splits it, and the
    replacement text is not scanned again.
   */
  lemma ScanAtKey(s: string, m: map<string, string>, k: string)
    requires k in m && |k| > 0 && IsPrefix(k, s)
    requires forall k' :: k' in m && IsPrefix(k', s) ==> |k'| <= |k|
    ensures Scan(s, m).text == m[k] + Scan(s[|k|..], m).text
    ensures Scan(s, m).matches == Scan(s[|k|..], m).matches + 1
  {
    var l := Longest(m.Keys, s);
    assert l.Some? && |l.value| == |k|;
    assert l.value == s[..|k|] == k;
  }

  /** Where no key occurs at the start of `s`, its first character is copied. */
  lemma ScanPastChar(s: string, m: map<string, string>)
    requires s != []
    requires forall k :: k in m ==> !IsPrefix(k, s)
    ensures Scan(s, m).text == [s[0]] + Scan(s[1..], m).text
    ensures Scan(s, m).matches == Scan(s[1..], m).matches
  {
  }

  /** Text in which no key occurs comes back unchanged, with no match. */
  lemma {:induction false} ScanWithoutKeys(s: string, m: map<string, string>)
    requires forall k :: k in m ==> !OccursIn(k, s)
    ensures Scan(s, m) == Rewrite(s, 0)
    decreases |s|
  {
    assert s[0..] == s;
    if s != [] {
      assert forall k :: k in m ==> !OccursIn(k, s[1..]);
      ScanWithoutKeys(s[1..], m);
      assert [s[0]] + s[1..] == s;
    }
  }

  /** A pass reports a match exactly when some key occurs somewhere in the text. */
  lemma {:induction false} ScanMatchesIff(s: string, m: map<string, string>)
    ensures Scan(s, m).matches > 0 <==> exists k :: k in m && OccursIn(k, s)
    decreases |s|
  {
    match Longest(m.Keys, s)
    case Some(k) =>
      assert s[0..] == s && IsPrefix(k, s[0..]);
      assert k in m && OccursIn(k, s);
    case None =>
      if s != [] {
        ScanMatchesIff(s[1..], m);
        if Scan(s, m).matches > 0 {
          var k :| k in m && OccursIn(k, s[1..]);
          var i :| 0 <= i <= |s[1..]| && IsPrefix(k, s[1..][i..]);
          assert s[1..][i..] == s[i + 1..];
          assert OccursIn(k, s);
        }
        if exists k :: k in m && OccursIn(k, s) {
          var k :| k in m && OccursIn(k, s);
          var i :| 0 <= i <= |s| && IsPrefix(k, s[i..]);
          assert i != 0 by { assert s[0..] == s; }
          assert s[1..][i - 1..] == s[i..];
          assert OccursIn(k, s[1..]);
        }
      } else {
        forall k, i | k in m && 0 <= i <= |s| ensures !IsPrefix(k, s[i..]) {
          assert s[i..] == s;
        }
      }
  }

  // ---------------------------------------------------------------------------
  // Undoing a pass with the inverse map.

  /** The keys of `inv` are the values of `m`, each mapped back to its key. */
  predicate IsInverse(m: map<string, string>, inv: map<string, string>) {
    && (forall k :: k in m ==> m[k] in inv && inv[m[k]] == k)
    && (forall v :: v in inv ==> exists k :: k in m && m[k] == v)
  }

  /** No key of `m` is a proper prefix of another. */
  predicate PrefixFree(m: map<string, string>) {
    forall v, w :: v in m && w in m && v != w ==> !IsPrefix(v, w)
  }

  /**
    Substituting with `m` and then with its inverse gives back the text, when every key
    of `m` is non-empty, every replacement starts with a marker character `c` that the
    text does not contain, and no replacement is a prefix of another.
   */
  lemma {:induction false} ScanRoundTrip(s: string, m: map<string, string>, inv: map<string, string>, c: char)
    requires forall k :: k in m ==> |k| > 0
    requires forall k :: k in m ==> m[k] in inv && inv[m[k]] == k
    requires forall v :: v in inv ==> |v| > 0 && v[0] == c
    requires PrefixFree(inv)
    requires c !in s
    ensures Scan(Scan(s, m).text, inv).text == s
    decreases |s|, 1
  {
    if s == [] {
      UndoEmpty(inv, c);
    } else if Longest(m.Keys, s).Some? {
      RoundTripAtKey(s, m, inv, c, Longest(m.Keys, s).value);
    } else {
      RoundTripAtChar(s, m, inv, c);
    }
  }

  lemma {:induction false} RoundTripAtKey(s: string, m: map<string, string>, inv: map<string, string>, c: char, k: string)
    requires forall k :: k in m ==> |k| > 0
    requires forall k :: k in m ==> m[k] in inv && inv[m[k]] == k
    requires forall v :: v in inv ==> |v| > 0 && v[0] == c
    requires PrefixFree(inv)
    requires c !in s
    requires Longest(m.Keys, s) == Some(k)
    ensures Scan(Scan(s, m).text, inv).text == s
    decreases |s|, 0
  {
    var rest, v := s[|k|..], m[k];
    var x := Scan(rest, m).text;
    assert Scan(s, m).text == v + x;
    UndoKey(v, x, inv);
    assert c !in rest;
    ScanRoundTrip(rest, m, inv, c);
    assert s == k + rest;
  }

  lemma {:induction false} RoundTripAtChar(s: string, m: map<string, string>, inv: map<string, string>, c: char)
    requires forall k :: k in m ==> |k| > 0
    requires forall k :: k in m ==> m[k] in inv && inv[m[k]] == k
    requires forall v :: v in inv ==> |v| > 0 && v[0] == c
    requires PrefixFree(inv)
    requires c !in s && s != []
    requires Longest(m.Keys, s).None?
    ensures Scan(Scan(s, m).text, inv).text == s
    decreases |s|, 0
  {
    var rest := s[1..];
    var x := Scan(rest, m).text;
    assert Scan(s, m).text == [s[0]] + x;
    assert s[0] in s;
    UndoChar(s[0], x, inv, c);
    assert c !in rest;
    ScanRoundTrip(rest, m, inv, c);
    assert s == [s[0]] + rest;
  }

  lemma UndoEmpty(inv: map<string, string>, c: char)
    requires forall v :: v in inv ==> |v| > 0 && v[0] == c
    ensures Scan([], inv).text == []
  {
  }

  /** A replacement `v` at the start of the text is recognised whole by the inverse pass. */
  lemma UndoKey(v: string, x: string, inv: map<string, string>)
    requires v in inv && |v| > 0
    requires PrefixFree(inv)
    ensures Scan(v + x, inv).text == inv[v] + Scan(x, inv).text
  {
    assert IsPrefix(v, v + x) by { assert (v + x)[..|v|] == v; }
    forall w | w in inv && IsPrefix(w, v + x) ensures |w| <= |v| {
      PrefixesOfOneText(v, w, x);
    }
    ScanAtKey(v + x, inv, v);
    assert (v + x)[|v|..] == x;
  }

  /** Two prefixes of one text: the shorter is a prefix of the longer. */
  lemma PrefixesOfOneText(v: string, w: string, x: string)
    requires IsPrefix(w, v + x)
    ensures |w| <= |v| || IsPrefix(v, w)
  {
    if |w| > |v| {
      assert w[..|v|] == (v + x)[..|v|];
    }
  }

  /** A character other than the marker is copied by the inverse pass. */
  lemma UndoChar(ch: char, x: string, inv: map<string, string>, c: char)
    requires forall v :: v in inv ==> |v| > 0 && v[0] == c
    requires ch != c
    ensures Scan([ch] + x, inv).text == [ch] + Scan(x, inv).text
  {
    assert forall w :: w in inv ==> !IsPrefix(w, [ch] + x);
    ScanPastChar([ch] + x, inv);
    assert ([ch] + x)[1..] == x;
  }
}
