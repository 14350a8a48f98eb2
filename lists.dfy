/** Order-preserving list operations that the Ruby code gets from Array: select, `|` and concatenation. */
module Lists {

  /** No element occurs twice. */
  predicate Distinct<T(==)>(s: seq<T>) {
    forall i, j :: 0 <= i < j < |s| ==> s[i] != s[j]
  }

  /** The elements of `s` satisfying `f`, in their order in `s`. */
  function Filter<T(==,!new)>(s: seq<T>, f: T -> bool): (r: seq<T>)
    ensures |r| <= |s|
    ensures forall x :: x in r <==> x in s && f(x)
    decreases |s|
  {
    if s == [] then []
    else
      var init, last := s[..|s| - 1], s[|s| - 1];
      assert s == init + [last];
      Filter(init, f) + (if f(last) then [last] else [])
  }

  /** Filtering out an element of the list makes it shorter. */
  lemma {:induction false} FilterShorter<T(!new)>(s: seq<T>, f: T -> bool, x: T)
    requires x in s && !f(x)
    ensures |Filter(s, f)| < |s|
    decreases |s|
  {
    var init, last := s[..|s| - 1], s[|s| - 1];
    assert s == init + [last];
    if last != x {
      FilterShorter(init, f, x);
    }
  }

  /** Filtering keeps a list free of duplicates. */
  lemma {:induction false} FilterDistinct<T(!new)>(s: seq<T>, f: T -> bool)
    requires Distinct(s)
    ensures Distinct(Filter(s, f))
    decreases |s|
  {
    if s != [] {
      var init, last := s[..|s| - 1], s[|s| - 1];
      assert s == init + [last];
      assert Distinct(init);
      FilterDistinct(init, f);
    }
  }

  lemma {:induction false} FilterAppend<T(!new)>(s: seq<T>, x: T, f: T -> bool)
    ensures Filter(s + [x], f) == Filter(s, f) + (if f(x) then [x] else [])
  {
    assert (s + [x])[..|s + [x]| - 1] == s;
  }

  /** Filtering one more element of `s` appends it or nothing. */
  lemma FilterPrefixStep<T(!new)>(s: seq<T>, i: int, f: T -> bool)
    requires 0 <= i < |s|
    ensures Filter(s[..i + 1], f) == Filter(s[..i], f) + (if f(s[i]) then [s[i]] else [])
  {
    FilterAppend(s[..i], s[i], f);
    assert s[..i + 1] == s[..i] + [s[i]];
  }

  /** The filtered prefix extended by the next element when it passes is the filtered longer prefix. */
  lemma FilterPrefixNext<T(!new)>(s: seq<T>, i: int, f: T -> bool, r: seq<T>)
    requires 0 <= i < |s| && r == Filter(s[..i], f)
    ensures (if f(s[i]) then r + [s[i]] else r) == Filter(s[..i + 1], f)
  {
    FilterPrefixStep(s, i, f);
  }

  /** Array#uniq: the first occurrence of every element, in order. */
  function Dedup<T(==,!new)>(s: seq<T>): (r: seq<T>)
    ensures Distinct(r)
    ensures forall x :: x in r <==> x in s
    ensures |s| > 0 ==> |r| > 0 && r[0] == s[0]
    decreases |s|
  {
    if s == [] then []
    else
      var rest := Filter(s[1..], x => x != s[0]);
      var r := [s[0]] + Dedup(rest);
      assert |rest| < |s|;
      assert s[0] !in Dedup(rest);
      assert forall x :: x in s ==> x == s[0] || x in s[1..];
      r
  }

  /** Array#|: the elements of `a` and then those of `b`, each once, in first-occurrence order. */
  function Union<T(==,!new)>(a: seq<T>, b: seq<T>): (r: seq<T>)
    ensures Distinct(r)
    ensures forall x :: x in r <==> x in a || x in b
  {
    Dedup(a + b)
  }
}
