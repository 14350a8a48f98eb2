/**
  The placeholder tokens, the eight-field `Relocation` value of the two directions
  (freeze: real locations to placeholders; thaw: placeholders to real locations), the
  three-entry replacement map built from a `Relocation`, and the text rewrite that
  `replace_text_in_files` applies to each file.
 */
module Relocations {
  import opened Wrappers
  import opened Substitution

  const PREFIX_PLACEHOLDER: string := "@@HOMEBREW_PREFIX@@"
  const CELLAR_PLACEHOLDER: string := "@@HOMEBREW_CELLAR@@"
  const REPOSITORY_PLACEHOLDER: string := "@@HOMEBREW_REPOSITORY@@"
  const LIBRARY_PLACEHOLDER: string := "@@HOMEBREW_REPOSITORY@@/Library"

  /** Old (searched) and new (replacement) strings for the four locations. */
  datatype Relocation = Relocation(
    oldPrefix: string, oldCellar: string, oldRepository: string, oldLibrary: string,
    newPrefix: string, newCellar: string, newRepository: string, newLibrary: string)

  /** The global locations HOMEBREW_PREFIX, HOMEBREW_CELLAR, HOMEBREW_REPOSITORY and HOMEBREW_LIBRARY. */
  datatype Roots = Roots(prefix: string, cellar: string, repository: string, library: string)

  /** The same relocation run backwards: every old and new value swapped. */
  function Mirror(r: Relocation): Relocation
  {
    Relocation(r.newPrefix, r.newCellar, r.newRepository, r.newLibrary,
               r.oldPrefix, r.oldCellar, r.oldRepository, r.oldLibrary)
  }

  /** The relocation of `replace_locations_with_placeholders`. */
  function FreezeRelocation(roots: Roots): (r: Relocation)
    ensures r.oldPrefix == roots.prefix && r.oldCellar == roots.cellar
    ensures r.oldRepository == roots.repository && r.oldLibrary == roots.library
    ensures IsPrefix("@", r.newPrefix) && IsPrefix("@", r.newCellar) && IsPrefix("@", r.newRepository) && IsPrefix("@", r.newLibrary)
    ensures r.newPrefix != r.newCellar && r.newPrefix != r.newRepository && r.newPrefix != r.newLibrary
    ensures r.newCellar != r.newRepository && r.newCellar != r.newLibrary && r.newRepository != r.newLibrary
  {
    Relocation(roots.prefix, roots.cellar, roots.repository, roots.library,
               PREFIX_PLACEHOLDER, CELLAR_PLACEHOLDER, REPOSITORY_PLACEHOLDER, LIBRARY_PLACEHOLDER)
  }

  /** The relocation of `replace_placeholders_with_locations`: the mirror image of freezing. */
  function ThawRelocation(roots: Roots): (r: Relocation)
    ensures r == Mirror(FreezeRelocation(roots))
    ensures Mirror(r) == FreezeRelocation(roots)
  {
    Relocation(PREFIX_PLACEHOLDER, CELLAR_PLACEHOLDER, REPOSITORY_PLACEHOLDER, LIBRARY_PLACEHOLDER,
               roots.prefix, roots.cellar, roots.repository, roots.library)
  }

  /** `HOMEBREW_PREFIX == HOMEBREW_REPOSITORY`; Pathname equality compares the path strings. */
  function PrefixIsRepository(roots: Roots): bool
  {
    roots.prefix == roots.repository
  }

  /** The third search key: the library when prefix and repository coincide, else the repository. */
  function ThirdKey(r: Relocation, prefixIsRepository: bool): string
  {
    if prefixIsRepository then r.oldLibrary else r.oldRepository
  }

  /**
    The replacement hash. A later assignment to an equal key overwrites the earlier value,
    as in a Ruby Hash; with three distinct keys it has exactly three entries, and the
    repository and library keys are never both searched for.
   */
  function Replacements(r: Relocation, prefixIsRepository: bool): (m: map<string, string>)
    ensures m.Keys == {r.oldPrefix, r.oldCellar, ThirdKey(r, prefixIsRepository)}
    ensures prefixIsRepository ==> m[r.oldLibrary] == r.newLibrary
    ensures !prefixIsRepository ==> m[r.oldRepository] == r.newRepository
    ensures r.oldCellar != ThirdKey(r, prefixIsRepository) ==> m[r.oldCellar] == r.newCellar
    ensures r.oldPrefix != r.oldCellar && r.oldPrefix != ThirdKey(r, prefixIsRepository) ==>
      m[r.oldPrefix] == r.newPrefix
    ensures (r.oldPrefix != r.oldCellar && r.oldPrefix != ThirdKey(r, prefixIsRepository) &&
             r.oldCellar != ThirdKey(r, prefixIsRepository)) ==> |m| == 3
    ensures prefixIsRepository && r.oldRepository in m ==>
      r.oldRepository in {r.oldPrefix, r.oldCellar, r.oldLibrary}
    ensures !prefixIsRepository && r.oldLibrary in m ==>
      r.oldLibrary in {r.oldPrefix, r.oldCellar, r.oldRepository}
  {
    var base := map[r.oldPrefix := r.newPrefix][r.oldCellar := r.newCellar];
    var m := if prefixIsRepository then base[r.oldLibrary := r.newLibrary]
             else base[r.oldRepository := r.newRepository];
    assert m.Keys == {r.oldPrefix, r.oldCellar, ThirdKey(r, prefixIsRepository)};
    m
  }

  /** Appends `k` unless it is already there (Hash#[]= keeps an existing key's position). */
  function AddKey(ks: seq<string>, k: string): seq<string>
  {
    if k in ks then ks else ks + [k]
  }

  /** The replacement hash's keys in insertion order, each once. */
  function ReplacementKeys(r: Relocation, prefixIsRepository: bool): (ks: seq<string>)
    ensures forall k :: k in ks <==> k in Replacements(r, prefixIsRepository)
    ensures forall i, j :: 0 <= i < j < |ks| ==> ks[i] != ks[j]
    ensures |ks| > 0 && ks[0] == r.oldPrefix
    ensures r.oldCellar != r.oldPrefix ==> |ks| > 1 && ks[1] == r.oldCellar
    ensures ThirdKey(r, prefixIsRepository) != r.oldPrefix && ThirdKey(r, prefixIsRepository) != r.oldCellar ==>
      ks[|ks| - 1] == ThirdKey(r, prefixIsRepository)
  {
    var third := ThirdKey(r, prefixIsRepository);
    var two := AddKey([r.oldPrefix], r.oldCellar);
    AddKeyFacts([r.oldPrefix], r.oldCellar);
    AddKeyFacts(two, third);
    ReplacementsKeysAre(r, prefixIsRepository);
    AddKey(two, third)
  }

  /** The keys of the replacement hash, one by one. */
  lemma ReplacementsKeysAre(r: Relocation, prefixIsRepository: bool)
    ensures forall k :: k in Replacements(r, prefixIsRepository) <==>
      k == r.oldPrefix || k == r.oldCellar || k == ThirdKey(r, prefixIsRepository)
  {
  }

  /** Adding a key keeps the earlier keys in place, each once, and appends a new one last. */
  lemma AddKeyFacts(ks: seq<string>, k: string)
    requires forall i, j :: 0 <= i < j < |ks| ==> ks[i] != ks[j]
    ensures var r := AddKey(ks, k);
      && (forall x :: x in r <==> x in ks || x == k)
      && (forall i, j :: 0 <= i < j < |r| ==> r[i] != r[j])
      && |ks| <= |r| && r[..|ks|] == ks
      && (k !in ks ==> r[|r| - 1] == k)
  {
  }

  /** `Regexp.union(replacements.keys.sort_by(&:length).reverse)`: the alternatives in order. */
  function Alternation(r: Relocation, prefixIsRepository: bool): (alts: seq<string>)
    ensures SortedByLengthDesc(alts)
    ensures forall k :: k in alts <==> k in Replacements(r, prefixIsRepository)
  {
    var ks := ReplacementKeys(r, prefixIsRepository);
    var alts := SortByLengthDesc(ks);
    assert forall k :: k in alts <==> k in multiset(ks);
    alts
  }

  /** `s.gsub!(Regexp.union(...), replacements)` on one file's content. */
  function RewriteText(r: Relocation, prefixIsRepository: bool, s: string): (w: Rewrite)
    ensures w.matches == 0 ==> w.text == s
  {
    Gsub(s, Alternation(r, prefixIsRepository), Replacements(r, prefixIsRepository))
  }

  /** The generic `relocate_dynamic_linkage`: no binary is edited and no file is reported. */
  function RelocateDynamicLinkage(r: Relocation): (changed: seq<seq<string>>)
    ensures |changed| == 0
  {
    []
  }

  // ---------------------------------------------------------------------------
  // What the rewrite of one file does.

  /**
    The rewrite replaces, left to right, the longest search key occurring at each
    position; a key that is a prefix of a longer one never splits the longer match.
   */
  lemma RewriteIsLongestMatch(r: Relocation, prefixIsRepository: bool, s: string)
    ensures RewriteText(r, prefixIsRepository, s) == Scan(s, Replacements(r, prefixIsRepository))
  {
    GsubIsScan(s, Alternation(r, prefixIsRepository), Replacements(r, prefixIsRepository));
  }

  /**
    A file counts as changed exactly when one of the search keys occurs in it, and a file
    in which none occurs is left as it is.
   */
  lemma RewriteChangesIff(r: Relocation, prefixIsRepository: bool, s: string)
    ensures RewriteText(r, prefixIsRepository, s).matches > 0 <==>
      exists k :: k in Replacements(r, prefixIsRepository) && OccursIn(k, s)
    ensures RewriteText(r, prefixIsRepository, s).matches == 0 ==>
      RewriteText(r, prefixIsRepository, s).text == s
  {
    RewriteIsLongestMatch(r, prefixIsRepository, s);
    ScanMatchesIff(s, Replacements(r, prefixIsRepository));
    if RewriteText(r, prefixIsRepository, s).matches == 0 {
      ScanWithoutKeys(s, Replacements(r, prefixIsRepository));
    }
  }

  /**
    Where the longest key at the start of the text is `k`, freezing or thawing writes
    its replacement and continues after `k`; the replacement is not scanned again.
   */
  lemma RewriteAtKey(r: Relocation, prefixIsRepository: bool, s: string, k: string)
    requires k in Replacements(r, prefixIsRepository) && |k| > 0 && IsPrefix(k, s)
    requires forall k' :: k' in Replacements(r, prefixIsRepository) && IsPrefix(k', s) ==> |k'| <= |k|
    ensures RewriteText(r, prefixIsRepository, s).text ==
      Replacements(r, prefixIsRepository)[k] + RewriteText(r, prefixIsRepository, s[|k|..]).text
  {
    RewriteIsLongestMatch(r, prefixIsRepository, s);
    RewriteIsLongestMatch(r, prefixIsRepository, s[|k|..]);
    ScanAtKey(s, Replacements(r, prefixIsRepository), k);
  }

  // ---------------------------------------------------------------------------
  // Freezing and then thawing gives back the original text.

  /** The searched roots are non-empty and pairwise distinct. */
  predicate DistinctRoots(roots: Roots) {
    var third := if PrefixIsRepository(roots) then roots.library else roots.repository;
    && roots.prefix != "" && roots.cellar != "" && third != ""
    && roots.prefix != roots.cellar && roots.prefix != third && roots.cellar != third
  }

  lemma PlaceholdersPrefixFree(roots: Roots)
    ensures PrefixFree(Replacements(ThawRelocation(roots), PrefixIsRepository(roots)))
    ensures forall v :: v in Replacements(ThawRelocation(roots), PrefixIsRepository(roots)) ==>
      |v| > 11 && v[0] == '@'
  {
    var m := Replacements(ThawRelocation(roots), PrefixIsRepository(roots));
    var p, c := PREFIX_PLACEHOLDER, CELLAR_PLACEHOLDER;
    var third := if PrefixIsRepository(roots) then LIBRARY_PLACEHOLDER else REPOSITORY_PLACEHOLDER;
    PlaceholderLetters();
    assert m.Keys == {p, c, third};
    forall v, w | v in m && w in m && v != w ensures !IsPrefix(v, w) {
      DifferAtNotPrefix(v, w, 11);
    }
  }

  /** Each placeholder starts with '@' and names its location from position 11 on. */
  lemma PlaceholderLetters()
    ensures |PREFIX_PLACEHOLDER| > 11 && PREFIX_PLACEHOLDER[0] == '@' && PREFIX_PLACEHOLDER[11] == 'P'
    ensures |CELLAR_PLACEHOLDER| > 11 && CELLAR_PLACEHOLDER[0] == '@' && CELLAR_PLACEHOLDER[11] == 'C'
    ensures |REPOSITORY_PLACEHOLDER| > 11 && REPOSITORY_PLACEHOLDER[0] == '@' && REPOSITORY_PLACEHOLDER[11] == 'R'
    ensures |LIBRARY_PLACEHOLDER| > 11 && LIBRARY_PLACEHOLDER[0] == '@' && LIBRARY_PLACEHOLDER[11] == 'R'
  {
  }

  /** Strings that differ at a position both have are not prefixes of each other. */
  lemma DifferAtNotPrefix(v: string, w: string, i: nat)
    requires i < |v| && i < |w| && v[i] != w[i]
    ensures !IsPrefix(v, w)
  {
    if |v| <= |w| { assert w[..|v|][i] == w[i]; }
  }

  /** The four placeholders are pairwise different. */
  lemma PlaceholdersDistinct()
    ensures PREFIX_PLACEHOLDER != CELLAR_PLACEHOLDER && PREFIX_PLACEHOLDER != REPOSITORY_PLACEHOLDER
    ensures PREFIX_PLACEHOLDER != LIBRARY_PLACEHOLDER && CELLAR_PLACEHOLDER != REPOSITORY_PLACEHOLDER
    ensures CELLAR_PLACEHOLDER != LIBRARY_PLACEHOLDER && REPOSITORY_PLACEHOLDER != LIBRARY_PLACEHOLDER
  {
    var p, c, rep, lib := PREFIX_PLACEHOLDER, CELLAR_PLACEHOLDER, REPOSITORY_PLACEHOLDER, LIBRARY_PLACEHOLDER;
    assert p[11] == 'P' && c[11] == 'C' && rep[11] == 'R' && |rep| != |lib|;
  }

  /** The thaw map sends each placeholder back to the location that freezing replaced by it. */
  lemma FreezeThawInverse(roots: Roots)
    requires DistinctRoots(roots)
    ensures var same := PrefixIsRepository(roots);
      var m, inv := Replacements(FreezeRelocation(roots), same), Replacements(ThawRelocation(roots), same);
      forall k :: k in m ==> m[k] in inv && inv[m[k]] == k
  {
    PlaceholdersDistinct();
  }

  lemma FreezeKeysNonEmpty(roots: Roots)
    requires DistinctRoots(roots)
    ensures forall k :: k in Replacements(FreezeRelocation(roots), PrefixIsRepository(roots)) ==> |k| > 0
  {
    var f := FreezeRelocation(roots);
    var third := ThirdKey(f, PrefixIsRepository(roots));
    assert Replacements(f, PrefixIsRepository(roots)).Keys == {roots.prefix, roots.cellar, third};
  }

  /**
    Thawing what freezing produced gives back the original text, provided the roots are
    non-empty and distinct and the text contains no '@', the first character of every
    placeholder.
   */
  lemma FreezeThawRoundTrip(roots: Roots, s: string)
    requires DistinctRoots(roots)
    requires '@' !in s
    ensures var same := PrefixIsRepository(roots);
      RewriteText(ThawRelocation(roots), same, RewriteText(FreezeRelocation(roots), same, s).text).text == s
  {
    var same := PrefixIsRepository(roots);
    var f, t := FreezeRelocation(roots), ThawRelocation(roots);
    var m, inv := Replacements(f, same), Replacements(t, same);
    PlaceholdersPrefixFree(roots);
    FreezeThawInverse(roots);
    FreezeKeysNonEmpty(roots);
    RewriteIsLongestMatch(f, same, s);
    RewriteIsLongestMatch(t, same, RewriteText(f, same, s).text);
    ScanRoundTrip(s, m, inv, '@');
  }

  // ---------------------------------------------------------------------------
  // Two concrete layouts.

  /** A string that extends `p` cannot occur where `p` does not. */
  lemma ExtensionNoOccurrence(p: string, k: string, s: string)
    requires IsPrefix(p, k) && !OccursIn(p, s)
    ensures !OccursIn(k, s)
  {
    forall i | 0 <= i <= |s| ensures !IsPrefix(k, s[i..]) {
      PrefixOfPrefix(p, k, s[i..]);
    }
  }

  /** A prefix of a prefix of `t` is a prefix of `t`. */
  lemma PrefixOfPrefix(p: string, k: string, t: string)
    requires IsPrefix(p, k)
    ensures IsPrefix(k, t) ==> IsPrefix(p, t)
  {
    if IsPrefix(k, t) { assert t[..|p|] == k[..|p|]; }
  }

  /** The token freezing writes for the search key `k` of `roots`. */
  function RootToken(roots: Roots, k: string): string
  {
    if k == roots.prefix then PREFIX_PLACEHOLDER
    else if k == roots.cellar then CELLAR_PLACEHOLDER
    else if PrefixIsRepository(roots) then LIBRARY_PLACEHOLDER
    else REPOSITORY_PLACEHOLDER
  }

  /**
    For any distinct roots: a text that starts with the search key `k`, where no longer
    key also matches and no key occurs in the rest, freezes to `k`'s own token followed by
    the unchanged rest: the prefix, cellar, library (prefix and repository shared) or
    repository (separate) token.
   */
  lemma FreezeRootPath(roots: Roots, k: string, tail: string)
    requires DistinctRoots(roots)
    requires k in Replacements(FreezeRelocation(roots), PrefixIsRepository(roots))
    requires forall k' ::
      (k' in Replacements(FreezeRelocation(roots), PrefixIsRepository(roots)) && IsPrefix(k', k + tail)) ==> |k'| <= |k|
    requires forall k' :: k' in Replacements(FreezeRelocation(roots), PrefixIsRepository(roots)) ==>
      !OccursIn(k', tail)
    ensures RewriteText(FreezeRelocation(roots), PrefixIsRepository(roots), k + tail).text == RootToken(roots, k) + tail
  {
    var same := PrefixIsRepository(roots);
    var r := FreezeRelocation(roots);
    var m := Replacements(r, same);
    assert m.Keys == {roots.prefix, roots.cellar, ThirdKey(r, same)};
    assert m[k] == RootToken(roots, k);
    FreezeKeysNonEmpty(roots);
    RewriteKeyThenPlain(r, same, k, tail);
  }

  /** Roots of a prefix that is also the repository, "/opt/pkg". */
  const SharedRoots := Roots("/opt/pkg", "/opt/pkg/Cellar", "/opt/pkg", "/opt/pkg/Library")

  /** Every search key of `SharedRoots` starts with the prefix, so none occurs in a text without it. */
  lemma SharedRootsTail(r: Relocation, tail: string)
    requires r == FreezeRelocation(SharedRoots)
    requires !OccursIn(SharedRoots.prefix, tail)
    ensures forall k :: k in Replacements(r, true) ==> !OccursIn(k, tail)
  {
    SharedRootsKeys(r);
    var m := Replacements(r, true);
    forall k | k in m ensures !OccursIn(k, tail) {
      assert k[..8] == SharedRoots.prefix;
      ExtensionNoOccurrence(SharedRoots.prefix, k, tail);
    }
  }

  /**
    A text starting with the search key `k`, where no longer key matches and no key occurs
    in the rest, is rewritten to `k`'s replacement followed by the unchanged rest.
   */
  lemma RewriteKeyThenPlain(r: Relocation, prefixIsRepository: bool, k: string, tail: string)
    requires k in Replacements(r, prefixIsRepository) && |k| > 0
    requires forall k' :: k' in Replacements(r, prefixIsRepository) && IsPrefix(k', k + tail) ==> |k'| <= |k|
    requires forall k' :: k' in Replacements(r, prefixIsRepository) ==> !OccursIn(k', tail)
    ensures RewriteText(r, prefixIsRepository, k + tail).text == Replacements(r, prefixIsRepository)[k] + tail
  {
    assert (k + tail)[..|k|] == k && (k + tail)[|k|..] == tail;
    RewriteAtKey(r, prefixIsRepository, k + tail, k);
    RewriteIsLongestMatch(r, prefixIsRepository, tail);
    ScanWithoutKeys(tail, Replacements(r, prefixIsRepository));
  }

  /** The search keys of `SharedRoots` when freezing, and the tokens the cellar and library keys map to. */
  lemma SharedRootsKeys(r: Relocation)
    requires r == FreezeRelocation(SharedRoots)
    ensures Replacements(r, true).Keys == {SharedRoots.prefix, SharedRoots.cellar, SharedRoots.library}
    ensures Replacements(r, true)[SharedRoots.cellar] == CELLAR_PLACEHOLDER
    ensures Replacements(r, true)[SharedRoots.library] == LIBRARY_PLACEHOLDER
  {
    assert SharedRoots.cellar != SharedRoots.library;
  }

  /**
    With prefix and repository "/opt/pkg" and cellar "/opt/pkg/Cellar", a cellar path whose
    rest does not mention the prefix freezes to the cellar token, not to the shorter prefix
    token.
   */
  lemma FreezeCellarPath(tail: string)
    requires !OccursIn(SharedRoots.prefix, tail)
    ensures RewriteText(FreezeRelocation(SharedRoots), true, SharedRoots.cellar + tail).text
      == CELLAR_PLACEHOLDER + tail
  {
    var r, k := FreezeRelocation(SharedRoots), SharedRoots.cellar;
    var m := Replacements(r, true);
    SharedRootsKeys(r);
    assert (k + tail)[9] == 'C' && SharedRoots.library[9] == 'L';
    DifferAtNotPrefix(SharedRoots.library, k + tail, 9);
    forall k' | k' in m && IsPrefix(k', k + tail) ensures |k'| <= |k| {
      assert k' == SharedRoots.prefix || k' == k;
    }
    SharedRootsTail(r, tail);
    FreezeRootPath(SharedRoots, k, tail);
  }

  /**
    When the prefix is the repository, a path under the library whose rest does not
    mention the prefix freezes to the library token, not to the repository or prefix token.
   */
  lemma FreezeLibraryPath(tail: string)
    requires !OccursIn(SharedRoots.prefix, tail)
    ensures RewriteText(FreezeRelocation(SharedRoots), true, SharedRoots.library + tail).text
      == LIBRARY_PLACEHOLDER + tail
  {
    var r, k := FreezeRelocation(SharedRoots), SharedRoots.library;
    var m := Replacements(r, true);
    SharedRootsKeys(r);
    assert forall k' :: k' in m ==> |k'| <= |k|;
    SharedRootsTail(r, tail);
    FreezeRootPath(SharedRoots, k, tail);
  }

  /** Roots of a repository "/opt/repo" apart from the prefix "/opt/pkg". */
  const SeparateRoots := Roots("/opt/pkg", "/opt/pkg/Cellar", "/opt/repo", "/opt/repo/Library")

  /** The search keys of `SeparateRoots` when freezing: prefix, cellar and repository, all under "/opt/". */
  lemma SeparateRootsKeys(r: Relocation)
    requires r == FreezeRelocation(SeparateRoots)
    ensures Replacements(r, false).Keys == {SeparateRoots.prefix, SeparateRoots.cellar, SeparateRoots.repository}
    ensures forall k :: k in Replacements(r, false) ==> |k| >= 5 && k[..5] == "/opt/"
  {
    assert SeparateRoots.repository[..5] == "/opt/";
  }

  /** No search key of `SeparateRoots` occurs in a text without "/opt/". */
  lemma SeparateRootsTail(r: Relocation, tail: string)
    requires r == FreezeRelocation(SeparateRoots)
    requires !OccursIn("/opt/", tail)
    ensures forall k :: k in Replacements(r, false) ==> !OccursIn(k, tail)
  {
    SeparateRootsKeys(r);
    forall k | k in Replacements(r, false) ensures !OccursIn(k, tail) {
      ExtensionNoOccurrence("/opt/", k, tail);
    }
  }

  /** Neither the prefix nor the cellar of `SeparateRoots` starts a path under its repository. */
  lemma SeparateRepositoryOnly(tail: string)
    ensures !IsPrefix(SeparateRoots.prefix, SeparateRoots.repository + tail)
    ensures !IsPrefix(SeparateRoots.cellar, SeparateRoots.repository + tail)
  {
    var s := SeparateRoots.repository + tail;
    assert s[5] == SeparateRoots.repository[5] == 'r';
    assert SeparateRoots.prefix[5] == 'p' && SeparateRoots.cellar[5] == 'p';
    DifferAtNotPrefix(SeparateRoots.prefix, s, 5);
    DifferAtNotPrefix(SeparateRoots.cellar, s, 5);
  }

  /** Under the `SeparateRoots` repository, no search key is longer than the repository. */
  lemma SeparateRepositoryLongest(r: Relocation, tail: string)
    requires r == FreezeRelocation(SeparateRoots)
    ensures forall k :: (k in Replacements(r, false) && IsPrefix(k, SeparateRoots.repository + tail)) ==>
      |k| <= |SeparateRoots.repository|
  {
    SeparateRootsKeys(r);
    SeparateRepositoryOnly(tail);
  }

  /**
    When the repository is apart from the prefix, the repository itself is searched for
    (the library is not): a path under it whose rest does not mention "/opt/" freezes to
    the repository token.
   */
  lemma FreezeRepositoryPath(tail: string)
    requires !OccursIn("/opt/", tail)
    ensures RewriteText(FreezeRelocation(SeparateRoots), false, SeparateRoots.repository + tail).text
      == REPOSITORY_PLACEHOLDER + tail
  {
    var r := FreezeRelocation(SeparateRoots);
    SeparateRootsKeys(r);
    SeparateRootsTail(r, tail);
    SeparateRepositoryLongest(r, tail);
    assert |SeparateRoots.prefix| == 8 && |SeparateRoots.cellar| == 15 && |SeparateRoots.repository| == 9;
    FreezeRootPath(SeparateRoots, SeparateRoots.repository, tail);
  }
}
