/**
  Which files of a keg the relocation touches: the text files (a walk filter plus the
  parsed output of the `file` probe), the libtool files, the symlinks, the de-duplication
  of `fgrep` output by inode, and the rewriting of absolute symlink targets into relative
  ones. Everything here is a function of a `Disk` value; the `Keg` methods compute the
  same results with loops.
 */
module Selection {
  import opened Wrappers
  import opened Paths
  import opened Lists
  import opened Substitution
  import opened Disks
  import opened Relocations

  /**
    The external collaborators: whether `which("file")` and `which("xargs")` succeed,
    Pathname#text_executable?, and the output of `xargs -0 file --no-dereference --print0`
    for a given standard input.
   */
  datatype Tools = Tools(haveFile: bool, haveXargs: bool, textExecutable: Path -> bool, probe: string -> string)

  /** Metafiles::EXTENSIONS and Keg::LIBTOOL_EXTENSIONS, which are defined elsewhere. */
  datatype Config = Config(metafileExtensions: set<string>, libtoolExtensions: set<string>)

  /** What the candidate filter of `text_files` does with one walked entry. */
  datatype Verdict = Skip | Probe | DirectText

  const ORIG_PREFIX: string := "orig-prefix.txt"

  /** The keg's own formula copy, `.brew/<name>.rb`. */
  function BrewFormula(kegPath: Path, name: string): Path
  {
    kegPath + [".brew", name + ".rb"]
  }

  /** The candidate filter, tests in source order. */
  function Classify(d: Disk, kegPath: Path, name: string, config: Config, tools: Tools, p: Path): (v: Verdict)
    ensures v != Skip ==> p !in d.links && p !in d.dirs
    ensures v == DirectText ==> tools.textExecutable(p) && Basename(p) != ORIG_PREFIX
    ensures p !in d.links && p !in d.dirs && Basename(p) == ORIG_PREFIX ==> v == Probe
  {
    if p in d.links then Skip
    else if p in d.dirs then Skip
    else if Basename(p) == ORIG_PREFIX then Probe
    else if p == BrewFormula(kegPath, name) then Skip
    else if Extname(Basename(p)) in config.metafileExtensions then Skip
    else if tools.textExecutable(p) then DirectText
    else Probe
  }

  /**
    A walked entry that is not skipped is a regular file; it is `orig-prefix.txt` or it
    is neither the formula copy nor a metafile; it is taken without probing exactly
    when `text_executable?` holds and it is not `orig-prefix.txt`; and it is handed to
    the probe exactly when it is `orig-prefix.txt` or a regular file that is neither
    excluded nor a text executable.
   */
  lemma ClassifyMeaning(d: Disk, kegPath: Path, name: string, config: Config, tools: Tools, p: Path)
    requires Exists(d, p)
    ensures Classify(d, kegPath, name, config, tools, p) != Skip ==>
      p in d.files && p !in d.links && p !in d.dirs &&
      (Basename(p) == ORIG_PREFIX ||
       (p != BrewFormula(kegPath, name) && Extname(Basename(p)) !in config.metafileExtensions))
    ensures Classify(d, kegPath, name, config, tools, p) == DirectText <==>
      p in d.files && p !in d.links && p !in d.dirs && Basename(p) != ORIG_PREFIX &&
      p != BrewFormula(kegPath, name) && Extname(Basename(p)) !in config.metafileExtensions &&
      tools.textExecutable(p)
    ensures Classify(d, kegPath, name, config, tools, p) == Probe <==>
      p in d.files && p !in d.links && p !in d.dirs &&
      (Basename(p) == ORIG_PREFIX ||
       (p != BrewFormula(kegPath, name) && Extname(Basename(p)) !in config.metafileExtensions &&
        !tools.textExecutable(p)))
  {
  }

  /** The index of the first `c` in `s`, or |s|. */
  function IndexOf(s: string, c: char): (i: nat)
    ensures i <= |s| && c !in s[..i]
    ensures i < |s| ==> s[i] == c
  {
    if s == [] then 0
    else if s[0] == c then 0
    else
      var i := IndexOf(s[1..], c);
      assert s[..i + 1] == [s[0]] + s[1..][..i];
      1 + i
  }

  /** The strings joined by NUL separators (Array#join("\0")). */
  function NulJoin(ss: seq<string>): string
  {
    if |ss| == 0 then "" else if |ss| == 1 then ss[0] else ss[0] + "\0" + NulJoin(ss[1..])
  }

  /** All the lines concatenated again. */
  function Concat(ls: seq<string>): string
  {
    if ls == [] then "" else ls[0] + Concat(ls[1..])
  }

  /** String#each_line: pieces that end just after each newline, and a last unterminated piece. */
  function Lines(s: string): seq<string>
    decreases |s|
  {
    if s == [] then []
    else
      var i := IndexOf(s, '\n');
      if i == |s| then [s]
      else [s[..i + 1]] + Lines(s[i + 1..])
  }

  /** The lines concatenate back to the text. */
  lemma {:induction false} LinesConcat(s: string)
    ensures Concat(Lines(s)) == s
    decreases |s|
  {
    if s != [] {
      var i := IndexOf(s, '\n');
      if i == |s| {
        assert Concat([s]) == s + Concat([]);
      } else {
        var line, rest := s[..i + 1], s[i + 1..];
        LinesConcat(rest);
        var ls := [line] + Lines(rest);
        assert Lines(s) == ls && ls[0] == line && ls[1..] == Lines(rest);
        assert line + rest == s;
      }
    }
  }

  /** A non-empty line with no newline before its end, which is a newline when `terminated`. */
  predicate LineShape(l: string, terminated: bool) {
    l != "" && '\n' !in l[..|l| - 1] && (terminated ==> l[|l| - 1] == '\n')
  }

  /** No line is empty, every line but the last ends in its only newline, and the last has none before its end. */
  predicate LinesShaped(ls: seq<string>) {
    forall i :: 0 <= i < |ls| ==> LineShape(ls[i], i < |ls| - 1)
  }

  lemma {:induction false} LinesShape(s: string)
    ensures LinesShaped(Lines(s))
    decreases |s|
  {
    if s != [] {
      var i := IndexOf(s, '\n');
      if i < |s| {
        var line, rest := s[..i + 1], s[i + 1..];
        LinesShape(rest);
        var tail := Lines(rest);
        var ls := [line] + tail;
        assert Lines(s) == ls;
        assert line[..|line| - 1] == s[..i] && line[|line| - 1] == '\n';
        assert LineShape(line, true);
        assert LinesShaped(tail);
        forall k | 0 < k < |ls| ensures LineShape(ls[k], k < |ls| - 1) {
          assert ls[k] == tail[k - 1] && LineShape(tail[k - 1], k - 1 < |tail| - 1);
        }
      }
    }
  }

  /** `line.split("\0", 2)` when it yields two parts: the text before and after the first NUL. */
  function SplitNul(line: string): (r: Option<(string, string)>)
    ensures r.Some? <==> '\0' in line
    ensures r.Some? ==> line == r.value.0 + "\0" + r.value.1 && '\0' !in r.value.0
  {
    var i := IndexOf(line, '\0');
    if i == |line| then
      assert line[..i] == line;
      None
    else
      assert line == line[..i] + "\0" + line[i + 1..];
      Some((line[..i], line[i + 1..]))
  }

  /** `files.include?(Pathname.new(s))`: Pathname equality compares the path strings. */
  predicate IsCandidate(s: string, cands: seq<Path>) {
    exists i :: 0 <= i < |cands| && Render(cands[i]) == s
  }

  /** What one line of probe output contributes: its path when the description mentions "text". */
  function AcceptLine(line: string, cands: seq<Path>): seq<Path>
  {
    match SplitNul(line)
    case None => []
    case Some((path, info)) =>
      if OccursIn("text", info) && IsCandidate(path, cands) then [Components(path)] else []
  }

  /** The paths taken from the probe output lines, in line order. */
  function Accepted(lines: seq<string>, cands: seq<Path>): seq<Path>
    decreases |lines|
  {
    if lines == [] then []
    else Accepted(lines[..|lines| - 1], cands) + AcceptLine(lines[|lines| - 1], cands)
  }

  /**
    A path is taken from the probe output only if it is a candidate and some line holds
    its path string, a NUL, and a description containing "text".
   */
  lemma {:induction false} AcceptedSound(lines: seq<string>, cands: seq<Path>)
    requires forall i :: 0 <= i < |cands| ==> IsNormal(cands[i])
    ensures forall p :: p in Accepted(lines, cands) ==>
      p in cands &&
      exists i, info :: 0 <= i < |lines| && lines[i] == Render(p) + "\0" + info && OccursIn("text", info)
    decreases |lines|
  {
    if lines != [] {
      var init, last := lines[..|lines| - 1], lines[|lines| - 1];
      AcceptedSound(init, cands);
      forall p | p in Accepted(lines, cands)
        ensures p in cands
        ensures exists i, info :: 0 <= i < |lines| && lines[i] == Render(p) + "\0" + info && OccursIn("text", info)
      {
        if p in Accepted(init, cands) {
          var i, info :| 0 <= i < |init| && init[i] == Render(p) + "\0" + info && OccursIn("text", info);
          assert lines[i] == init[i];
        } else {
          var path, info := SplitNul(last).value.0, SplitNul(last).value.1;
          var k :| 0 <= k < |cands| && Render(cands[k]) == path;
          ComponentsOfRender(cands[k]);
          assert p == cands[k];
          assert lines[|lines| - 1] == Render(p) + "\0" + info;
        }
      }
    }
  }

  lemma {:induction false} AcceptedAppend(lines: seq<string>, line: string, cands: seq<Path>)
    ensures Accepted(lines + [line], cands) == Accepted(lines, cands) + AcceptLine(line, cands)
  {
    assert (lines + [line])[..|lines + [line]| - 1] == lines;
  }

  /** Reading one more line of the output appends what that line contributes. */
  lemma AcceptedPrefixStep(lines: seq<string>, j: int, cands: seq<Path>)
    requires 0 <= j < |lines|
    ensures Accepted(lines[..j + 1], cands) == Accepted(lines[..j], cands) + AcceptLine(lines[j], cands)
  {
    AcceptedAppend(lines[..j], lines[j], cands);
    assert lines[..j + 1] == lines[..j] + [lines[j]];
  }

  /**
    Every path taken from the probe output is a candidate, and a candidate is taken
    when some line holds its path string, a NUL, and a description containing "text".
   */
  lemma {:induction false} AcceptedMeaning(lines: seq<string>, cands: seq<Path>)
    requires forall i :: 0 <= i < |cands| ==> IsNormal(cands[i]) && NoNul(cands[i])
    ensures forall p :: p in Accepted(lines, cands) ==> p in cands
    ensures forall i, c, info :: (0 <= i < |lines| && c in cands &&
      lines[i] == Render(c) + "\0" + info && OccursIn("text", info)) ==> c in Accepted(lines, cands)
    decreases |lines|
  {
    if lines != [] {
      var init, last := lines[..|lines| - 1], lines[|lines| - 1];
      AcceptedMeaning(init, cands);
      var tail := AcceptLine(last, cands);
      match SplitNul(last) {
        case None =>
        case Some((path, info)) =>
          if OccursIn("text", info) && IsCandidate(path, cands) {
            var k :| 0 <= k < |cands| && Render(cands[k]) == path;
            ComponentsOfRender(cands[k]);
          }
      }
      assert forall p :: p in tail ==> p in cands;
      forall i, c, info | 0 <= i < |lines| && c in cands &&
        lines[i] == Render(c) + "\0" + info && OccursIn("text", info)
        ensures c in Accepted(lines, cands)
      {
        if i < |lines| - 1 {
          assert lines[i] == init[i];
        } else {
          var split := SplitNul(last);
          assert '\0' !in Render(c) by { RenderHasNoNul(c); }
          SplitNulOf(Render(c), info);
          var k :| 0 <= k < |cands| && cands[k] == c;
          ComponentsOfRender(c);
          assert tail == [c];
        }
      }
    }
  }

  lemma RenderHasNoNul(p: Path)
    requires NoNul(p)
    ensures '\0' !in Render(p)
  {
    JoinChars(p);
  }

  lemma {:induction false} JoinChars(p: seq<string>)
    ensures forall ch :: ch in Join(p) ==> ch == '/' || exists i :: 0 <= i < |p| && ch in p[i]
  {
    if |p| > 1 {
      JoinChars(p[1..]);
      forall ch | ch in Join(p) ensures ch == '/' || exists i :: 0 <= i < |p| && ch in p[i] {
        if ch in Join(p[1..]) && ch != '/' {
          var i :| 0 <= i < |p[1..]| && ch in p[1..][i];
          assert ch in p[i + 1];
        } else if ch in p[0] {
          assert ch in p[0];
        }
      }
    } else if |p| == 1 {
      assert forall ch :: ch in Join(p) ==> ch in p[0];
    }
  }

  lemma SplitNulOf(x: string, info: string)
    requires '\0' !in x
    ensures SplitNul(x + "\0" + info) == Some((x, info))
  {
    var line := x + "\0" + info;
    var i := IndexOf(line, '\0');
    assert line[|x|] == '\0';
    assert line[..i] == x && line[i + 1..] == info;
  }

  function IsDirect(d: Disk, kegPath: Path, name: string, config: Config, tools: Tools): Path -> bool
  {
    p => Classify(d, kegPath, name, config, tools, p) == DirectText
  }

  function IsProbed(d: Disk, kegPath: Path, name: string, config: Config, tools: Tools): Path -> bool
  {
    p => Classify(d, kegPath, name, config, tools, p) == Probe
  }

  /** The standard input of the probe: the candidates' path strings joined by NUL. */
  function ProbeInput(cands: seq<Path>): string
  {
    NulJoin(seq(|cands|, i requires 0 <= i < |cands| => Render(cands[i])))
  }

  /** `text_files`: the text executables in walk order, then the paths the probe reports as text. */
  function TextFiles(d: Disk, kegPath: Path, name: string, config: Config, tools: Tools): (r: seq<Path>)
    ensures !tools.haveFile || !tools.haveXargs ==> r == []
  {
    if !tools.haveFile || !tools.haveXargs then []
    else
      var walk := Walk(d, kegPath);
      var cands := Filter(walk, IsProbed(d, kegPath, name, config, tools));
      Filter(walk, IsDirect(d, kegPath, name, config, tools))
        + Accepted(Lines(tools.probe(ProbeInput(cands))), cands)
  }

  /**
    `text_files` is empty when either tool is missing; otherwise it holds every text
    executable of the walk and every probe candidate for which the probe printed a line
    of its path, a NUL, and a description mentioning "text".
   */
  lemma TextFilesComplete(d: Disk, kegPath: Path, name: string, config: Config, tools: Tools)
    ensures !tools.haveFile || !tools.haveXargs ==> TextFiles(d, kegPath, name, config, tools) == []
    ensures tools.haveFile && tools.haveXargs ==> forall p :: (p in Walk(d, kegPath) &&
      Classify(d, kegPath, name, config, tools, p) == DirectText) ==> p in TextFiles(d, kegPath, name, config, tools)
    ensures tools.haveFile && tools.haveXargs && WellFormed(d) ==>
      var cands := Filter(Walk(d, kegPath), IsProbed(d, kegPath, name, config, tools));
      var lines := Lines(tools.probe(ProbeInput(cands)));
      forall p, i, info :: (p in Walk(d, kegPath) && Classify(d, kegPath, name, config, tools, p) == Probe &&
        0 <= i < |lines| && lines[i] == Render(p) + "\0" + info && OccursIn("text", info)) ==>
        p in TextFiles(d, kegPath, name, config, tools)
  {
    if tools.haveFile && tools.haveXargs {
      var walk := Walk(d, kegPath);
      var direct := Filter(walk, IsDirect(d, kegPath, name, config, tools));
      var cands := Filter(walk, IsProbed(d, kegPath, name, config, tools));
      var lines := Lines(tools.probe(ProbeInput(cands)));
      assert TextFiles(d, kegPath, name, config, tools) == direct + Accepted(lines, cands);
      assert forall p :: p in walk && Classify(d, kegPath, name, config, tools, p) == DirectText ==> p in direct;
      if WellFormed(d) {
        CandidatesNormal(d, kegPath, IsProbed(d, kegPath, name, config, tools), cands);
        AcceptedMeaning(lines, cands);
        assert forall p :: p in walk && Classify(d, kegPath, name, config, tools, p) == Probe ==> p in cands;
      }
    }
  }

  /** The probe candidates, like every walked entry, are normal paths free of NUL bytes. */
  lemma CandidatesNormal(d: Disk, kegPath: Path, f: Path -> bool, cands: seq<Path>)
    requires WellFormed(d) && cands == Filter(Walk(d, kegPath), f)
    ensures forall i :: 0 <= i < |cands| ==> IsNormal(cands[i]) && NoNul(cands[i])
  {
    forall i | 0 <= i < |cands| ensures IsNormal(cands[i]) && NoNul(cands[i]) {
      assert cands[i] in d.order;
      var j :| 0 <= j < |d.order| && d.order[j] == cands[i];
    }
  }

  /** The text executables of the walk and any paths taken from probe output are walked, non-skipped regular files. */
  lemma ProbeResultSound(d: Disk, kegPath: Path, name: string, config: Config, tools: Tools, lines: seq<string>)
    requires WellFormed(d)
    ensures var walk := Walk(d, kegPath);
      var cands := Filter(walk, IsProbed(d, kegPath, name, config, tools));
      forall p :: p in Filter(walk, IsDirect(d, kegPath, name, config, tools)) + Accepted(lines, cands) ==>
        p in walk && p in d.files && Classify(d, kegPath, name, config, tools, p) != Skip
  {
    var walk := Walk(d, kegPath);
    var direct := Filter(walk, IsDirect(d, kegPath, name, config, tools));
    var cands := Filter(walk, IsProbed(d, kegPath, name, config, tools));
    CandidatesNormal(d, kegPath, IsProbed(d, kegPath, name, config, tools), cands);
    AcceptedMeaning(lines, cands);
    forall p | p in direct + Accepted(lines, cands)
      ensures p in walk && p in d.files && Classify(d, kegPath, name, config, tools, p) != Skip
    {
      assert p in direct || p in cands;
      ClassifyMeaning(d, kegPath, name, config, tools, p);
    }
  }

  /** Everything in `text_files` is a walked regular file that the candidate filter did not skip. */
  lemma TextFilesSound(d: Disk, kegPath: Path, name: string, config: Config, tools: Tools)
    requires WellFormed(d)
    ensures forall p :: p in TextFiles(d, kegPath, name, config, tools) ==>
      p in Walk(d, kegPath) && p in d.files && Classify(d, kegPath, name, config, tools, p) != Skip
  {
    if tools.haveFile && tools.haveXargs {
      var cands := Filter(Walk(d, kegPath), IsProbed(d, kegPath, name, config, tools));
      ProbeResultSound(d, kegPath, name, config, tools, Lines(tools.probe(ProbeInput(cands))));
    }
  }

  /** `libtool_files`: the walked entries that are neither symlinks nor directories and have a libtool extension. */
  function LibtoolFiles(d: Disk, kegPath: Path, config: Config): (r: seq<Path>)
    ensures forall p :: p in r <==> (p in Walk(d, kegPath) && p in d.files && p !in d.links &&
      p !in d.dirs && Extname(Basename(p)) in config.libtoolExtensions)
  {
    Filter(Walk(d, kegPath), IsLibtool(d, config))
  }

  function IsLibtool(d: Disk, config: Config): Path -> bool
  {
    p => p !in d.links && p !in d.dirs && Extname(Basename(p)) in config.libtoolExtensions
  }

  /** `symlink_files`: the walked symlinks, in walk order. */
  function SymlinkFiles(d: Disk, kegPath: Path): (r: seq<Path>)
    ensures forall p :: p in r <==> p in d.order && Within(kegPath, p) && p in d.links
    ensures WellFormed(d) ==> Distinct(r)
  {
    var ps := Filter(Walk(d, kegPath), IsSymlink(d));
    if WellFormed(d) then FilterDistinct(Walk(d, kegPath), IsSymlink(d)); ps else ps
  }

  function IsSymlink(d: Disk): Path -> bool
  {
    p => p in d.links
  }

  /** The default file list `text_files | libtool_files`. */
  function DefaultFiles(d: Disk, kegPath: Path, name: string, config: Config, tools: Tools): (r: seq<Path>)
    ensures Distinct(r)
  {
    Union(TextFiles(d, kegPath, name, config, tools), LibtoolFiles(d, kegPath, config))
  }

  // ---------------------------------------------------------------------------
  // Symlink relativization.

  /** The symlink target is rewritten: it is absolute and starts with the cellar or prefix string. */
  predicate Fixable(t: string, roots: Roots) {
    IsAbsolute(t) && (StartsWith(t, roots.cellar) || StartsWith(t, roots.prefix))
  }

  /**
    The target `fix_dynamic_linkage` leaves at the symlink `link`: a fixable target becomes
    a relative one that, resolved from the link's directory, names the same cleaned absolute
    path; any other target is kept.
   */
  function FixTarget(t: string, link: Path, roots: Roots): (r: string)
    ensures !Fixable(t, roots) ==> r == t
    ensures Fixable(t, roots) ==> !IsAbsolute(r) && Follow(Parent(link), Components(r)) == Clean(t)
  {
    if Fixable(t, roots) then
      var parts := RelativeFrom(Clean(t), Parent(link));
      var r := RenderRelative(parts);
      assert !IsAbsolute(r) && Follow(Parent(link), Components(r)) == Clean(t) by {
        CleanIsNormal(t);
        RelativeFromResolves(Clean(t), Parent(link));
        ComponentsOfRelative(parts);
        if parts != [] { JoinStart(parts); }
      }
      r
    else t
  }

  lemma JoinStart(parts: seq<string>)
    requires |parts| > 0 && parts[0] != ""
    ensures |Join(parts)| > 0 && Join(parts)[0] == parts[0][0]
  {
  }

  /** Fixing a link a second time changes nothing. */
  lemma FixTargetIdempotent(t: string, link: Path, roots: Roots)
    ensures FixTarget(FixTarget(t, link, roots), link, roots) == FixTarget(t, link, roots)
  {
  }

  /** `fix_dynamic_linkage` over the listed symlinks, one at a time. */
  function FixLinks(d: Disk, ps: seq<Path>, roots: Roots): (r: Disk)
    ensures r.links.Keys == d.links.Keys
    ensures r.contents == d.contents && r.dirs == d.dirs && r.order == d.order && r.next == d.next
    decreases |ps|
  {
    if ps == [] then d else FixLinks(FixedAt(d, ps[0], roots), ps[1..], roots)
  }

  /** One link of the relativization: a fixable symlink is unlinked and re-created with its fixed target. */
  function FixedAt(d: Disk, p: Path, roots: Roots): Disk
  {
    if p in d.links && Fixable(d.links[p], roots) then Symlinked(Removed(d, p), p, FixTarget(d.links[p], p, roots)) else d
  }

  /** One step changes only the link at `p`, to its fixed target. */
  lemma FixedAtEffect(d: Disk, p: Path, roots: Roots)
    requires WellFormed(d) && p in d.links
    ensures var r := FixedAt(d, p, roots);
      && WellFormed(r)
      && r.files == d.files && r.contents == d.contents && r.dirs == d.dirs
      && r.order == d.order && r.next == d.next
      && r.links == d.links[p := FixTarget(d.links[p], p, roots)]
  {
    assert d.files - {p} == d.files;
  }

  /**
    Only symlink targets change: each listed link gets its fixed target, every other
    link, file, inode, directory and the walk order are kept.
   */
  lemma {:induction false} FixLinksEffect(d: Disk, ps: seq<Path>, roots: Roots)
    requires WellFormed(d)
    requires forall p :: p in ps ==> p in d.links
    ensures var r := FixLinks(d, ps, roots);
      && WellFormed(r)
      && r.files == d.files && r.contents == d.contents && r.dirs == d.dirs
      && r.order == d.order && r.next == d.next
      && r.links.Keys == d.links.Keys
      && (forall p :: p in d.links ==>
            r.links[p] == if p in ps then FixTarget(d.links[p], p, roots) else d.links[p])
    decreases |ps|
  {
    if ps != [] {
      var p := ps[0];
      var d1 := FixedAt(d, p, roots);
      FixedAtEffect(d, p, roots);
      assert forall q :: q in ps[1..] ==> q in ps;
      FixLinksEffect(d1, ps[1..], roots);
      FixTargetIdempotent(d.links[p], p, roots);
    }
  }

  /** Running the relativization twice leaves the same disk as running it once. */
  lemma FixLinksIdempotent(d: Disk, kegPath: Path, roots: Roots)
    requires WellFormed(d)
    ensures var once := FixLinks(d, SymlinkFiles(d, kegPath), roots);
      FixLinks(once, SymlinkFiles(once, kegPath), roots) == once
  {
    var ps := SymlinkFiles(d, kegPath);
    FixLinksEffect(d, ps, roots);
    var once := FixLinks(d, ps, roots);
    var ps2 := SymlinkFiles(once, kegPath);
    assert forall p :: p in ps2 <==> p in ps;
    FixLinksEffect(once, ps2, roots);
    var twice := FixLinks(once, ps2, roots);
    forall p | p in d.links ensures twice.links[p] == once.links[p] {
      FixTargetIdempotent(d.links[p], p, roots);
    }
    assert twice.links == once.links;
  }

  // ---------------------------------------------------------------------------
  // each_unique_file_matching

  /** `s` ends with a carriage return and a line feed. */
  predicate EndsWithCrLf(s: string) {
    |s| >= 2 && s[|s| - 2] == '\r' && s[|s| - 1] == '\n'
  }

  /** String#chomp: drops one trailing "\r\n", "\n" or "\r". */
  function Chomp(s: string): (r: string)
    ensures EndsWithCrLf(s) ==> s == r + "\r\n"
    ensures !EndsWithCrLf(s) && |s| > 0 && s[|s| - 1] == '\n' ==> s == r + "\n"
    ensures |s| > 0 && s[|s| - 1] == '\r' ==> s == r + "\r"
    ensures (|s| == 0 || s[|s| - 1] !in "\r\n") ==> r == s
  {
    if EndsWithCrLf(s) then s[..|s| - 2]
    else if |s| >= 1 && (s[|s| - 1] == '\n' || s[|s| - 1] == '\r') then s[..|s| - 1]
    else s
  }

  /** The path an output line of `fgrep -lr` names. */
  function LinePath(line: string): Path
  {
    Clean(Chomp(line))
  }

  /** The paths yielded so far and, if a stat raised, why. */
  datatype Yield = Yield(paths: seq<Path>, error: Option<Error>)

  /** The paths `ps` yielded before the stream `y`. */
  function Prepend(ps: seq<Path>, y: Yield): Yield
  {
    Yield(ps + y.paths, y.error)
  }

  lemma PrependCons(ps: seq<Path>, p: Path, y: Yield)
    ensures Prepend(ps, Yield([p] + y.paths, y.error)) == Prepend(ps + [p], y)
  {
    assert ps + ([p] + y.paths) == (ps + [p]) + y.paths;
  }

  /** The path of every output line, in order. */
  function LinePaths(lines: seq<string>): (ps: seq<Path>)
    ensures |ps| == |lines|
  {
    if lines == [] then [] else [LinePath(lines[0])] + LinePaths(lines[1..])
  }

  lemma {:induction false} LinePathsAt(lines: seq<string>, i: int)
    requires 0 <= i < |lines|
    ensures LinePaths(lines)[i] == LinePath(lines[i])
    decreases |lines|
  {
    if i > 0 {
      LinePathsAt(lines[1..], i - 1);
      assert lines[1..][i - 1] == lines[i];
      assert LinePaths(lines)[i] == LinePaths(lines[1..])[i - 1];
    }
  }

  /**
    `each_unique_file_matching` over the listed paths, from a given set of inodes already
    seen: symlinks are skipped, a regular file of a new inode is yielded and its inode
    recorded, and any other path stops the stream (the disk gives inodes to regular files only).
   */
  function UniquePaths(d: Disk, ps: seq<Path>, seen: set<Inode>): Yield
    decreases |ps|
  {
    if ps == [] then Yield([], None)
    else
      var p := ps[0];
      if p in d.links then UniquePaths(d, ps[1..], seen)
      else if p !in d.files then Yield([], Some(NotAFile(p)))
      else if d.files[p] in seen then UniquePaths(d, ps[1..], seen)
      else
        var y := UniquePaths(d, ps[1..], seen + {d.files[p]});
        Yield([p] + y.paths, y.error)
  }

  /**
    Every yielded path is a regular file, not a symlink, of an inode not seen before, and
    no two yielded paths share an inode.
   */
  lemma {:induction false} UniquePathsDistinct(d: Disk, ps: seq<Path>, seen: set<Inode>)
    ensures var y := UniquePaths(d, ps, seen);
      && (forall q :: q in y.paths ==> q in d.files && q !in d.links && d.files[q] !in seen)
      && (forall i, j :: 0 <= i < j < |y.paths| ==> d.files[y.paths[i]] != d.files[y.paths[j]])
    decreases |ps|
  {
    if ps != [] {
      var p := ps[0];
      if p in d.links || (p in d.files && d.files[p] in seen) {
        UniquePathsDistinct(d, ps[1..], seen);
      } else if p in d.files {
        var y := UniquePaths(d, ps[1..], seen + {d.files[p]});
        UniquePathsDistinct(d, ps[1..], seen + {d.files[p]});
        var r := UniquePaths(d, ps, seen);
        assert r.paths == [p] + y.paths;
        assert forall i :: 0 < i < |r.paths| ==> r.paths[i] == y.paths[i - 1];
      }
    }
  }

  /** `each_unique_file_matching` over the lines `fgrep -lr` printed. */
  function UniqueFrom(d: Disk, lines: seq<string>, seen: set<Inode>): (y: Yield)
    ensures forall q :: q in y.paths ==> q in d.files && q !in d.links && d.files[q] !in seen
    ensures forall i, j :: 0 <= i < j < |y.paths| ==> d.files[y.paths[i]] != d.files[y.paths[j]]
  {
    UniquePathsDistinct(d, LinePaths(lines), seen);
    UniquePaths(d, LinePaths(lines), seen)
  }

  /** Every yielded path is one of the listed paths. */
  lemma {:induction false} UniquePathsSound(d: Disk, ps: seq<Path>, seen: set<Inode>)
    ensures forall q :: q in UniquePaths(d, ps, seen).paths ==> q in ps
    decreases |ps|
  {
    if ps != [] {
      var p := ps[0];
      var seen' := if p in d.links || p !in d.files || d.files[p] in seen then seen else seen + {d.files[p]};
      UniquePathsSound(d, ps[1..], seen');
      assert forall q :: q in ps[1..] ==> q in ps;
    }
  }

  /** Every yielded path is the path of one of the lines. */
  lemma UniqueFromSound(d: Disk, lines: seq<string>, seen: set<Inode>)
    ensures forall q :: q in UniqueFrom(d, lines, seen).paths ==>
      exists i :: 0 <= i < |lines| && LinePath(lines[i]) == q
  {
    var ps := LinePaths(lines);
    UniquePathsSound(d, ps, seen);
    forall q | q in UniqueFrom(d, lines, seen).paths
      ensures exists i :: 0 <= i < |lines| && LinePath(lines[i]) == q
    {
      var i :| 0 <= i < |ps| && ps[i] == q;
      LinePathsAt(lines, i);
    }
  }

  /** Path `i` names a regular file that is not a symlink, so a stat of it succeeds. */
  predicate Eligible(d: Disk, ps: seq<Path>, i: int) {
    0 <= i < |ps| && ps[i] in d.files && ps[i] !in d.links
  }

  /** When no stat raises, every eligible path's inode is seen or represented among the yields. */
  lemma {:induction false} UniquePathsCovers(d: Disk, ps: seq<Path>, seen: set<Inode>)
    requires UniquePaths(d, ps, seen).error.None?
    ensures forall i :: Eligible(d, ps, i) ==>
      d.files[ps[i]] in seen ||
      exists q :: q in UniquePaths(d, ps, seen).paths && q in d.files && d.files[q] == d.files[ps[i]]
    decreases |ps|
  {
    if ps != [] {
      var p, rest := ps[0], ps[1..];
      var y := UniquePaths(d, ps, seen);
      assert forall i :: 0 < i < |ps| ==> (Eligible(d, ps, i) <==> Eligible(d, rest, i - 1));
      if p in d.links || d.files[p] in seen {
        UniquePathsCovers(d, rest, seen);
      } else {
        UniquePathsCovers(d, rest, seen + {d.files[p]});
        forall i | Eligible(d, ps, i)
          ensures d.files[ps[i]] in seen || exists q :: q in y.paths && q in d.files && d.files[q] == d.files[ps[i]]
        {
          if i == 0 || d.files[ps[i]] == d.files[p] {
            assert p in y.paths;
          } else {
            assert ps[i] == rest[i - 1];
          }
        }
      }
    }
  }

  /** When no stat raises, every listed regular non-symlink file's inode is represented. */
  lemma UniqueFromCovers(d: Disk, lines: seq<string>, seen: set<Inode>)
    requires UniqueFrom(d, lines, seen).error.None?
    ensures forall i :: 0 <= i < |lines| && LinePath(lines[i]) in d.files && LinePath(lines[i]) !in d.links ==>
      d.files[LinePath(lines[i])] in seen ||
      exists q :: q in UniqueFrom(d, lines, seen).paths && d.files[q] == d.files[LinePath(lines[i])]
  {
    UniquePathsCovers(d, LinePaths(lines), seen);
    forall i | 0 <= i < |lines| {
      LinePathsAt(lines, i);
    }
  }

  /** Path `i` is the first eligible path naming its inode, and that inode was not seen before. */
  predicate FirstOfInode(d: Disk, ps: seq<Path>, seen: set<Inode>, i: int) {
    && Eligible(d, ps, i)
    && d.files[ps[i]] !in seen
    && forall k :: 0 <= k < i && Eligible(d, ps, k) ==> d.files[ps[k]] != d.files[ps[i]]
  }

  /** Dropping the first path: the first paths of the others' inodes are those of the rest. */
  lemma FirstOfInodeShift(d: Disk, ps: seq<Path>, seen: set<Inode>, seen': set<Inode>, i: nat)
    requires ps != [] && i < |ps| - 1
    requires seen' == if Eligible(d, ps, 0) then seen + {d.files[ps[0]]} else seen
    ensures FirstOfInode(d, ps, seen, i + 1) <==> FirstOfInode(d, ps[1..], seen', i)
  {
    var rest := ps[1..];
    assert forall k :: 0 <= k < |rest| ==> (Eligible(d, rest, k) <==> Eligible(d, ps, k + 1));
    if FirstOfInode(d, ps, seen, i + 1) {
      forall k | 0 <= k < i && Eligible(d, rest, k)
        ensures d.files[rest[k]] != d.files[rest[i]]
      {
        assert Eligible(d, ps, k + 1);
      }
    }
    if FirstOfInode(d, rest, seen', i) {
      forall k | 0 <= k < i + 1 && Eligible(d, ps, k)
        ensures d.files[ps[k]] != d.files[ps[i + 1]]
      {
        if k > 0 { assert Eligible(d, rest, k - 1); }
      }
    }
  }

  /** Each index moved one place down. */
  function Shifted(ix: seq<int>): (r: seq<int>)
    ensures |r| == |ix| && forall k :: 0 <= k < |ix| ==> r[k] == ix[k] + 1
  {
    if ix == [] then [] else [ix[0] + 1] + Shifted(ix[1..])
  }

  lemma ShiftedHas(ix: seq<int>, i: int)
    requires i in ix
    ensures i + 1 in Shifted(ix)
  {
    var k :| 0 <= k < |ix| && ix[k] == i;
    assert Shifted(ix)[k] == i + 1;
  }

  /** The positions of the paths `UniquePaths` yields, in yield order; they strictly increase. */
  ghost function FirstIndices(d: Disk, ps: seq<Path>, seen: set<Inode>): (ix: seq<int>)
    ensures forall j :: 0 <= j < |ix| ==> 0 <= ix[j] < |ps|
    decreases |ps|
  {
    if ps == [] then []
    else
      var p := ps[0];
      if p in d.links then Shifted(FirstIndices(d, ps[1..], seen))
      else if p !in d.files then []
      else if d.files[p] in seen then Shifted(FirstIndices(d, ps[1..], seen))
      else [0] + Shifted(FirstIndices(d, ps[1..], seen + {d.files[p]}))
  }

  predicate Increasing(ix: seq<int>) {
    forall j, j' :: 0 <= j < j' < |ix| ==> ix[j] < ix[j']
  }

  /** The yielded positions strictly increase: the yields follow the order of the paths. */
  lemma {:induction false} FirstIndicesIncreasing(d: Disk, ps: seq<Path>, seen: set<Inode>)
    ensures Increasing(FirstIndices(d, ps, seen))
    decreases |ps|
  {
    if ps != [] {
      var p := ps[0];
      if p in d.links || (p in d.files && d.files[p] in seen) {
        FirstIndicesIncreasing(d, ps[1..], seen);
        ShiftedIncreasing(FirstIndices(d, ps[1..], seen));
      } else if p in d.files {
        var seen' := seen + {d.files[p]};
        FirstIndicesIncreasing(d, ps[1..], seen');
        var sh := Shifted(FirstIndices(d, ps[1..], seen'));
        ShiftedIncreasing(FirstIndices(d, ps[1..], seen'));
        assert FirstIndices(d, ps, seen) == [0] + sh;
        ZeroBeforeIncreasing(sh);
      }
    }
  }

  lemma ShiftedIncreasing(ix: seq<int>)
    requires Increasing(ix) && forall k :: 0 <= k < |ix| ==> ix[k] >= 0
    ensures Increasing(Shifted(ix)) && forall k :: 0 <= k < |ix| ==> Shifted(ix)[k] > 0
  {
  }

  lemma ZeroBeforeIncreasing(sh: seq<int>)
    requires Increasing(sh) && forall k :: 0 <= k < |sh| ==> sh[k] > 0
    ensures Increasing([0] + sh)
  {
    var ix := [0] + sh;
    forall j, j' | 0 <= j < j' < |ix| ensures ix[j] < ix[j'] {
      assert ix[j'] == sh[j' - 1];
      if j > 0 {
        assert ix[j] == sh[j - 1];
      }
    }
  }

  /** The `j`-th yielded path is the path at position `FirstIndices(...)[j]`. */
  lemma {:induction false} UniquePathsAt(d: Disk, ps: seq<Path>, seen: set<Inode>)
    ensures var y, ix := UniquePaths(d, ps, seen), FirstIndices(d, ps, seen);
      |ix| == |y.paths| && forall j :: 0 <= j < |ix| ==> ps[ix[j]] == y.paths[j]
    decreases |ps|
  {
    if ps != [] {
      var p, rest := ps[0], ps[1..];
      if p in d.links || (p in d.files && d.files[p] in seen) {
        UniquePathsAt(d, rest, seen);
        var ix0 := FirstIndices(d, rest, seen);
        assert FirstIndices(d, ps, seen) == Shifted(ix0);
        assert UniquePaths(d, ps, seen) == UniquePaths(d, rest, seen);
        assert forall j :: 0 <= j < |ix0| ==> ps[ix0[j] + 1] == rest[ix0[j]];
      } else if p in d.files {
        var seen' := seen + {d.files[p]};
        UniquePathsAt(d, rest, seen');
        var ix0, y0 := FirstIndices(d, rest, seen'), UniquePaths(d, rest, seen');
        var ix, y := FirstIndices(d, ps, seen), UniquePaths(d, ps, seen);
        assert ix == [0] + Shifted(ix0) && y.paths == [p] + y0.paths;
        forall j | 0 <= j < |ix| ensures ps[ix[j]] == y.paths[j] {
          if j > 0 {
            assert ix[j] == ix0[j - 1] + 1 && y.paths[j] == y0.paths[j - 1];
            assert ps[ix0[j - 1] + 1] == rest[ix0[j - 1]];
          }
        }
      }
    }
  }

  /** Every position in `ix` is the first eligible position of its inode. */
  predicate AllFirst(d: Disk, ps: seq<Path>, seen: set<Inode>, ix: seq<int>) {
    forall j :: 0 <= j < |ix| ==> FirstOfInode(d, ps, seen, ix[j])
  }

  /** First positions in the rest, moved one place down, are first positions in the whole. */
  lemma FirstOfInodeShiftAll(d: Disk, ps: seq<Path>, seen: set<Inode>, seen': set<Inode>, ix0: seq<int>)
    requires ps != []
    requires seen' == if Eligible(d, ps, 0) then seen + {d.files[ps[0]]} else seen
    requires AllFirst(d, ps[1..], seen', ix0)
    ensures AllFirst(d, ps, seen, Shifted(ix0))
    ensures FirstOfInode(d, ps, seen, 0) ==> AllFirst(d, ps, seen, [0] + Shifted(ix0))
  {
    forall j | 0 <= j < |ix0| ensures FirstOfInode(d, ps, seen, Shifted(ix0)[j]) {
      FirstOfInodeShift(d, ps, seen, seen', ix0[j]);
    }
    if FirstOfInode(d, ps, seen, 0) {
      var ix := [0] + Shifted(ix0);
      forall j | 0 <= j < |ix| ensures FirstOfInode(d, ps, seen, ix[j]) {
        if j > 0 {
          assert ix[j] == Shifted(ix0)[j - 1];
        }
      }
    }
  }

  /** Every yielded position is the first eligible position of its inode. */
  lemma {:induction false} UniquePathsFirst(d: Disk, ps: seq<Path>, seen: set<Inode>)
    ensures AllFirst(d, ps, seen, FirstIndices(d, ps, seen))
    decreases |ps|
  {
    if ps != [] {
      var p, rest := ps[0], ps[1..];
      if p in d.links || (p in d.files && d.files[p] in seen) {
        UniquePathsFirst(d, rest, seen);
        FirstOfInodeShiftAll(d, ps, seen, seen, FirstIndices(d, rest, seen));
      } else if p in d.files {
        var seen' := seen + {d.files[p]};
        UniquePathsFirst(d, rest, seen');
        FirstOfInodeShiftAll(d, ps, seen, seen', FirstIndices(d, rest, seen'));
      }
    }
  }

  /** When no stat raises, the first eligible position of every new inode is yielded. */
  lemma {:induction false} UniquePathsComplete(d: Disk, ps: seq<Path>, seen: set<Inode>)
    ensures UniquePaths(d, ps, seen).error.None? ==>
      forall i :: FirstOfInode(d, ps, seen, i) ==> i in FirstIndices(d, ps, seen)
    decreases |ps|
  {
    if ps != [] && UniquePaths(d, ps, seen).error.None? {
      var p, rest := ps[0], ps[1..];
      assert p in d.links || p in d.files;
      var isNew := p !in d.links && d.files[p] !in seen;
      var ix := FirstIndices(d, ps, seen);
      var seen' := if isNew then seen + {d.files[p]} else seen;
      var ix0 := FirstIndices(d, rest, seen');
      assert UniquePaths(d, rest, seen').error.None?;
      if isNew {
        assert ix == [0] + Shifted(ix0);
      } else {
        assert ix == Shifted(ix0);
      }
      UniquePathsComplete(d, rest, seen');
      forall i | FirstOfInode(d, ps, seen, i) ensures i in ix {
        if i == 0 {
          assert isNew && ix[0] == 0;
        } else {
          FirstOfInodeShift(d, ps, seen, seen', i - 1);
          ShiftedHas(ix0, i - 1);
        }
      }
    }
  }

  /**
    Of the lines `fgrep -lr` printed, exactly the first line of each new inode is yielded
    (when no stat raises), and the yields follow the order of the lines.
  */
  lemma UniqueFromFirst(d: Disk, lines: seq<string>, seen: set<Inode>)
    ensures var y, ps := UniqueFrom(d, lines, seen), LinePaths(lines);
      var ix := FirstIndices(d, ps, seen);
      && |ix| == |y.paths|
      && (forall j :: 0 <= j < |ix| ==> ps[ix[j]] == y.paths[j])
      && AllFirst(d, ps, seen, ix)
      && Increasing(ix)
      && (y.error.None? ==> forall i :: FirstOfInode(d, ps, seen, i) ==> i in ix)
  {
    var ps := LinePaths(lines);
    UniquePathsAt(d, ps, seen);
    FirstIndicesIncreasing(d, ps, seen);
    UniquePathsFirst(d, ps, seen);
    UniquePathsComplete(d, ps, seen);
  }
}
