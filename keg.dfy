/**
  The `Keg` object: its path, its formula name and the file system it lives on. Its
  methods walk and change the file system one entry at a time; each is proved to
  compute the function of the disk that the `Selection` and `Replace` modules define,
  so the lemmas there are what these methods promise.
 */
module Kegs {
  import opened Wrappers
  import opened Paths
  import opened Lists
  import opened Substitution
  import opened Relocations
  import opened Disks
  import opened Selection
  import opened Replace

  class Keg {
    const path: Path
    const name: string
    const fs: FileSystem

    predicate Valid()
      reads this, fs
    {
      IsNormal(path) && fs.Valid()
    }

    constructor (path: Path, name: string, fs: FileSystem)
      requires IsNormal(path) && fs.Valid()
      ensures this.path == path && this.name == name && this.fs == fs && Valid()
    {
      this.path := path;
      this.name := name;
      this.fs := fs;
    }

    /** Pathname#find from the keg path: the existing entries at or under it, in walk order. */
    method Find() returns (ps: seq<Path>)
      ensures ps == Walk(fs.Snapshot(), path)
    {
      var d := fs.Snapshot();
      var order := fs.order;
      ps := [];
      var i := 0;
      while i < |order|
        invariant 0 <= i <= |order|
        invariant ps == Filter(order[..i], InTree(d, path))
      {
        var pn := order[i];
        FilterPrefixStep(order, i, InTree(d, path));
        if Within(path, pn) && (pn in fs.files || pn in fs.links || pn in fs.dirs) {
          ps := ps + [pn];
        }
        i := i + 1;
      }
      assert order[..|order|] == order;
    }

    /**
      `text_files`: nothing without `file` and `xargs`; otherwise the walk is filtered,
      text executables are collected on the way, and the probe's report on the rest
      adds the paths it describes as text.
     */
    method TextFiles(config: Config, tools: Tools) returns (r: seq<Path>)
      ensures r == Selection.TextFiles(fs.Snapshot(), path, name, config, tools)
    {
      r := [];
      if !tools.haveFile || !tools.haveXargs {
        return;
      }
      var direct, cands := RejectWalk(config, tools);
      r := direct;
      var accepted := ReadProbeOutput(Lines(tools.probe(ProbeInput(cands))), cands);
      r := r + accepted;
    }

    /**
      The `reject` block of `text_files` over the walk: the entries it collects as text
      executables, and the candidates it keeps for the probe.
     */
    method RejectWalk(config: Config, tools: Tools) returns (direct: seq<Path>, cands: seq<Path>)
      ensures direct == Filter(Walk(fs.Snapshot(), path), IsDirect(fs.Snapshot(), path, name, config, tools))
      ensures cands == Filter(Walk(fs.Snapshot(), path), IsProbed(fs.Snapshot(), path, name, config, tools))
    {
      var walk := Find();
      direct, cands := Partition(fs.Snapshot(), path, name, config, tools, walk);
    }

    /** The `reject` loop over the walked entries `walk`, sorting each by its verdict. */
    static method Partition(d: Disk, kegPath: Path, name: string, config: Config, tools: Tools, walk: seq<Path>)
      returns (direct: seq<Path>, cands: seq<Path>)
      ensures direct == Filter(walk, IsDirect(d, kegPath, name, config, tools))
      ensures cands == Filter(walk, IsProbed(d, kegPath, name, config, tools))
    {
      direct, cands := [], [];
      var i := 0;
      while i < |walk|
        invariant 0 <= i <= |walk|
        invariant direct == Filter(walk[..i], IsDirect(d, kegPath, name, config, tools))
        invariant cands == Filter(walk[..i], IsProbed(d, kegPath, name, config, tools))
      {
        var pn := walk[i];
        var verdict := Classify(d, kegPath, name, config, tools, pn);
        PartitionStep(d, kegPath, name, config, tools, walk, i);
        if verdict == DirectText {
          direct := direct + [pn];
        } else if verdict == Probe {
          cands := cands + [pn];
        }
        i := i + 1;
      }
      assert walk[..|walk|] == walk;
    }

    /** One more walked entry extends the filtered lists by itself or by nothing, as its verdict says. */
    static lemma PartitionStep(d: Disk, kegPath: Path, name: string, config: Config, tools: Tools, walk: seq<Path>, i: int)
      requires 0 <= i < |walk|
      ensures var v := Classify(d, kegPath, name, config, tools, walk[i]);
        && Filter(walk[..i + 1], IsDirect(d, kegPath, name, config, tools))
           == Filter(walk[..i], IsDirect(d, kegPath, name, config, tools)) + (if v == DirectText then [walk[i]] else [])
        && Filter(walk[..i + 1], IsProbed(d, kegPath, name, config, tools))
           == Filter(walk[..i], IsProbed(d, kegPath, name, config, tools)) + (if v == Probe then [walk[i]] else [])
    {
      FilterPrefixStep(walk, i, IsDirect(d, kegPath, name, config, tools));
      FilterPrefixStep(walk, i, IsProbed(d, kegPath, name, config, tools));
    }

    /** `output.each_line`: the paths of the lines that describe a candidate as text. */
    static method ReadProbeOutput(lines: seq<string>, cands: seq<Path>) returns (r: seq<Path>)
      ensures r == Accepted(lines, cands)
    {
      r := [];
      var j := 0;
      while j < |lines|
        invariant 0 <= j <= |lines|
        invariant r == Accepted(lines[..j], cands)
      {
        AcceptedPrefixStep(lines, j, cands);
        var taken := ReadProbeLine(lines[j], cands);
        r := r + taken;
        j := j + 1;
      }
      assert lines[..|lines|] == lines;
    }

    /** One line of probe output: `path, info = line.split("\0", 2)`, kept when `info` mentions "text". */
    static method ReadProbeLine(line: string, cands: seq<Path>) returns (r: seq<Path>)
      ensures r == AcceptLine(line, cands)
    {
      r := [];
      var split := SplitNul(line);
      if split.Some? {
        var (p, info) := split.value;
        if OccursIn("text", info) && IsCandidate(p, cands) {
          r := [Components(p)];
        }
      }
    }

    /** `libtool_files`: the walked entries that are not symlinks or directories and have a libtool extension. */
    method LibtoolFiles(config: Config) returns (r: seq<Path>)
      ensures r == Selection.LibtoolFiles(fs.Snapshot(), path, config)
    {
      var walk := Find();
      r := SelectLibtool(fs.Snapshot(), config, walk);
    }

    /** The `select` loop of `libtool_files` over the walked entries `walk`. */
    static method SelectLibtool(d: Disk, config: Config, walk: seq<Path>) returns (r: seq<Path>)
      ensures r == Filter(walk, IsLibtool(d, config))
    {
      r := [];
      var i := 0;
      while i < |walk|
        invariant 0 <= i <= |walk|
        invariant r == Filter(walk[..i], IsLibtool(d, config))
      {
        var pn := walk[i];
        FilterPrefixNext(walk, i, IsLibtool(d, config), r);
        // the entry is kept unless it is a symlink, a directory or lacks a libtool extension
        if IsLibtool(d, config)(pn) {
          r := r + [pn];
        }
        i := i + 1;
      }
      assert walk[..|walk|] == walk;
    }

    /** `symlink_files`: the walked symlinks. */
    method SymlinkFiles() returns (r: seq<Path>)
      ensures r == Selection.SymlinkFiles(fs.Snapshot(), path)
    {
      var walk := Find();
      r := SelectSymlinks(fs.Snapshot(), walk);
      assert Selection.SymlinkFiles(fs.Snapshot(), path) == Filter(walk, IsSymlink(fs.Snapshot()));
    }

    /** The `select` loop of `symlink_files` over the walked entries `walk`. */
    static method SelectSymlinks(d: Disk, walk: seq<Path>) returns (r: seq<Path>)
      ensures r == Filter(walk, IsSymlink(d))
    {
      r := [];
      var i := 0;
      while i < |walk|
        invariant 0 <= i <= |walk|
        invariant r == Filter(walk[..i], IsSymlink(d))
      {
        var pn := walk[i];
        FilterPrefixStep(walk, i, IsSymlink(d));
        if pn in d.links {
          r := r + [pn];
        }
        i := i + 1;
      }
      assert walk[..|walk|] == walk;
    }

    /**
      `fix_dynamic_linkage`: every walked symlink whose target is absolute and starts
      with the cellar or the prefix is replaced by a symlink to the same place,
      relative to the link's directory.
     */
    method FixDynamicLinkage(roots: Roots)
      requires Valid()
      modifies fs
      ensures fs.Snapshot() == FixLinks(old(fs.Snapshot()), Selection.SymlinkFiles(old(fs.Snapshot()), path), roots)
      ensures Valid()
    {
      var links := SymlinkFiles();
      RelativizeLinks(links, roots);
    }

    /** The loop of `fix_dynamic_linkage` over the symlinks `links`, in order. */
    method RelativizeLinks(links: seq<Path>, roots: Roots)
      requires Valid() && forall p :: p in links ==> p in fs.links
      modifies fs
      ensures fs.Snapshot() == FixLinks(old(fs.Snapshot()), links, roots)
      ensures Valid()
    {
      ghost var d0 := fs.Snapshot();
      ghost var rest := links;
      var i := 0;
      while i < |links|
        invariant 0 <= i <= |links| && rest == links[i..]
        invariant fs.Valid()
        invariant forall p :: p in rest ==> p in fs.links
        invariant FixLinks(fs.Snapshot(), rest, roots) == FixLinks(d0, links, roots)
      {
        ghost var before := fs.Snapshot();
        var file := links[i];
        assert rest[0] == file;
        var link := fs.ReadLink(file);
        if IsAbsolute(link) && (StartsWith(link, roots.cellar) || StartsWith(link, roots.prefix)) {
          var newSrc := RenderRelative(RelativeFrom(Clean(link), Parent(file)));
          fs.Unlink(file);
          fs.Symlink(newSrc, file);
        }
        assert fs.Snapshot() == FixedAt(before, file, roots);
        FixedAtEffect(before, file, roots);
        assert forall p :: p in rest[1..] ==> p in rest;
        rest := rest[1..];
        i := i + 1;
      }
    }

    /**
      `each_unique_file_matching` over the lines `fgrep -lr` printed: symlinks are
      skipped, the first path of each inode is yielded, and a path that cannot be
      stat'ed stops the stream with its error.
     */
    method EachUniqueFileMatching(lines: seq<string>) returns (yielded: seq<Path>, err: Option<Error>)
      ensures Yield(yielded, err) == UniqueFrom(fs.Snapshot(), lines, {})
    {
      yielded, err := UniqueFiles(fs.Snapshot(), lines);
    }

    /** The loop of `each_unique_file_matching` over the lines, against the disk `d`. */
    static method UniqueFiles(d: Disk, lines: seq<string>) returns (yielded: seq<Path>, err: Option<Error>)
      ensures Yield(yielded, err) == UniqueFrom(d, lines, {})
    {
      var hardlinks: set<Inode> := {};
      ghost var rest := LinePaths(lines);
      yielded, err := [], None;
      var i := 0;
      while i < |lines|
        invariant 0 <= i <= |lines| && rest == LinePaths(lines)[i..]
        invariant UniqueFrom(d, lines, {}) == Prepend(yielded, UniquePaths(d, rest, hardlinks))
      {
        var file := LinePath(lines[i]);
        LinePathsAt(lines, i);
        assert rest[0] == file;
        if file in d.links {
        } else if file !in d.files {
          err := Some(NotAFile(file));
          assert yielded + [] == yielded;
          return;
        } else if d.files[file] !in hardlinks {
          PrependCons(yielded, file, UniquePaths(d, rest[1..], hardlinks + {d.files[file]}));
          hardlinks := hardlinks + {d.files[file]};
          yielded := yielded + [file];
        }
        rest := rest[1..];
        i := i + 1;
      }
      assert yielded + [] == yielded;
    }

    /**
      `replace_text_in_files`: the file list is joined to the keg path and stat'ed, then
      each inode's group is read once, rewritten, and written back atomically with the
      other members re-linked, or written in place when the atomic write fails.
     */
    method ReplaceTextInFiles(rel: Relocation, same: bool, files: Option<seq<string>>, config: Config,
                              tools: Tools, faults: Faults) returns (res: Result<seq<seq<string>>, Error>)
      requires Valid()
      modifies fs
      ensures var o := ReplaceRun(old(fs.Snapshot()), path, name, config, tools, rel, same, files, faults);
        res == ResultOf(o) && fs.Snapshot() == o.disk
      ensures Valid()
    {
      var list := FileListOf(files, config, tools);
      var missing := FirstNonFile(fs.Snapshot(), list);
      if missing.Some? {
        res := Failure(NotAFile(missing.value));
        return;
      }
      var groups := GroupByInode(fs.files, list);
      res := ReplaceInGroups(groups, rel, same, faults);
    }

    /** `files ||= text_files | libtool_files`, joined to the keg path. */
    method FileListOf(files: Option<seq<string>>, config: Config, tools: Tools) returns (list: seq<Path>)
      ensures list == FileList(fs.Snapshot(), path, name, config, tools, files)
    {
      if files.Some? {
        list := seq(|files.value|, k requires 0 <= k < |files.value| => JoinKeg(path, files.value[k]));
      } else {
        var text := TextFiles(config, tools);
        var libtool := LibtoolFiles(config);
        list := Union(text, libtool);
      }
    }

    /** The `each_value` loop over the inode groups, stopping at the first error. */
    method ReplaceInGroups(groups: seq<seq<Path>>, rel: Relocation, same: bool, faults: Faults)
      returns (res: Result<seq<seq<string>>, Error>)
      requires Valid() && forall k :: 0 <= k < |groups| ==> |groups[k]| > 0
      modifies fs
      ensures var o := RunGroups(Outcome(old(fs.Snapshot()), [], None), groups, path, rel, same, faults);
        res == ResultOf(o) && fs.Snapshot() == o.disk
      ensures Valid()
    {
      ghost var target := RunGroups(Outcome(fs.Snapshot(), [], None), groups, path, rel, same, faults);
      ghost var rest := groups;
      var changed := [];
      var i := 0;
      while i < |groups|
        invariant 0 <= i <= |groups| && rest == groups[i..]
        invariant fs.Valid()
        invariant RunGroups(Outcome(fs.Snapshot(), changed, None), rest, path, rel, same, faults) == target
      {
        ghost var before := Outcome(fs.Snapshot(), changed, None);
        var err;
        changed, err := ReplaceInGroup(groups[i], changed, rel, same, faults);
        RunGroupsResume(before, rest, Outcome(fs.Snapshot(), changed, err), path, rel, same, faults);
        if err.Some? {
          res := Failure(err.value);
          return;
        }
        rest := rest[1..];
        i := i + 1;
      }
      res := Success(changed);
    }

    /** The block for one group: read the first member, rewrite, write back and re-link. */
    method ReplaceInGroup(g: seq<Path>, changed: seq<seq<string>>, rel: Relocation, same: bool, faults: Faults)
      returns (changed': seq<seq<string>>, err: Option<Error>)
      requires Valid() && |g| > 0
      modifies fs
      ensures Outcome(fs.Snapshot(), changed', err) == StepGroup(Outcome(old(fs.Snapshot()), changed, None), g, path, rel, same, faults)
      ensures Valid()
    {
      var first := g[0];
      changed', err := changed, None;
      var s := fs.Read(first);
      if s.None? {
        err := Some(NotAFile(first));
        return;
      }
      var w := RewriteText(rel, same, s.value);
      if w.matches == 0 {
        return;
      }
      changed' := changed + Relatives(g, path);
      var ok := fs.AtomicWrite(first, w.text, faults.atomicFails);
      if ok {
        err := Relink(first, g[1..], changed');
      } else {
        var written := fs.WriteInPlace(first, w.text, faults.inPlaceFails);
        if !written {
          err := Some(WriteFailed(first));
        }
      }
    }

    /** `rest.each { |file| FileUtils.ln(first, file, force: true) }`. */
    method Relink(first: Path, rest: seq<Path>, changed: seq<seq<string>>) returns (err: Option<Error>)
      requires Valid()
      modifies fs
      ensures Outcome(fs.Snapshot(), changed, err) == LinkRest(Outcome(old(fs.Snapshot()), changed, None), first, rest)
      ensures Valid()
    {
      ghost var o0 := Outcome(fs.Snapshot(), changed, None);
      err := None;
      var j := 0;
      while j < |rest|
        invariant 0 <= j <= |rest|
        invariant fs.Valid()
        invariant LinkRest(Outcome(fs.Snapshot(), changed, None), first, rest[j..]) == LinkRest(o0, first, rest)
      {
        assert rest[j..][0] == rest[j] && rest[j..][1..] == rest[j + 1..];
        var linked := fs.ForceLink(first, rest[j]);
        if !linked {
          err := Some(LinkFailed(rest[j]));
          return;
        }
        j := j + 1;
      }
    }

    /** `replace_locations_with_placeholders`: the install locations become placeholders. */
    method ReplaceLocationsWithPlaceholders(roots: Roots, config: Config, tools: Tools, faults: Faults)
      returns (res: Result<seq<seq<string>>, Error>)
      requires Valid()
      modifies fs
      ensures var o := ReplaceRun(old(fs.Snapshot()), path, name, config, tools,
                                  FreezeRelocation(roots), PrefixIsRepository(roots), None, faults);
        res == ResultOf(o) && fs.Snapshot() == o.disk
      ensures Valid()
    {
      var relocation := FreezeRelocation(roots);
      var _ := RelocateDynamicLinkage(relocation);
      res := ReplaceTextInFiles(relocation, PrefixIsRepository(roots), None, config, tools, faults);
    }

    /** `replace_placeholders_with_locations`: the placeholders become the install locations. */
    method ReplacePlaceholdersWithLocations(files: Option<seq<string>>, skipLinkage: bool, roots: Roots,
                                            config: Config, tools: Tools, faults: Faults)
      returns (res: Result<seq<seq<string>>, Error>)
      requires Valid()
      modifies fs
      ensures var o := ReplaceRun(old(fs.Snapshot()), path, name, config, tools,
                                  ThawRelocation(roots), PrefixIsRepository(roots), files, faults);
        res == ResultOf(o) && fs.Snapshot() == o.disk
      ensures Valid()
    {
      var relocation := ThawRelocation(roots);
      if !skipLinkage {
        var _ := RelocateDynamicLinkage(relocation);
      }
      res := ReplaceTextInFiles(relocation, PrefixIsRepository(roots), files, config, tools, faults);
    }
  }
}
