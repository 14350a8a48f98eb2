/**
  `replace_text_in_files` as a function of the disk: the file list, its grouping by
  inode, and one step per group (read the first member, rewrite, write atomically and
  re-link the others, or fall back to writing in place). The lemmas say what a run that
  does not raise leaves behind.
 */
module Replace {
  import opened Wrappers
  import opened Paths
  import opened Lists
  import opened Substitution
  import opened Relocations
  import opened Disks
  import opened Selection

  /** Which writes raise: atomic_write's SystemCallError, and the in-place fallback's error. */
  datatype Faults = Faults(atomicFails: set<Path>, inPlaceFails: set<Path>)

  /** The state of a run: the disk, the changed paths so far, and the error that stopped it. */
  datatype Outcome = Outcome(disk: Disk, changed: seq<seq<string>>, error: Option<Error>)

  /**
    `path.join(s)`: an absolute entry names itself, a relative one is resolved below the
    keg; an entry without `..` components lies exactly at its components.
   */
  function JoinKeg(kegPath: Path, s: string): (r: Path)
    ensures IsNormal(kegPath) ==> IsNormal(r)
    ensures IsAbsolute(s) && IsNormal(Components(s)) ==> r == Components(s)
    ensures !IsAbsolute(s) && IsNormal(Components(s)) ==> r == kegPath + Components(s)
  {
    if IsAbsolute(s) then
      CleanIsNormal(s);
      assert IsNormal(Components(s)) ==> Clean(s) == Components(s) by {
        if IsNormal(Components(s)) { FollowNames([], Components(s)); }
      }
      Clean(s)
    else
      var r := Follow(kegPath, Components(s));
      assert IsNormal(kegPath) ==> IsNormal(r) by {
        if IsNormal(kegPath) { FollowIsNormal(kegPath, Components(s)); }
      }
      assert IsNormal(Components(s)) ==> r == kegPath + Components(s) by {
        if IsNormal(Components(s)) { FollowNames(kegPath, Components(s)); }
      }
      r
  }

  /** `files ||= text_files | libtool_files`, then `files.map(&path.method(:join))`. */
  function FileList(d: Disk, kegPath: Path, name: string, config: Config, tools: Tools,
                    files: Option<seq<string>>): (ps: seq<Path>)
    ensures files.Some? ==> (|ps| == |files.value| &&
      forall i :: 0 <= i < |ps| ==> ps[i] == JoinKeg(kegPath, files.value[i]))
    ensures files.None? ==> forall p :: p in ps <==>
      p in TextFiles(d, kegPath, name, config, tools) || p in LibtoolFiles(d, kegPath, config)
  {
    match files
    case Some(ss) => seq(|ss|, i requires 0 <= i < |ss| => JoinKeg(kegPath, ss[i]))
    case None => DefaultFiles(d, kegPath, name, config, tools)
  }

  /** The first path of the list that `stat` cannot find as a regular file. */
  function FirstNonFile(d: Disk, ps: seq<Path>): (r: Option<Path>)
    ensures r.None? <==> forall p :: p in ps ==> p in d.files
    ensures r.Some? ==> r.value in ps && r.value !in d.files
  {
    if ps == [] then None
    else if ps[0] !in d.files then Some(ps[0])
    else FirstNonFile(d, ps[1..])
  }

  function HasInode(ino: map<Path, Inode>, e: Inode): Path -> bool
  {
    p => p in ino && ino[p] == e
  }

  function LacksInode(ino: map<Path, Inode>, e: Inode): Path -> bool
  {
    p => !(p in ino && ino[p] == e)
  }

  /** The groups partition a list: non-empty, one inode per group, a different inode per group. */
  predicate Grouped(ino: map<Path, Inode>, gs: seq<seq<Path>>) {
    && (forall i :: 0 <= i < |gs| ==> |gs[i]| > 0 && gs[i][0] in ino)
    && (forall i, q :: 0 <= i < |gs| && q in gs[i] ==> q in ino && ino[q] == ino[gs[i][0]])
    && (forall i, j :: 0 <= i < j < |gs| ==> ino[gs[i][0]] != ino[gs[j][0]])
  }

  /** A group of one inode in front of groups of other inodes is still a grouping. */
  lemma GroupedCons(ino: map<Path, Inode>, ps: seq<Path>, group: seq<Path>, tail: seq<seq<Path>>, e: Inode)
    requires |group| > 0 && forall q :: q in group ==> q in ino && ino[q] == e && q in ps
    requires Grouped(ino, tail)
    requires forall i, q :: 0 <= i < |tail| && q in tail[i] ==> q in ino && ino[q] != e && q in ps
    ensures Grouped(ino, [group] + tail)
    ensures forall i, q :: 0 <= i < |[group] + tail| && q in ([group] + tail)[i] ==> q in ps
  {
    var gs := [group] + tail;
    assert group[0] in group;
    forall i | 1 <= i < |gs| ensures gs[i] == tail[i - 1] && ino[gs[i][0]] != e {
      assert gs[i][0] in tail[i - 1];
    }
  }

  /**
    `group_by { |f| f.stat.ino }.each_value`: one group per inode in order of first
    appearance, each holding exactly the list's paths with that inode, in list order.
   */
  function GroupByInode(ino: map<Path, Inode>, ps: seq<Path>): (gs: seq<seq<Path>>)
    requires forall p :: p in ps ==> p in ino
    ensures Grouped(ino, gs)
    ensures forall i, q :: 0 <= i < |gs| && q in gs[i] ==> q in ps
    decreases |ps|
  {
    if ps == [] then []
    else
      var e := ino[ps[0]];
      var group := Filter(ps, HasInode(ino, e));
      var rest := Filter(ps, LacksInode(ino, e));
      FilterShorter(ps, LacksInode(ino, e), ps[0]);
      var tail := GroupByInode(ino, rest);
      assert ps[0] in group;
      assert forall q :: q in rest ==> q in ino && ino[q] != e && q in ps;
      assert forall i, q :: 0 <= i < |tail| && q in tail[i] ==> q in rest;
      GroupedCons(ino, ps, group, tail, e);
      [group] + tail
  }

  /** One unfolding of `GroupByInode`: the first path's group, then the grouping of the others. */
  lemma GroupByInodeSplit(ino: map<Path, Inode>, ps: seq<Path>)
    requires forall p :: p in ps ==> p in ino
    requires ps != []
    ensures var e := ino[ps[0]];
      var group, rest := Filter(ps, HasInode(ino, e)), Filter(ps, LacksInode(ino, e));
      && ps[0] in group
      && (forall q :: q in group <==> q in ps && ino[q] == e)
      && (forall q :: q in rest <==> q in ps && ino[q] != e)
      && |rest| < |ps|
      && GroupByInode(ino, ps) == [group] + GroupByInode(ino, rest)
  {
    FilterShorter(ps, LacksInode(ino, ino[ps[0]]), ps[0]);
  }

  /** Each group holds exactly the list's paths with its inode, in list order. */
  lemma {:induction false} GroupByInodeMeaning(ino: map<Path, Inode>, ps: seq<Path>)
    requires forall p :: p in ps ==> p in ino
    ensures var gs := GroupByInode(ino, ps);
      forall i :: 0 <= i < |gs| ==> gs[i] == Filter(ps, HasInode(ino, ino[gs[i][0]]))
    decreases |ps|
  {
    if ps != [] {
      var e := ino[ps[0]];
      var group, rest := Filter(ps, HasInode(ino, e)), Filter(ps, LacksInode(ino, e));
      GroupByInodeSplit(ino, ps);
      var tail := GroupByInode(ino, rest);
      var gs := [group] + tail;
      GroupByInodeMeaning(ino, rest);
      assert gs[0][0] in group;
      forall i | 0 <= i < |gs| ensures gs[i] == Filter(ps, HasInode(ino, ino[gs[i][0]])) {
        if i > 0 {
          assert gs[i] == tail[i - 1];
          var q := gs[i][0];
          assert q in tail[i - 1];
          assert q in rest;
          FilterFilter(ps, LacksInode(ino, e), HasInode(ino, ino[q]));
        }
      }
    }
  }

  /** Every path of the list is in some group. */
  lemma {:induction false} GroupByInodeCovers(ino: map<Path, Inode>, ps: seq<Path>, p: Path)
    requires forall p :: p in ps ==> p in ino
    requires p in ps
    ensures var gs := GroupByInode(ino, ps);
      exists i :: 0 <= i < |gs| && p in gs[i]
    decreases |ps|
  {
    var e := ino[ps[0]];
    var group, rest := Filter(ps, HasInode(ino, e)), Filter(ps, LacksInode(ino, e));
    GroupByInodeSplit(ino, ps);
    var tail := GroupByInode(ino, rest);
    var gs := [group] + tail;
    if ino[p] == e {
      assert p in gs[0];
    } else {
      GroupByInodeCovers(ino, rest, p);
      var i :| 0 <= i < |tail| && p in tail[i];
      assert p in gs[i + 1];
    }
  }

  /** Filtering by `g` after `f` is filtering by `g` alone when `g` implies `f`. */
  lemma {:induction false} FilterFilter<T(!new)>(s: seq<T>, f: T -> bool, g: T -> bool)
    requires forall x :: x in s && g(x) ==> f(x)
    ensures Filter(Filter(s, f), g) == Filter(s, g)
    decreases |s|
  {
    if s != [] {
      var init, last := s[..|s| - 1], s[|s| - 1];
      assert s == init + [last];
      FilterFilter(init, f, g);
      FilterAppend(init, last, f);
      FilterAppend(init, last, g);
      assert last in s;
      if f(last) {
        FilterAppend(Filter(init, f), last, g);
      } else {
        assert !g(last);
        assert Filter(s, f) == Filter(init, f);
        assert Filter(s, g) == Filter(init, g);
      }
    }
  }

  /** Each member of a group as `file.relative_path_from(path)`. */
  function Relatives(g: seq<Path>, kegPath: Path): (r: seq<seq<string>>)
    ensures |r| == |g| && forall i :: 0 <= i < |g| ==> r[i] == RelativeFrom(g[i], kegPath)
  {
    seq(|g|, i requires 0 <= i < |g| => RelativeFrom(g[i], kegPath))
  }

  /** The bytes a group ends up with: the rewrite when a key occurred, else what was there. */
  function Rewritten(rel: Relocation, same: bool, s: string): string
  {
    var w := RewriteText(rel, same, s);
    if w.matches > 0 then w.text else s
  }

  /** `gsub!` returned non-nil for the group's first member. */
  predicate Matched(d: Disk, g: seq<Path>, rel: Relocation, same: bool) {
    g != [] && ContentOf(d, g[0]).Some? && RewriteText(rel, same, ContentOf(d, g[0]).value).matches > 0
  }

  /** `rest.each { |file| FileUtils.ln(first, file, force: true) }`; a failing ln raises. */
  function LinkRest(o: Outcome, first: Path, rest: seq<Path>): (r: Outcome)
    ensures r.changed == o.changed
    ensures r.disk.contents == o.disk.contents && r.disk.next == o.disk.next
    ensures r.error == o.error || (r.error.Some? && r.error.value.LinkFailed? && r.error.value.path in rest)
    decreases |rest|
  {
    if rest == [] then o
    else
      var d1 := ForceLinked(o.disk, first, rest[0]);
      if !CanLink(o.disk, first, rest[0]) then o.(disk := d1, error := Some(LinkFailed(rest[0])))
      else LinkRest(o.(disk := d1), first, rest[1..])
  }

  /** The body of the `each_value` block for one group. */
  function StepGroup(o: Outcome, g: seq<Path>, kegPath: Path, rel: Relocation, same: bool, faults: Faults): (r: Outcome)
    requires |g| > 0
    ensures r.changed == o.changed || r.changed == o.changed + Relatives(g, kegPath)
    ensures r.error == o.error || (r.error.Some? && r.error.value.path in g)
  {
    var first := g[0];
    match ContentOf(o.disk, first)
    case None => o.(error := Some(NotAFile(first)))
    case Some(s) =>
      var w := RewriteText(rel, same, s);
      if w.matches == 0 then o
      else
        var o1 := o.(changed := o.changed + Relatives(g, kegPath));
        if first !in faults.atomicFails then
          LinkRest(o1.(disk := AtomicWritten(o.disk, first, w.text)), first, g[1..])
        else if first !in faults.inPlaceFails then
          o1.(disk := WrittenInPlace(o.disk, first, w.text))
        else o1.(error := Some(WriteFailed(first)))
  }

  /** `a` stays a prefix of `c` when `b`, which `a` or `a + x` is, is one. */
  lemma PrefixTrans<T>(a: seq<T>, x: seq<T>, b: seq<T>, c: seq<T>)
    requires b == a || b == a + x
    requires |b| <= |c| && c[..|b|] == b
    ensures |a| <= |c| && c[..|a|] == a
  {
    assert b[..|a|] == a;
    assert c[..|a|] == c[..|b|][..|a|];
  }

  /** The groups one after another, stopping at the first error. */
  function RunGroups(o: Outcome, gs: seq<seq<Path>>, kegPath: Path, rel: Relocation, same: bool, faults: Faults): (r: Outcome)
    requires forall i :: 0 <= i < |gs| ==> |gs[i]| > 0
    ensures o.error.Some? ==> r == o
    ensures |o.changed| <= |r.changed| && r.changed[..|o.changed|] == o.changed
    decreases |gs|
  {
    if gs == [] || o.error.Some? then o
    else
      var o1 := StepGroup(o, gs[0], kegPath, rel, same, faults);
      var r := RunGroups(o1, gs[1..], kegPath, rel, same, faults);
      PrefixTrans(o.changed, Relatives(gs[0], kegPath), o1.changed, r.changed);
      r
  }

  /**
    Resuming a run: after the step of the next group, either the step raised and that
    is where the run ends, or the run goes on from there with the remaining groups.
   */
  lemma RunGroupsResume(o: Outcome, gs: seq<seq<Path>>, o1: Outcome, kegPath: Path, rel: Relocation, same: bool, faults: Faults)
    requires o.error.None? && gs != [] && forall i :: 0 <= i < |gs| ==> |gs[i]| > 0
    requires o1 == StepGroup(o, gs[0], kegPath, rel, same, faults)
    ensures o1.error.Some? ==> RunGroups(o, gs, kegPath, rel, same, faults) == o1
    ensures o1.error.None? ==> RunGroups(o, gs, kegPath, rel, same, faults) == RunGroups(o1, gs[1..], kegPath, rel, same, faults)
  {
  }

  /** `replace_text_in_files`: every path is stat'ed before anything is read or written. */
  function ReplaceRun(d: Disk, kegPath: Path, name: string, config: Config, tools: Tools,
                      rel: Relocation, same: bool, files: Option<seq<string>>, faults: Faults): (r: Outcome)
    ensures var list := FileList(d, kegPath, name, config, tools, files);
      (exists p :: p in list && p !in d.files) ==>
        r.disk == d && r.changed == [] && r.error.Some? && r.error.value.NotAFile? &&
        r.error.value.path in list && r.error.value.path !in d.files
  {
    var list := FileList(d, kegPath, name, config, tools, files);
    match FirstNonFile(d, list)
    case Some(p) => Outcome(d, [], Some(NotAFile(p)))
    case None => RunGroups(Outcome(d, [], None), GroupByInode(d.files, list), kegPath, rel, same, faults)
  }

  /** The value `replace_text_in_files` returns, or the error it raises. */
  function ResultOf(o: Outcome): Result<seq<seq<string>>, Error>
  {
    if o.error.Some? then Failure(o.error.value) else Success(o.changed)
  }

  /** The changed paths a run reports, computed from the disk before the run. */
  function ChangedPaths(d: Disk, gs: seq<seq<Path>>, kegPath: Path, rel: Relocation, same: bool): seq<seq<string>>
  {
    if gs == [] then []
    else
      var head := if Matched(d, gs[0], rel, same) then Relatives(gs[0], kegPath) else [];
      head + ChangedPaths(d, gs[1..], kegPath, rel, same)
  }

  // ---------------------------------------------------------------------------
  // One group.

  /**
    What a group looks like after its step, with `s0` the bytes its inode `e` held and
    `next0` the first fresh inode before it: all members share one inode holding the
    rewritten bytes; after an atomic write that inode is fresh, otherwise it is `e`;
    and `e` itself holds the new bytes only after an in-place write.
   */
  predicate GroupDone(s0: string, e: Inode, next0: Inode, r: Disk, g: seq<Path>,
                      rel: Relocation, same: bool, faults: Faults)
    requires |g| > 0
  {
    var w := RewriteText(rel, same, s0);
    var atomic := w.matches > 0 && g[0] !in faults.atomicFails;
    && g[0] in r.files && r.files[g[0]] in r.contents
    && (forall q :: q in g ==> q in r.files && r.files[q] == r.files[g[0]])
    && r.contents[r.files[g[0]]] == Rewritten(rel, same, s0)
    && (atomic ==> r.files[g[0]] >= next0)
    && (!atomic ==> r.files[g[0]] == e)
    && e in r.contents
    && r.contents[e] == (if w.matches > 0 && g[0] in faults.atomicFails then w.text else s0)
  }

  /**
    Re-linking points every listed path at `first`'s inode and touches no other file or
    inode, nor any directory; symlinks stay when the listed paths were regular files.
   */
  lemma {:induction false} LinkRestEffect(o: Outcome, first: Path, rest: seq<Path>)
    requires o.error.None? && WellFormed(o.disk) && first in o.disk.files
    ensures var r := LinkRest(o, first, rest);
      && WellFormed(r.disk) && r.changed == o.changed
      && r.disk.contents == o.disk.contents && r.disk.next == o.disk.next
      && r.disk.dirs == o.disk.dirs && r.disk.order == o.disk.order
      && ((forall q :: q in rest ==> q in o.disk.files) ==> r.disk.links == o.disk.links)
      && (r.error.None? ==>
            && first !in rest && first in r.disk.files && r.disk.files[first] == o.disk.files[first]
            && (forall q :: q in rest ==> q in r.disk.files && r.disk.files[q] == o.disk.files[first])
            && (forall p :: p in o.disk.files && p !in rest ==> p in r.disk.files && r.disk.files[p] == o.disk.files[p]))
      && (r.error.Some? ==> r.error.value == LinkFailed(first) && first in rest)
    decreases |rest|
  {
    LinkRestLayout(o, first, rest);
    LinkRestFiles(o, first, rest);
  }

  /** Re-linking keeps the disk well formed, and keeps its directories, walk order and, over files, its symlinks. */
  lemma {:induction false} LinkRestLayout(o: Outcome, first: Path, rest: seq<Path>)
    requires WellFormed(o.disk)
    ensures var r := LinkRest(o, first, rest);
      && WellFormed(r.disk) && r.disk.dirs == o.disk.dirs && r.disk.order == o.disk.order
      && ((forall q :: q in rest ==> q in o.disk.files) ==> r.disk.links == o.disk.links)
    decreases |rest|
  {
    if rest != [] {
      var d1 := ForceLinked(o.disk, first, rest[0]);
      ForceLinkedWellFormed(o.disk, first, rest[0]);
      if CanLink(o.disk, first, rest[0]) {
        assert (forall q :: q in rest ==> q in o.disk.files) ==> forall q :: q in rest[1..] ==> q in d1.files;
        LinkRestLayout(o.(disk := d1), first, rest[1..]);
      }
    }
  }

  /** Re-linking gives every member the first member's inode and keeps every other path's, or fails at `first` itself. */
  lemma {:induction false} LinkRestFiles(o: Outcome, first: Path, rest: seq<Path>)
    requires o.error.None? && first in o.disk.files
    ensures var r := LinkRest(o, first, rest);
      && (r.error.None? ==>
            && first !in rest && first in r.disk.files && r.disk.files[first] == o.disk.files[first]
            && (forall q :: q in rest ==> q in r.disk.files && r.disk.files[q] == o.disk.files[first])
            && (forall p :: p in o.disk.files && p !in rest ==> p in r.disk.files && r.disk.files[p] == o.disk.files[p]))
      && (r.error.Some? ==> r.error.value == LinkFailed(first) && first in rest)
    decreases |rest|
  {
    if rest != [] && CanLink(o.disk, first, rest[0]) {
      var d1 := ForceLinked(o.disk, first, rest[0]);
      LinkRestFiles(o.(disk := d1), first, rest[1..]);
      assert forall q :: q in rest ==> q == rest[0] || q in rest[1..];
    }
  }

  /** Every path outside `g` keeps its inode. */
  predicate KeepsFiles(d: Disk, r: Disk, g: seq<Path>) {
    forall p :: p in d.files && p !in g ==> p in r.files && r.files[p] == d.files[p]
  }

  /** Every inode that existed, other than `e`, keeps its bytes. */
  predicate KeepsInodes(d: Disk, r: Disk, e: Inode) {
    forall e' :: e' in d.contents && e' != e && e' < d.next ==> e' in r.contents && r.contents[e'] == d.contents[e']
  }

  /** The errors a step can raise once every path has been stat'ed. */
  predicate StepError(err: Error, g: seq<Path>, faults: Faults)
    requires |g| > 0
  {
    || (err == WriteFailed(g[0]) && g[0] in faults.atomicFails && g[0] in faults.inPlaceFails)
    || (err == LinkFailed(g[0]) && g[0] in g[1..])
  }

  /**
    What one step promises: the disk stays well formed with its symlinks, directories
    and walk order; without an error the group is
    finished, nothing outside it moved, and its members were recorded exactly when a key
    occurred in the first member; an error is one `StepError` names.
   */
  predicate StepPost(o: Outcome, g: seq<Path>, r: Outcome, kegPath: Path, rel: Relocation, same: bool, faults: Faults)
    requires |g| > 0 && g[0] in o.disk.files && o.disk.files[g[0]] in o.disk.contents
  {
    var d := o.disk;
    var e := d.files[g[0]];
    && WellFormed(r.disk) && r.disk.next >= d.next && SameLayout(d, r.disk)
    && (r.error.None? ==>
          && GroupDone(d.contents[e], e, d.next, r.disk, g, rel, same, faults)
          && KeepsFiles(d, r.disk, g) && KeepsInodes(d, r.disk, e)
          && r.changed == o.changed + (if Matched(d, g, rel, same) then Relatives(g, kegPath) else []))
    && (r.error.Some? ==> StepError(r.error.value, g, faults))
  }

  /** A group all of whose members are files sharing the first member's inode. */
  predicate OneInode(d: Disk, g: seq<Path>) {
    |g| > 0 && g[0] in d.files && forall q :: q in g ==> q in d.files && d.files[q] == d.files[g[0]]
  }

  /**
    After the atomic write and a re-linking that did not raise, the group sits on the
    fresh inode with the rewritten bytes, and nothing else moved.
   */
  lemma AtomicRelinked(d: Disk, g: seq<Path>, r: Disk, rel: Relocation, same: bool, faults: Faults)
    requires WellFormed(d) && OneInode(d, g) && g[0] !in faults.atomicFails
    requires RewriteText(rel, same, d.contents[d.files[g[0]]]).matches > 0
    requires r.contents == d.contents[d.next := RewriteText(rel, same, d.contents[d.files[g[0]]]).text]
    requires r.next == d.next + 1
    requires g[0] in r.files && r.files[g[0]] == d.next
    requires forall q :: q in g[1..] ==> q in r.files && r.files[q] == d.next
    requires forall p :: p in d.files && p != g[0] && p !in g[1..] ==> p in r.files && r.files[p] == d.files[p]
    ensures var e := d.files[g[0]];
      && GroupDone(d.contents[e], e, d.next, r, g, rel, same, faults)
      && KeepsFiles(d, r, g) && KeepsInodes(d, r, e)
  {
    assert forall q :: q in g ==> q == g[0] || q in g[1..];
  }

  /** The atomic branch: a fresh inode for the first member, then the others re-linked to it. */
  lemma StepAtomicEffect(o: Outcome, g: seq<Path>, kegPath: Path, rel: Relocation, same: bool, faults: Faults)
    requires o.error.None? && WellFormed(o.disk) && OneInode(o.disk, g)
    requires RewriteText(rel, same, o.disk.contents[o.disk.files[g[0]]]).matches > 0
    requires g[0] !in faults.atomicFails
    ensures StepPost(o, g, StepGroup(o, g, kegPath, rel, same, faults), kegPath, rel, same, faults)
  {
    var d, first := o.disk, g[0];
    var e := d.files[first];
    var w := RewriteText(rel, same, d.contents[e]);
    assert ContentOf(d, first) == Some(d.contents[e]);
    var d1 := AtomicWritten(d, first, w.text);
    AtomicWrittenWellFormed(d, first, w.text);
    var o2 := o.(changed := o.changed + Relatives(g, kegPath), disk := d1);
    var r := StepGroup(o, g, kegPath, rel, same, faults);
    assert r == LinkRest(o2, first, g[1..]);
    LinkRestEffect(o2, first, g[1..]);
    if r.error.None? {
      AtomicRelinked(d, g, r.disk, rel, same, faults);
    } else {
      assert StepError(r.error.value, g, faults);
    }
  }

  /** The fallback branch: the shared inode is overwritten, so every member sees the new bytes. */
  lemma StepInPlaceEffect(o: Outcome, g: seq<Path>, kegPath: Path, rel: Relocation, same: bool, faults: Faults)
    requires o.error.None? && WellFormed(o.disk) && OneInode(o.disk, g)
    requires RewriteText(rel, same, o.disk.contents[o.disk.files[g[0]]]).matches > 0
    requires g[0] in faults.atomicFails && g[0] !in faults.inPlaceFails
    ensures StepPost(o, g, StepGroup(o, g, kegPath, rel, same, faults), kegPath, rel, same, faults)
  {
    var d, first := o.disk, g[0];
    var e := d.files[first];
    var w := RewriteText(rel, same, d.contents[e]);
    assert ContentOf(d, first) == Some(d.contents[e]);
    var r := StepGroup(o, g, kegPath, rel, same, faults);
    assert r == o.(changed := o.changed + Relatives(g, kegPath), disk := WrittenInPlace(d, first, w.text));
    WrittenInPlaceWellFormed(d, first, w.text);
    assert GroupDone(d.contents[e], e, d.next, r.disk, g, rel, same, faults);
  }

  /**
    One step changes only its group's paths and inode (plus a fresh inode), records
    every member exactly when a key occurred in the first member, and fails only when
    both writes fail or the group lists its first member twice.
   */
  lemma StepGroupEffect(o: Outcome, g: seq<Path>, kegPath: Path, rel: Relocation, same: bool, faults: Faults)
    requires o.error.None? && WellFormed(o.disk) && OneInode(o.disk, g)
    ensures StepPost(o, g, StepGroup(o, g, kegPath, rel, same, faults), kegPath, rel, same, faults)
  {
    var d, first := o.disk, g[0];
    var e := d.files[first];
    var w := RewriteText(rel, same, d.contents[e]);
    assert ContentOf(d, first) == Some(d.contents[e]);
    var r := StepGroup(o, g, kegPath, rel, same, faults);
    if w.matches == 0 {
      assert r == o;
      assert !Matched(d, g, rel, same);
      assert GroupDone(d.contents[e], e, d.next, r.disk, g, rel, same, faults);
    } else if first !in faults.atomicFails {
      StepAtomicEffect(o, g, kegPath, rel, same, faults);
    } else if first !in faults.inPlaceFails {
      StepInPlaceEffect(o, g, kegPath, rel, same, faults);
    } else {
      assert r == o.(changed := o.changed + Relatives(g, kegPath), error := Some(WriteFailed(first)));
    }
  }

  // ---------------------------------------------------------------------------
  // All groups.

  predicate NotInGroups(gs: seq<seq<Path>>, p: Path) {
    forall i :: 0 <= i < |gs| ==> p !in gs[i]
  }

  predicate NotGroupInode(ino: map<Path, Inode>, gs: seq<seq<Path>>, e: Inode)
    requires Grouped(ino, gs)
  {
    forall i :: 0 <= i < |gs| ==> ino[gs[i][0]] != e
  }

  /** Every group is finished on `r`, measured against its inode's bytes on `d`. */
  predicate AllDone(d: Disk, r: Disk, gs: seq<seq<Path>>, rel: Relocation, same: bool, faults: Faults)
    requires WellFormed(d) && Grouped(d.files, gs)
  {
    forall i :: 0 <= i < |gs| ==>
      GroupDone(d.contents[d.files[gs[i][0]]], d.files[gs[i][0]], d.next, r, gs[i], rel, same, faults)
  }

  /** A path in no group keeps its inode. */
  predicate KeepsUngrouped(d: Disk, r: Disk, gs: seq<seq<Path>>) {
    forall p :: p in d.files && NotInGroups(gs, p) ==> p in r.files && r.files[p] == d.files[p]
  }

  /** An inode that belongs to no group keeps its bytes. */
  predicate KeepsUngroupedInodes(d: Disk, r: Disk, gs: seq<seq<Path>>)
    requires Grouped(d.files, gs)
  {
    forall e :: e in d.contents && e < d.next && NotGroupInode(d.files, gs, e) ==>
      e in r.contents && r.contents[e] == d.contents[e]
  }

  /** What a run over groups promises; see `RunGroupsEffect`. */
  predicate RunPost(o: Outcome, gs: seq<seq<Path>>, r: Outcome, kegPath: Path, rel: Relocation, same: bool, faults: Faults)
    requires WellFormed(o.disk) && Grouped(o.disk.files, gs)
  {
    var d := o.disk;
    && WellFormed(r.disk) && r.disk.next >= d.next && SameLayout(d, r.disk)
    && (r.error.None? ==>
          && AllDone(d, r.disk, gs, rel, same, faults)
          && KeepsUngrouped(d, r.disk, gs)
          && KeepsUngroupedInodes(d, r.disk, gs)
          && r.changed == o.changed + ChangedPaths(d, gs, kegPath, rel, same))
    && (r.error.Some? ==> exists i :: 0 <= i < |gs| && StepError(r.error.value, gs[i], faults))
  }

  /** A group finished against an earlier fresh-inode bound is finished against a lower one. */
  lemma GroupDoneLower(s0: string, e: Inode, n0: Inode, n1: Inode, r: Disk, g: seq<Path>,
                       rel: Relocation, same: bool, faults: Faults)
    requires |g| > 0 && n0 <= n1 && GroupDone(s0, e, n1, r, g, rel, same, faults)
    ensures GroupDone(s0, e, n0, r, g, rel, same, faults)
  {
  }

  /** What a later group does not touch keeps an earlier group's finished state. */
  lemma GroupDonePersists(s0: string, e: Inode, next0: Inode, d1: Disk, r: Disk, g: seq<Path>,
                          rel: Relocation, same: bool, faults: Faults)
    requires |g| > 0 && GroupDone(s0, e, next0, d1, g, rel, same, faults)
    requires forall q :: q in g ==> q in r.files && r.files[q] == d1.files[q]
    requires d1.files[g[0]] in r.contents && r.contents[d1.files[g[0]]] == d1.contents[d1.files[g[0]]]
    requires e in r.contents && r.contents[e] == d1.contents[e]
    ensures GroupDone(s0, e, next0, r, g, rel, same, faults)
  {
  }

  lemma {:induction false} ChangedPathsFrame(d: Disk, d1: Disk, gs: seq<seq<Path>>, kegPath: Path, rel: Relocation, same: bool)
    requires forall i :: 0 <= i < |gs| ==> |gs[i]| > 0 && ContentOf(d1, gs[i][0]) == ContentOf(d, gs[i][0])
    ensures ChangedPaths(d1, gs, kegPath, rel, same) == ChangedPaths(d, gs, kegPath, rel, same)
  {
    if gs != [] {
      ChangedPathsFrame(d, d1, gs[1..], kegPath, rel, same);
    }
  }

  /**
    After the first group's step, the later groups do not meet it: their members are
    other paths, on the inodes they had, which are neither the first group's old inode
    nor the one it ends up on, and those inodes keep their bytes.
   */
  lemma RestUntouched(o: Outcome, gs: seq<seq<Path>>, o1: Outcome, kegPath: Path, rel: Relocation, same: bool, faults: Faults)
    requires WellFormed(o.disk) && Grouped(o.disk.files, gs) && |gs| > 0
    requires StepPost(o, gs[0], o1, kegPath, rel, same, faults) && o1.error.None?
    ensures var d, d1, rest, e0 := o.disk, o1.disk, gs[1..], o.disk.files[gs[0][0]];
      && (forall j, q :: 0 <= j < |rest| && q in rest[j] ==> q !in gs[0] && q in d1.files && d1.files[q] == d.files[q])
      && Grouped(d1.files, rest)
      && (forall j :: 0 <= j < |rest| ==>
            (&& d.files[rest[j][0]] != e0 && d.files[rest[j][0]] != d1.files[gs[0][0]]
             && d1.contents[d.files[rest[j][0]]] == d.contents[d.files[rest[j][0]]]))
  {
    var d, d1, g, rest := o.disk, o1.disk, gs[0], gs[1..];
    var e0 := d.files[g[0]];
    GroupedTail(d.files, gs);
    forall j, q | 0 <= j < |rest| && q in rest[j] ensures q !in g && q in d1.files && d1.files[q] == d.files[q] {
      assert d.files[q] == d.files[rest[j][0]] != e0;
    }
  }

  /** The groups after the first are a grouping too, none of whose paths or inodes is the first group's. */
  lemma GroupedTail(ino: map<Path, Inode>, gs: seq<seq<Path>>)
    requires Grouped(ino, gs) && |gs| > 0
    ensures var rest := gs[1..];
      && Grouped(ino, rest)
      && forall j :: 0 <= j < |rest| ==> ino[rest[j][0]] != ino[gs[0][0]]
  {
    var rest := gs[1..];
    forall j | 0 <= j < |rest| ensures ino[rest[j][0]] != ino[gs[0][0]] {
      assert rest[j] == gs[j + 1];
    }
    forall i, q | 0 <= i < |rest| && q in rest[i] ensures q in ino && ino[q] == ino[rest[i][0]] {
      assert rest[i] == gs[i + 1];
    }
    forall i, j | 0 <= i < j < |rest| ensures ino[rest[i][0]] != ino[rest[j][0]] {
      assert rest[i] == gs[i + 1] && rest[j] == gs[j + 1];
    }
  }

  /** The groups are all finished after the run: the first by its step, the others by the rest of the run. */
  lemma RunAllDone(o: Outcome, gs: seq<seq<Path>>, o1: Outcome, r: Outcome, kegPath: Path, rel: Relocation, same: bool, faults: Faults)
    requires WellFormed(o.disk) && Grouped(o.disk.files, gs) && |gs| > 0
    requires StepPost(o, gs[0], o1, kegPath, rel, same, faults) && o1.error.None?
    requires WellFormed(o1.disk) && Grouped(o1.disk.files, gs[1..])
    requires RunPost(o1, gs[1..], r, kegPath, rel, same, faults) && r.error.None?
    ensures AllDone(o.disk, r.disk, gs, rel, same, faults)
  {
    var d, d1, g, rest := o.disk, o1.disk, gs[0], gs[1..];
    var e0 := d.files[g[0]];
    RestUntouched(o, gs, o1, kegPath, rel, same, faults);
    forall q | q in g ensures NotInGroups(rest, q) {
    }
    assert NotGroupInode(d1.files, rest, d1.files[g[0]]);
    assert NotGroupInode(d1.files, rest, e0);
    GroupDonePersists(d.contents[e0], e0, d.next, d1, r.disk, g, rel, same, faults);
    forall i | 0 <= i < |gs|
      ensures GroupDone(d.contents[d.files[gs[i][0]]], d.files[gs[i][0]], d.next, r.disk, gs[i], rel, same, faults)
    {
      if i > 0 {
        assert gs[i] == rest[i - 1];
        var ei := d.files[gs[i][0]];
        assert d1.files[rest[i - 1][0]] == ei;
        GroupDoneLower(d.contents[ei], ei, d.next, d1.next, r.disk, gs[i], rel, same, faults);
      }
    }
  }

  /** Paths and inodes outside every group survive the run. */
  lemma RunKeeps(o: Outcome, gs: seq<seq<Path>>, o1: Outcome, r: Outcome, kegPath: Path, rel: Relocation, same: bool, faults: Faults)
    requires WellFormed(o.disk) && Grouped(o.disk.files, gs) && |gs| > 0
    requires StepPost(o, gs[0], o1, kegPath, rel, same, faults) && o1.error.None?
    requires WellFormed(o1.disk) && Grouped(o1.disk.files, gs[1..])
    requires RunPost(o1, gs[1..], r, kegPath, rel, same, faults) && r.error.None?
    ensures KeepsUngrouped(o.disk, r.disk, gs)
    ensures KeepsUngroupedInodes(o.disk, r.disk, gs)
  {
    RestUntouched(o, gs, o1, kegPath, rel, same, faults);
    RunKeepsPaths(o, gs, o1, r, kegPath, rel, same, faults);
    RunKeepsInodes(o, gs, o1, r, kegPath, rel, same, faults);
  }

  lemma RunKeepsPaths(o: Outcome, gs: seq<seq<Path>>, o1: Outcome, r: Outcome, kegPath: Path, rel: Relocation, same: bool, faults: Faults)
    requires WellFormed(o.disk) && Grouped(o.disk.files, gs) && |gs| > 0
    requires StepPost(o, gs[0], o1, kegPath, rel, same, faults) && o1.error.None?
    requires Grouped(o1.disk.files, gs[1..])
    requires KeepsUngrouped(o1.disk, r.disk, gs[1..])
    ensures KeepsUngrouped(o.disk, r.disk, gs)
  {
    var d, rest := o.disk, gs[1..];
    forall p | p in d.files && NotInGroups(gs, p) ensures p in r.disk.files && r.disk.files[p] == d.files[p] {
      assert p !in gs[0];
      forall j | 0 <= j < |rest| ensures p !in rest[j] { assert rest[j] == gs[j + 1]; }
    }
  }

  lemma RunKeepsInodes(o: Outcome, gs: seq<seq<Path>>, o1: Outcome, r: Outcome, kegPath: Path, rel: Relocation, same: bool, faults: Faults)
    requires WellFormed(o.disk) && Grouped(o.disk.files, gs) && |gs| > 0
    requires StepPost(o, gs[0], o1, kegPath, rel, same, faults) && o1.error.None?
    requires Grouped(o1.disk.files, gs[1..])
    requires forall j, q :: 0 <= j < |gs[1..]| && q in gs[1..][j] ==> q in o1.disk.files && o1.disk.files[q] == o.disk.files[q]
    requires KeepsUngroupedInodes(o1.disk, r.disk, gs[1..])
    ensures KeepsUngroupedInodes(o.disk, r.disk, gs)
  {
    var d, d1, rest := o.disk, o1.disk, gs[1..];
    forall e | e in d.contents && e < d.next && NotGroupInode(d.files, gs, e)
      ensures e in r.disk.contents && r.disk.contents[e] == d.contents[e]
    {
      forall j | 0 <= j < |rest| ensures d1.files[rest[j][0]] != e {
        assert rest[j] == gs[j + 1];
        assert rest[j][0] in rest[j];
      }
    }
  }

  /** The later groups' first members read the same bytes after the first group's step. */
  lemma RestFrame(o: Outcome, gs: seq<seq<Path>>, o1: Outcome, kegPath: Path, rel: Relocation, same: bool, faults: Faults)
    requires WellFormed(o.disk) && Grouped(o.disk.files, gs) && |gs| > 0
    requires StepPost(o, gs[0], o1, kegPath, rel, same, faults) && o1.error.None?
    ensures forall i :: 0 <= i < |gs[1..]| ==> |gs[1..][i]| > 0 && ContentOf(o1.disk, gs[1..][i][0]) == ContentOf(o.disk, gs[1..][i][0])
  {
    var rest := gs[1..];
    RestUntouched(o, gs, o1, kegPath, rel, same, faults);
    forall i | 0 <= i < |rest| ensures |rest[i]| > 0 && ContentOf(o1.disk, rest[i][0]) == ContentOf(o.disk, rest[i][0]) {
      assert rest[i] == gs[i + 1];
      var q := rest[i][0];
      assert q in rest[i];
      assert q in o1.disk.files && o1.disk.files[q] == o.disk.files[q];
    }
  }

  lemma ConcatAssoc<T>(a: seq<T>, b: seq<T>, c: seq<T>)
    ensures (a + b) + c == a + (b + c)
  {
  }

  /** The changed list of the run: the first group's members when it matched, then the rest's. */
  lemma RunChanged(o: Outcome, gs: seq<seq<Path>>, o1: Outcome, r: Outcome, kegPath: Path, rel: Relocation, same: bool, faults: Faults)
    requires WellFormed(o.disk) && Grouped(o.disk.files, gs) && |gs| > 0
    requires StepPost(o, gs[0], o1, kegPath, rel, same, faults) && o1.error.None?
    requires WellFormed(o1.disk) && Grouped(o1.disk.files, gs[1..])
    requires RunPost(o1, gs[1..], r, kegPath, rel, same, faults) && r.error.None?
    ensures r.changed == o.changed + ChangedPaths(o.disk, gs, kegPath, rel, same)
  {
    var d, d1, rest := o.disk, o1.disk, gs[1..];
    var head := if Matched(d, gs[0], rel, same) then Relatives(gs[0], kegPath) else [];
    RestFrame(o, gs, o1, kegPath, rel, same, faults);
    ChangedPathsFrame(d, d1, rest, kegPath, rel, same);
    assert ChangedPaths(d, gs, kegPath, rel, same) == head + ChangedPaths(d, rest, kegPath, rel, same);
    calc {
      r.changed;
      o1.changed + ChangedPaths(d1, rest, kegPath, rel, same);
      (o.changed + head) + ChangedPaths(d, rest, kegPath, rel, same);
      { ConcatAssoc(o.changed, head, ChangedPaths(d, rest, kegPath, rel, same)); }
      o.changed + (head + ChangedPaths(d, rest, kegPath, rel, same));
      o.changed + ChangedPaths(d, gs, kegPath, rel, same);
    }
  }

  /**
    A run over groups that does not raise leaves every group finished, every other
    file on its old inode, every other inode with its old bytes, and reports exactly
    the members of the groups whose first member contained a key; a run that raises
    does so because both writes of a group failed or a group lists its first member twice.
   */
  lemma {:induction false} RunGroupsEffect(o: Outcome, gs: seq<seq<Path>>, kegPath: Path, rel: Relocation, same: bool, faults: Faults)
    requires o.error.None? && WellFormed(o.disk) && Grouped(o.disk.files, gs)
    ensures RunPost(o, gs, RunGroups(o, gs, kegPath, rel, same, faults), kegPath, rel, same, faults)
    decreases |gs|
  {
    if gs != [] {
      var g, rest := gs[0], gs[1..];
      assert OneInode(o.disk, g);
      var o1 := StepGroup(o, g, kegPath, rel, same, faults);
      StepGroupEffect(o, g, kegPath, rel, same, faults);
      var r := RunGroups(o1, rest, kegPath, rel, same, faults);
      assert r == RunGroups(o, gs, kegPath, rel, same, faults);
      if o1.error.None? {
        RestUntouched(o, gs, o1, kegPath, rel, same, faults);
        RunGroupsEffect(o1, rest, kegPath, rel, same, faults);
        RunPostCons(o, gs, o1, r, kegPath, rel, same, faults);
      } else {
        assert r == o1;
        assert StepError(o1.error.value, gs[0], faults);
      }
    }
  }

  /** A step that did not raise, followed by a run over the other groups, is a run over all of them. */
  lemma RunPostCons(o: Outcome, gs: seq<seq<Path>>, o1: Outcome, r: Outcome, kegPath: Path, rel: Relocation, same: bool, faults: Faults)
    requires WellFormed(o.disk) && Grouped(o.disk.files, gs) && |gs| > 0
    requires StepPost(o, gs[0], o1, kegPath, rel, same, faults) && o1.error.None?
    requires WellFormed(o1.disk) && Grouped(o1.disk.files, gs[1..])
    requires RunPost(o1, gs[1..], r, kegPath, rel, same, faults)
    ensures RunPost(o, gs, r, kegPath, rel, same, faults)
  {
    if r.error.None? {
      RunAllDone(o, gs, o1, r, kegPath, rel, same, faults);
      RunKeeps(o, gs, o1, r, kegPath, rel, same, faults);
      RunChanged(o, gs, o1, r, kegPath, rel, same, faults);
    } else {
      var i :| 0 <= i < |gs[1..]| && StepError(r.error.value, gs[1..][i], faults);
      assert StepError(r.error.value, gs[i + 1], faults);
    }
  }


  // ---------------------------------------------------------------------------
  // The whole of replace_text_in_files.

  /** The paths of the list are all files once the up-front stat found no missing one. */
  lemma ListedAreFiles(d: Disk, list: seq<Path>)
    requires FirstNonFile(d, list).None?
    ensures forall p :: p in list ==> p in d.files
  {
  }

  /**
    `replace_text_in_files` on a well-formed disk. Symlinks, directories and the walk
    order never change. When a listed path is not a regular file, nothing is touched and that path is the error. When the run does not raise,
    every listed path reads the rewritten bytes of what its inode held, listed paths that
    were hard links of each other still are, unlisted paths keep their inode, an inode no
    listed path was on keeps its bytes, and the changed list is that of the matching groups.
   */
  lemma ReplaceRunEffect(d: Disk, kegPath: Path, name: string, config: Config, tools: Tools,
                         rel: Relocation, same: bool, files: Option<seq<string>>, faults: Faults)
    requires WellFormed(d)
    ensures var list, o := FileList(d, kegPath, name, config, tools, files), ReplaceRun(d, kegPath, name, config, tools, rel, same, files, faults);
      && WellFormed(o.disk) && SameLayout(d, o.disk)
      && (FirstNonFile(d, list).Some? ==>
            o.disk == d && o.changed == [] && o.error == Some(NotAFile(FirstNonFile(d, list).value)))
      && (o.error.None? ==> ListRewritten(d, list, o, kegPath, rel, same))
  {
    var list := FileList(d, kegPath, name, config, tools, files);
    if FirstNonFile(d, list).None? {
      ListedAreFiles(d, list);
      RunOnListEffect(d, list, kegPath, rel, same, faults);
    }
  }

  /**
    What a run that did not raise did to the listed paths: each reads the rewritten bytes
    of what its inode held, listed hard links still share an inode, unlisted paths keep
    their inode, an inode no listed path was on keeps its bytes, and the changed list is
    that of the matching groups.
   */
  predicate ListRewritten(d: Disk, list: seq<Path>, o: Outcome, kegPath: Path, rel: Relocation, same: bool)
    requires WellFormed(d)
  {
    && (forall p :: p in list ==>
          p in d.files && ContentOf(o.disk, p) == Some(Rewritten(rel, same, d.contents[d.files[p]])))
    && (forall p, q :: p in list && q in list && p in d.files && q in d.files && d.files[p] == d.files[q] ==>
          p in o.disk.files && q in o.disk.files && o.disk.files[p] == o.disk.files[q])
    && (forall p :: p in d.files && p !in list ==> p in o.disk.files && o.disk.files[p] == d.files[p])
    && (forall e :: e in d.contents && e < d.next && (forall p :: p in list && p in d.files ==> d.files[p] != e) ==>
          e in o.disk.contents && o.disk.contents[e] == d.contents[e])
    && o.changed == ChangedPaths(d, GroupByInode(d.files, list), kegPath, rel, same)
  }

  /** The run over the inode groups of a list of regular files. */
  lemma RunOnListEffect(d: Disk, list: seq<Path>, kegPath: Path, rel: Relocation, same: bool, faults: Faults)
    requires WellFormed(d) && forall p :: p in list ==> p in d.files
    ensures var o := RunGroups(Outcome(d, [], None), GroupByInode(d.files, list), kegPath, rel, same, faults);
      WellFormed(o.disk) && SameLayout(d, o.disk) && (o.error.None? ==> ListRewritten(d, list, o, kegPath, rel, same))
  {
    var gs := GroupByInode(d.files, list);
    var o0 := Outcome(d, [], None);
    RunGroupsEffect(o0, gs, kegPath, rel, same, faults);
    var o := RunGroups(o0, gs, kegPath, rel, same, faults);
    if o.error.None? {
      ListedInGroup(d, list, o.disk, rel, same, faults);
      forall p | p in d.files && p !in list ensures NotInGroups(gs, p) {
      }
      forall e | e in d.contents && e < d.next && (forall p :: p in list && p in d.files ==> d.files[p] != e)
        ensures NotGroupInode(d.files, gs, e)
      {
        forall i | 0 <= i < |gs| ensures d.files[gs[i][0]] != e {
          assert gs[i][0] in gs[i];
        }
      }
    }
  }

  /** Through its group, every listed path reads the rewritten bytes, and hard links stay hard links. */
  lemma ListedInGroup(d: Disk, list: seq<Path>, r: Disk, rel: Relocation, same: bool, faults: Faults)
    requires WellFormed(d) && forall p :: p in list ==> p in d.files
    requires AllDone(d, r, GroupByInode(d.files, list), rel, same, faults)
    ensures forall p :: p in list ==> ContentOf(r, p) == Some(Rewritten(rel, same, d.contents[d.files[p]]))
    ensures forall p, q :: p in list && q in list && d.files[p] == d.files[q] ==>
      p in r.files && q in r.files && r.files[p] == r.files[q]
  {
    var gs := GroupByInode(d.files, list);
    forall p | p in list
      ensures p in r.files && r.files[p] == r.files[gs[GroupIndex(d, list, p)][0]]
      ensures ContentOf(r, p) == Some(Rewritten(rel, same, d.contents[d.files[p]]))
    {
      var i := GroupIndex(d, list, p);
      assert GroupDone(d.contents[d.files[gs[i][0]]], d.files[gs[i][0]], d.next, r, gs[i], rel, same, faults);
    }
    forall p, q | p in list && q in list && d.files[p] == d.files[q]
      ensures p in r.files && q in r.files && r.files[p] == r.files[q]
    {
      var i, j := GroupIndex(d, list, p), GroupIndex(d, list, q);
      // Distinct groups have distinct inodes, so both paths are in the same group.
      assert i == j;
    }
  }

  /** The index of the group that holds a listed path. */
  function GroupIndex(d: Disk, list: seq<Path>, p: Path): (i: nat)
    requires (forall q :: q in list ==> q in d.files) && p in list
    ensures var gs := GroupByInode(d.files, list);
      i < |gs| && p in gs[i] && d.files[p] == d.files[gs[i][0]]
  {
    GroupByInodeCovers(d.files, list, p);
    var gs := GroupByInode(d.files, list);
    var i :| 0 <= i < |gs| && p in gs[i];
    i
  }

  /** The changed list holds the relative path of each member of each group that matched. */
  lemma {:induction false} ChangedPathsMembers(d: Disk, gs: seq<seq<Path>>, kegPath: Path, rel: Relocation, same: bool, x: seq<string>)
    ensures x in ChangedPaths(d, gs, kegPath, rel, same) <==>
      exists i, q :: 0 <= i < |gs| && q in gs[i] && Matched(d, gs[i], rel, same) && x == RelativeFrom(q, kegPath)
  {
    if gs != [] {
      ChangedPathsMembers(d, gs[1..], kegPath, rel, same, x);
      var head := if Matched(d, gs[0], rel, same) then Relatives(gs[0], kegPath) else [];
      assert ChangedPaths(d, gs, kegPath, rel, same) == head + ChangedPaths(d, gs[1..], kegPath, rel, same);
      RelativesMember(gs[0], kegPath, x);
      ChangedByCons(d, gs, kegPath, rel, same, x);
    }
  }

  /** A relative path is among a group's relative paths exactly when some member has it. */
  lemma RelativesMember(g: seq<Path>, kegPath: Path, x: seq<string>)
    ensures x in Relatives(g, kegPath) <==> exists q :: q in g && x == RelativeFrom(q, kegPath)
  {
    if exists q :: q in g && x == RelativeFrom(q, kegPath) {
      var q :| q in g && x == RelativeFrom(q, kegPath);
      var k :| 0 <= k < |g| && g[k] == q;
      assert Relatives(g, kegPath)[k] == x;
    }
  }

  /** Being changed by some group is being changed by the first group or by one of the others. */
  lemma ChangedByCons(d: Disk, gs: seq<seq<Path>>, kegPath: Path, rel: Relocation, same: bool, x: seq<string>)
    requires gs != []
    ensures (exists i, q :: 0 <= i < |gs| && q in gs[i] && Matched(d, gs[i], rel, same) && x == RelativeFrom(q, kegPath)) <==>
      || (Matched(d, gs[0], rel, same) && exists q :: q in gs[0] && x == RelativeFrom(q, kegPath))
      || (exists i, q :: 0 <= i < |gs[1..]| && q in gs[1..][i] && Matched(d, gs[1..][i], rel, same) && x == RelativeFrom(q, kegPath))
  {
    var rest := gs[1..];
    if exists i, q :: 0 <= i < |gs| && q in gs[i] && Matched(d, gs[i], rel, same) && x == RelativeFrom(q, kegPath) {
      var i, q :| 0 <= i < |gs| && q in gs[i] && Matched(d, gs[i], rel, same) && x == RelativeFrom(q, kegPath);
      if i > 0 {
        assert rest[i - 1] == gs[i];
      }
    }
    if exists i, q :: 0 <= i < |rest| && q in rest[i] && Matched(d, rest[i], rel, same) && x == RelativeFrom(q, kegPath) {
      var i, q :| 0 <= i < |rest| && q in rest[i] && Matched(d, rest[i], rel, same) && x == RelativeFrom(q, kegPath);
      assert rest[i] == gs[i + 1];
    }
  }

  /** Every path of the file list is normal: walked entries are, and so are entries joined to a normal keg path. */
  lemma FileListNormal(d: Disk, kegPath: Path, name: string, config: Config, tools: Tools, files: Option<seq<string>>)
    requires WellFormed(d) && IsNormal(kegPath)
    ensures forall p :: p in FileList(d, kegPath, name, config, tools, files) ==> IsNormal(p)
  {
    var list := FileList(d, kegPath, name, config, tools, files);
    if files.Some? {
      forall i | 0 <= i < |list| ensures IsNormal(list[i]) {
        assert list[i] == JoinKeg(kegPath, files.value[i]);
      }
    } else {
      TextFilesSound(d, kegPath, name, config, tools);
      forall p | p in list ensures IsNormal(p) {
        assert p in Walk(d, kegPath);
        var j :| 0 <= j < |d.order| && d.order[j] == p;
      }
    }
  }

  /** Relative paths from the keg tell normal paths apart. */
  lemma RelativeFromInjective(p: Path, q: Path, base: Path)
    requires IsNormal(p) && IsNormal(q) && RelativeFrom(p, base) == RelativeFrom(q, base)
    ensures p == q
  {
    RelativeFromResolves(p, base);
    RelativeFromResolves(q, base);
  }

  /** A group of listed paths matched exactly when the bytes of any of its members hold a key. */
  lemma MatchedMember(d: Disk, list: seq<Path>, rel: Relocation, same: bool, j: nat, q: Path)
    requires WellFormed(d) && (forall r :: r in list ==> r in d.files)
    requires j < |GroupByInode(d.files, list)| && q in GroupByInode(d.files, list)[j]
    ensures Matched(d, GroupByInode(d.files, list)[j], rel, same) <==>
      exists k :: k in Replacements(rel, same) && OccursIn(k, d.contents[d.files[q]])
  {
    var g := GroupByInode(d.files, list)[j];
    var s := d.contents[d.files[q]];
    assert ContentOf(d, g[0]) == Some(s);
    RewriteChangesIff(rel, same, s);
  }

  /** A listed path's relative path is in the groups' changed list exactly when a key occurs in its bytes. */
  lemma ChangedIffKey(d: Disk, list: seq<Path>, kegPath: Path, rel: Relocation, same: bool, p: Path)
    requires WellFormed(d) && (forall q :: q in list ==> q in d.files && IsNormal(q)) && p in list
    ensures RelativeFrom(p, kegPath) in ChangedPaths(d, GroupByInode(d.files, list), kegPath, rel, same) <==>
      exists k :: k in Replacements(rel, same) && OccursIn(k, d.contents[d.files[p]])
  {
    var gs := GroupByInode(d.files, list);
    var x := RelativeFrom(p, kegPath);
    ChangedPathsMembers(d, gs, kegPath, rel, same, x);
    if x in ChangedPaths(d, gs, kegPath, rel, same) {
      var j, q :| 0 <= j < |gs| && q in gs[j] && Matched(d, gs[j], rel, same) && x == RelativeFrom(q, kegPath);
      RelativeFromInjective(p, q, kegPath);
      MatchedMember(d, list, rel, same, j, q);
    } else {
      var i := GroupIndex(d, list, p);
      MatchedMember(d, list, rel, same, i, p);
    }
  }

  /**
    When the run does not raise, a listed path's relative path is reported exactly
    when one of the replacement keys occurs in the bytes it held.
   */
  lemma ReplaceRunChanged(d: Disk, kegPath: Path, name: string, config: Config, tools: Tools,
                          rel: Relocation, same: bool, files: Option<seq<string>>, faults: Faults)
    requires WellFormed(d) && IsNormal(kegPath)
    ensures var list, o := FileList(d, kegPath, name, config, tools, files), ReplaceRun(d, kegPath, name, config, tools, rel, same, files, faults);
      o.error.None? ==> forall p :: p in list && p in d.files ==>
        (RelativeFrom(p, kegPath) in o.changed <==>
           exists k :: k in Replacements(rel, same) && OccursIn(k, d.contents[d.files[p]]))
  {
    var list, o := FileList(d, kegPath, name, config, tools, files), ReplaceRun(d, kegPath, name, config, tools, rel, same, files, faults);
    ReplaceRunEffect(d, kegPath, name, config, tools, rel, same, files, faults);
    if o.error.None? {
      ListedAreFiles(d, list);
      FileListNormal(d, kegPath, name, config, tools, files);
      forall p | p in list && p in d.files
        ensures RelativeFrom(p, kegPath) in o.changed <==>
          exists k :: k in Replacements(rel, same) && OccursIn(k, d.contents[d.files[p]])
      {
        ChangedIffKey(d, list, kegPath, rel, same, p);
      }
    }
  }
}
