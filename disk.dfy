/**
  The part of a file system the relocation code touches: regular files (path to inode,
  inode to bytes), symbolic links (path to target string), directories, and the order in
  which Pathname#find visits entries. `FileSystem` is the mutable object; `Disk` is the
  value of its state, on which the operations are specified.
 */
module Disks {
  import opened Wrappers
  import opened Paths
  import opened Lists

  type Inode = nat

  datatype Disk = Disk(
    files: map<Path, Inode>,
    contents: map<Inode, string>,
    links: map<Path, string>,
    dirs: set<Path>,
    order: seq<Path>,
    next: Inode)

  /** Why a relocation run raised. */
  datatype Error =
    | NotAFile(path: Path)      // stat or read of a path that is not a regular file (ENOENT, EISDIR)
    | LinkFailed(path: Path)    // FileUtils.ln could not link this path to its group's first member
    | WriteFailed(path: Path)   // the in-place fallback write raised too

  /**
    Every file's inode has contents and is below `next`, which is where the next new
    inode comes from; a path is not both a file and a symlink; the walk order lists each
    normal path, free of NUL bytes, at most once.
   */
  predicate WellFormed(d: Disk) {
    && (forall p :: p in d.files ==> d.files[p] in d.contents && d.files[p] < d.next)
    && (forall p :: p in d.links ==> p !in d.files)
    && Distinct(d.order)
    && (forall i :: 0 <= i < |d.order| ==> IsNormal(d.order[i]) && NoNul(d.order[i]))
  }

  /** No component holds a NUL byte, which a POSIX file name cannot contain. */
  predicate NoNul(p: Path) {
    forall i :: 0 <= i < |p| ==> '\0' !in p[i]
  }

  predicate Exists(d: Disk, p: Path) {
    p in d.files || p in d.links || p in d.dirs
  }

  /** `p` lies under `root` (or is `root`). */
  predicate Within(root: Path, p: Path) {
    |root| <= |p| && p[..|root|] == root
  }

  /** Pathname#find from `root`: the existing entries at or under `root`, in walk order. */
  function Walk(d: Disk, root: Path): (ps: seq<Path>)
    ensures forall p :: p in ps <==> p in d.order && Within(root, p) && Exists(d, p)
    ensures WellFormed(d) ==> Distinct(ps)
  {
    var ps := Filter(d.order, InTree(d, root));
    if WellFormed(d) then FilterDistinct(d.order, InTree(d, root)); ps else ps
  }

  /** The entries Pathname#find visits from `root`. */
  function InTree(d: Disk, root: Path): Path -> bool
  {
    p => Within(root, p) && Exists(d, p)
  }

  /** The bytes of a regular file, if `p` is one. */
  function ContentOf(d: Disk, p: Path): Option<string>
  {
    if p in d.files && d.files[p] in d.contents then Some(d.contents[d.files[p]]) else None
  }

  /** Pathname#atomic_write: the path gets a fresh inode holding the new bytes. */
  function AtomicWritten(d: Disk, p: Path, s: string): Disk
  {
    d.(files := d.files[p := d.next], contents := d.contents[d.next := s], next := d.next + 1)
  }

  /** Opening the file for writing in place: every path sharing its inode sees the new bytes. */
  function WrittenInPlace(d: Disk, p: Path, s: string): Disk
    requires p in d.files
  {
    d.(contents := d.contents[d.files[p] := s])
  }

  /** `r` has the symlinks, directories and walk order of `d`: only regular files differ. */
  predicate SameLayout(d: Disk, r: Disk) {
    r.links == d.links && r.dirs == d.dirs && r.order == d.order
  }

  /** The removal half of FileUtils.ln(src, dest, force: true). */
  function Removed(d: Disk, p: Path): Disk
  {
    d.(files := d.files - {p}, links := d.links - {p})
  }

  /** FileUtils.ln(src, dest, force: true) succeeds when `src` still exists after `dest` is removed. */
  predicate CanLink(d: Disk, src: Path, dest: Path) {
    src in Removed(d, dest).files
  }

  /** The disk after FileUtils.ln(src, dest, force: true); on failure only the removal happened. */
  function ForceLinked(d: Disk, src: Path, dest: Path): Disk
  {
    var r := Removed(d, dest);
    if src in r.files then r.(files := r.files[dest := r.files[src]]) else r
  }

  /** FileUtils.ln_s(target, p) after `p` was unlinked. */
  function Symlinked(d: Disk, p: Path, target: string): Disk
  {
    d.(links := d.links[p := target])
  }

  lemma AtomicWrittenWellFormed(d: Disk, p: Path, s: string)
    requires WellFormed(d) && p in d.files
    ensures WellFormed(AtomicWritten(d, p, s))
  {
  }

  lemma WrittenInPlaceWellFormed(d: Disk, p: Path, s: string)
    requires WellFormed(d) && p in d.files
    ensures WellFormed(WrittenInPlace(d, p, s))
  {
  }

  lemma ForceLinkedWellFormed(d: Disk, src: Path, dest: Path)
    requires WellFormed(d)
    ensures WellFormed(ForceLinked(d, src, dest))
  {
  }

  /** The mutable file system. */
  class FileSystem {
    var files: map<Path, Inode>
    var contents: map<Inode, string>
    var links: map<Path, string>
    var dirs: set<Path>
    var order: seq<Path>
    var next: Inode

    function Snapshot(): Disk
      reads this
    {
      Disk(files, contents, links, dirs, order, next)
    }

    predicate Valid()
      reads this
    {
      WellFormed(Snapshot())
    }

    constructor (d: Disk)
      requires WellFormed(d)
      ensures Snapshot() == d && Valid()
    {
      files, contents, links, dirs, order, next := d.files, d.contents, d.links, d.dirs, d.order, d.next;
    }

    /** `open("rb", &:read)`; None when `p` is not a regular file. */
    method Read(p: Path) returns (s: Option<string>)
      ensures s == ContentOf(Snapshot(), p)
    {
      if p in files && files[p] in contents {
        s := Some(contents[files[p]]);
      } else {
        s := None;
      }
    }

    /** Pathname#readlink. */
    method ReadLink(p: Path) returns (t: string)
      requires p in links
      ensures t == links[p]
    {
      t := links[p];
    }

    /** Pathname#atomic_write; it raises a SystemCallError for the paths in `failing`. */
    method AtomicWrite(p: Path, s: string, failing: set<Path>) returns (ok: bool)
      requires Valid() && p in files
      modifies this
      ensures ok == (p !in failing)
      ensures Snapshot() == if ok then AtomicWritten(old(Snapshot()), p, s) else old(Snapshot())
      ensures Valid()
    {
      ok := p !in failing;
      if ok {
        AtomicWrittenWellFormed(Snapshot(), p, s);
        files, contents, next := files[p := next], contents[next := s], next + 1;
      }
    }

    /** `ensure_writable { open("wb") { write } }`; it raises for the paths in `failing`. */
    method WriteInPlace(p: Path, s: string, failing: set<Path>) returns (ok: bool)
      requires Valid() && p in files
      modifies this
      ensures ok == (p !in failing)
      ensures Snapshot() == if ok then WrittenInPlace(old(Snapshot()), p, s) else old(Snapshot())
      ensures Valid()
    {
      ok := p !in failing;
      if ok {
        WrittenInPlaceWellFormed(Snapshot(), p, s);
        contents := contents[files[p] := s];
      }
    }

    /** FileUtils.ln(src, dest, force: true). */
    method ForceLink(src: Path, dest: Path) returns (ok: bool)
      requires Valid()
      modifies this
      ensures ok == CanLink(old(Snapshot()), src, dest)
      ensures Snapshot() == ForceLinked(old(Snapshot()), src, dest)
      ensures Valid()
    {
      ForceLinkedWellFormed(Snapshot(), src, dest);
      files, links := files - {dest}, links - {dest};
      ok := src in files;
      if ok {
        files := files[dest := files[src]];
      }
    }

    /** Pathname#unlink. */
    method Unlink(p: Path)
      requires Valid()
      modifies this
      ensures Snapshot() == Removed(old(Snapshot()), p)
      ensures Valid()
    {
      files, links := files - {p}, links - {p};
    }

    /** FileUtils.ln_s(target, p), on a path that does not exist. */
    method Symlink(target: string, p: Path)
      requires Valid() && p !in files
      modifies this
      ensures Snapshot() == Symlinked(old(Snapshot()), p, target)
      ensures Valid()
    {
      links := links[p := target];
    }
  }
}
