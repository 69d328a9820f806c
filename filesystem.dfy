/**
  An abstract filesystem: a map from absolute paths to entries, and the
  standard-library calls the root manager makes on it (`remove_file`,
  `symlink`, `create_dir_all`, `Path::exists`, `Path::is_dir`).  Faults are
  injected through fixed sets of paths (`Faults`).  Of an OS error only
  whether its kind is `NotFound` is kept.
 */
module FileSystem {
  import opened Wrappers
  import opened FsPath

  datatype Entry = Dir | File | Link(target: Path)

  type Tree = map<Path, Entry>

  datatype ErrorKind = NotFound | Other

  /** `io::Result<()>`. */
  datatype IoResult = IoOk | IoErr(kind: ErrorKind)

  /** Symlinks followed before a lookup gives up with ELOOP (Linux's MAXSYMLINKS). */
  const MaxSymlinkFollows: nat := 40

  /** The entry `p` leads to once symlinks are followed, if any. */
  function Resolve(t: Tree, p: Path, fuel: nat): (r: Option<Entry>)
    ensures r.Some? ==> !r.value.Link?
    ensures p !in t ==> r.None?
    ensures p in t && !t[p].Link? ==> r == Some(t[p])
    decreases fuel
  {
    if p !in t then None
    else match t[p]
      case Link(q) => if fuel == 0 then None else Resolve(t, q, fuel - 1)
      case e => Some(e)
  }

  /** `Path::exists`: the path resolves to an entry; a missing or dangling path does not. */
  function Exists(t: Tree, p: Path): (b: bool)
    ensures b ==> p in t
    ensures p in t && !t[p].Link? ==> b
    ensures p in t && t[p].Link? && t[p].target !in t ==> !b
  {
    Resolve(t, p, MaxSymlinkFollows).Some?
  }

  /** `Path::is_dir`: the path resolves to a directory. */
  function IsDir(t: Tree, p: Path): (b: bool)
    ensures b ==> p in t
    ensures p in t && t[p] == Dir ==> b
    ensures p in t && t[p] == File ==> !b
    ensures p in t && t[p].Link? && t[p].target !in t ==> !b
  {
    Resolve(t, p, MaxSymlinkFollows) == Some(Dir)
  }

  /**
    Where the system calls fail.  Every call on an `unreachable` path fails
    before the path is looked up, whether or not an entry is there, as on a
    read-only mount or under a parent that is a file.  The lookups `Exists`
    and `IsDir` do not consult these sets.  Removing or creating an entry at an `unwritable`
    path fails, as under a parent directory the process cannot write to;
    creating an entry at a `noSpace` path fails too, as when the disk or the
    quota is full or the device reports an I/O error, while removing it
    still succeeds.
   */
  datatype Faults = Faults(unreachable: set<Path>, unwritable: set<Path>, noSpace: set<Path>)

  /** An entry can be created at `p`. */
  predicate Creatable(f: Faults, p: Path) {
    p !in f.unreachable && p !in f.unwritable && p !in f.noSpace
  }

  /** `std::fs::remove_file`: unlinks a file or symlink; a directory is refused. */
  function RemoveFileSpec(t: Tree, f: Faults, p: Path): (r: (IoResult, Tree))
    ensures r.0 == IoErr(NotFound) <==> p !in t && p !in f.unreachable
    ensures r.0 == IoOk <==> p in t && t[p] != Dir && p !in f.unreachable && p !in f.unwritable
    ensures p in f.unreachable ==> r.0 == IoErr(Other)
    ensures r.0 == IoOk ==> r.1 == t - {p}
    ensures r.0 != IoOk ==> r.1 == t
  {
    if p in f.unreachable then (IoErr(Other), t)
    else if p !in t then (IoErr(NotFound), t)
    else if t[p] == Dir || p in f.unwritable then (IoErr(Other), t)
    else (IoOk, t - {p})
  }

  /** `std::os::unix::fs::symlink(target, link)`: refuses to replace an existing entry. */
  function SymlinkSpec(t: Tree, f: Faults, target: Path, link: Path): (r: (IoResult, Tree))
    ensures r.0 == IoOk <==> link !in t && Creatable(f, link)
    ensures r.0 == IoOk ==> r.1 == t[link := Link(target)]
    ensures r.0 != IoOk ==> r.0 == IoErr(Other) && r.1 == t
  {
    if link in t || !Creatable(f, link) then (IoErr(Other), t)
    else (IoOk, t[link := Link(target)])
  }

  /** Every ancestor `p[..j]`, `k <= j <= |p|`, is a directory or can be created as one. */
  predicate DirsReady(t: Tree, f: Faults, p: Path, k: nat) {
    forall j | k <= j <= |p| ::
      (p[..j] in t ==> t[p[..j]] == Dir) && (p[..j] !in t ==> Creatable(f, p[..j]))
  }

  /**
    `std::fs::create_dir_all(p)` from the ancestor of length `k` on: each
    missing ancestor is created in turn; an ancestor that exists but is not a
    directory, or that cannot be created, stops the call and leaves the
    directories already made in place.
   */
  function MkdirFrom(t: Tree, f: Faults, p: Path, k: nat): (r: (IoResult, Tree))
    requires 1 <= k <= |p| + 1
    ensures forall key | key in t :: key in r.1 && r.1[key] == t[key]
    ensures forall key | key in r.1 && key !in t :: r.1[key] == Dir && IsPrefix(key, p) && Creatable(f, key)
    ensures r.0 == IoOk || r.0 == IoErr(Other)
    ensures r.0 == IoOk && k <= |p| ==> IsDir(r.1, p)
    decreases |p| + 1 - k
  {
    if k > |p| then (IoOk, t)
    else
      var q := p[..k];
      if q in t then
        if IsDir(t, q) then
          assert k == |p| ==> q == p;
          MkdirFrom(t, f, p, k + 1)
        else (IoErr(Other), t)
      else if !Creatable(f, q) then (IoErr(Other), t)
      else
        assert k == |p| ==> q == p;
        MkdirFrom(t[q := Dir], f, p, k + 1)
  }

  function CreateDirAllSpec(t: Tree, f: Faults, p: Path): (r: (IoResult, Tree))
    ensures forall key | key in t :: key in r.1 && r.1[key] == t[key]
    ensures forall key | key in r.1 && key !in t :: r.1[key] == Dir && IsPrefix(key, p) && Creatable(f, key)
    ensures r.0 == IoOk || r.0 == IoErr(Other)
    ensures r.0 == IoOk && p != [] ==> IsDir(r.1, p)
  {
    MkdirFrom(t, f, p, 1)
  }

  /** When every ancestor is a directory or creatable, creation succeeds and they all are directories. */
  lemma {:induction false} MkdirFromReady(t: Tree, f: Faults, p: Path, k: nat)
    requires 1 <= k <= |p| + 1
    requires DirsReady(t, f, p, k)
    ensures MkdirFrom(t, f, p, k).0 == IoOk
    ensures forall j | k <= j <= |p| :: p[..j] in MkdirFrom(t, f, p, k).1 && MkdirFrom(t, f, p, k).1[p[..j]] == Dir
    decreases |p| + 1 - k
  {
    if k <= |p| {
      var q := p[..k];
      if q in t {
        assert t[q] == Dir;
        assert IsDir(t, q);
        assert MkdirFrom(t, f, p, k) == MkdirFrom(t, f, p, k + 1);
        MkdirFromReady(t, f, p, k + 1);
      } else {
        var t' := t[q := Dir];
        assert Creatable(f, q);
        assert MkdirFrom(t, f, p, k) == MkdirFrom(t', f, p, k + 1);
        forall j | k + 1 <= j <= |p|
          ensures (p[..j] in t' ==> t'[p[..j]] == Dir) && (p[..j] !in t' ==> Creatable(f, p[..j]))
        {
          assert |p[..j]| != |q|;
        }
        MkdirFromReady(t', f, p, k + 1);
      }
    }
  }

  /**
    The part of the filesystem the root manager touches.  Each method stands
    for one system call; its effect on `tree` is the function of the same
    kind above with the suffix `Spec`.
   */
  class Disk {
    var tree: Tree
    const faults: Faults

    constructor (tree0: Tree, faults0: Faults)
      ensures tree == tree0 && faults == faults0
    {
      tree := tree0;
      faults := faults0;
    }

    method RemoveFile(p: Path) returns (r: IoResult)
      modifies this
      ensures (r, tree) == RemoveFileSpec(old(tree), faults, p)
    {
      var res := RemoveFileSpec(tree, faults, p);
      r, tree := res.0, res.1;
    }

    method Symlink(target: Path, link: Path) returns (r: IoResult)
      modifies this
      ensures (r, tree) == SymlinkSpec(old(tree), faults, target, link)
    {
      var res := SymlinkSpec(tree, faults, target, link);
      r, tree := res.0, res.1;
    }

    method CreateDirAll(p: Path) returns (r: IoResult)
      modifies this
      ensures (r, tree) == CreateDirAllSpec(old(tree), faults, p)
    {
      var res := CreateDirAllSpec(tree, faults, p);
      r, tree := res.0, res.1;
    }
  }
}
