/**
  Registration of a garbage-collection root for a project.  A root is two
  symlinks: the forward root `<gc_root_path>/shell_gc_root` points at a store
  path, and the reverse root
  `<state dir>/gcroots/per-user/<user>/<project_id>-shell_gc_root`, which the
  store's collector scans, points back at the forward root.
 */
module GcRoots {
  import opened Wrappers
  import opened FsPath
  import opened FileSystem

  /** File name of the forward root inside the project's root directory. */
  const ShellGcRootName: string := "shell_gc_root"

  /** The store's state directory when `NIX_STATE_DIR` is not set: `/nix/var/nix/`. */
  const DefaultStateDir: Path := ["nix", "var", "nix"]

  /** The message `create_roots` hands to `expect` when reading `USER`. */
  const MissingUserExpect: string := "env var 'USER' must be set"

  /**
    What the process panics with when `USER` is not set: `expect` appends
    the debug form of the error, `VarError::NotPresent`.
   */
  const MissingUserMessage: string := MissingUserExpect + ": NotPresent"

  /** A path that is, or is meant to be, a GC-root symlink. */
  datatype RootPath = RootPath(path: Path) {
    function Display(): (s: string)
      ensures |s| > 0 && s[0] == '/'
      ensures ValidPath(path) ==> forall q: Path | ValidPath(q) && FsPath.Display(q) == s :: q == path
    {
      forall q: Path | ValidPath(q) && ValidPath(path) && FsPath.Display(q) == FsPath.Display(path)
        ensures q == path
      {
        DisplayInjective(q, path);
      }
      FsPath.Display(path)
    }
  }

  /** A store path selected for protection. */
  datatype RootedPath = RootedPath(path: Path)

  /** The outputs of a build, one field: the shell root. */
  datatype OutputPath = OutputPath(shellGcRoot: RootPath) {
    /** Whether the root exists, following symlinks: a missing or dangling root gives false. */
    function AllExist(t: Tree): (b: bool)
      ensures b ==> shellGcRoot.path in t
      ensures shellGcRoot.path in t && !t[shellGcRoot.path].Link? ==> b
      ensures shellGcRoot.path in t && t[shellGcRoot.path].Link? && t[shellGcRoot.path].target !in t ==> !b
    {
      Exists(t, shellGcRoot.path)
    }
  }

  /** The operation an `AddRootError` reports, with the paths involved. */
  datatype Action = DeleteFailed(path: Path) | SymlinkFailed(src: Path, dest: Path) | CreateDirFailed(dir: Path)

  /**
    The message of an `AddRootError`.  A message about one path names it:
    no other valid path gives the same text.
   */
  function ActionText(a: Action): (s: string)
    ensures a.DeleteFailed? && ValidPath(a.path) ==>
      forall q: Path | ValidPath(q) && s == "Failed to delete " + FsPath.Display(q) :: q == a.path
    ensures a.CreateDirFailed? && ValidPath(a.dir) ==>
      forall q: Path | ValidPath(q) && s == "Failed to recursively create directory " + FsPath.Display(q) :: q == a.dir
  {
    match a
    case DeleteFailed(p) =>
      var s := "Failed to delete " + FsPath.Display(p);
      forall q: Path | ValidPath(q) && ValidPath(p) && s == "Failed to delete " + FsPath.Display(q)
        ensures q == p
      {
        MessageNamesPath("Failed to delete ", p, q);
      }
      s
    case SymlinkFailed(src, dest) => "Failed to symlink " + FsPath.Display(src) + " to " + FsPath.Display(dest)
    case CreateDirFailed(d) =>
      var s := "Failed to recursively create directory " + FsPath.Display(d);
      forall q: Path | ValidPath(q) && ValidPath(d) && s == "Failed to recursively create directory " + FsPath.Display(q)
        ensures q == d
      {
        MessageNamesPath("Failed to recursively create directory ", d, q);
      }
      s
  }

  /** Two valid paths shown after the same prefix give the same text only when they are equal. */
  lemma MessageNamesPath(prefix: string, p: Path, q: Path)
    requires ValidPath(p) && ValidPath(q)
    requires prefix + FsPath.Display(q) == prefix + FsPath.Display(p)
    ensures q == p
  {
    var n := |prefix|;
    assert FsPath.Display(q) == (prefix + FsPath.Display(q))[n..];
    assert FsPath.Display(p) == (prefix + FsPath.Display(p))[n..];
    DisplayInjective(q, p);
  }

  /** The underlying OS error (its kind) and what was being attempted. */
  datatype AddRootError = AddRootError(source: ErrorKind, msg: Action) {

    /** The handler for a failed removal: absence is not an error, anything else is. */
    static function Remove(source: ErrorKind, path: Path): (r: Result<(), AddRootError>)
      ensures r.Success? <==> source == NotFound
      ensures r.Failure? ==> r.error.source == source && ActionText(r.error.msg) == "Failed to delete " + FsPath.Display(path)
      ensures r.Failure? && ValidPath(path) ==>
        forall q: Path | ValidPath(q) && ActionText(r.error.msg) == "Failed to delete " + FsPath.Display(q) :: q == path
    {
      if source == NotFound then Success(())
      else Failure(AddRootError(source, DeleteFailed(path)))
    }

    /** The error for a failed symlink creation, naming both ends. */
    static function Symlink(source: ErrorKind, src: Path, dest: Path): (e: AddRootError)
      ensures e.source == source
      ensures ActionText(e.msg) == "Failed to symlink " + FsPath.Display(src) + " to " + FsPath.Display(dest)
    {
      AddRootError(source, SymlinkFailed(src, dest))
    }
  }

  /** The two environment variables the registration reads, as given to it. */
  datatype Env = Env(nixStateDir: Option<Path>, user: Option<string>)

  /** How a call of `create_roots` ends: it returns a result or the process panics. */
  datatype Outcome = Returned(result: Result<OutputPath, AddRootError>) | Panicked(message: string)

  /** The store's state directory: the `NIX_STATE_DIR` override, else `/nix/var/nix/`. */
  function StateDir(nixStateDir: Option<Path>): (d: Path)
    ensures nixStateDir.Some? ==> d == nixStateDir.value
    ensures nixStateDir.None? ==> d == DefaultStateDir && ValidPath(d)
  {
    if nixStateDir.Some? then nixStateDir.value else DefaultStateDir
  }

  /** `PathBuf::from("/nix/var/nix/")` is the default state directory: the trailing `/` adds no component. */
  lemma DefaultStateDirParsed()
    ensures Components("/nix/var/nix/") == DefaultStateDir
  {
    ComponentsOfThree("nix", "var", "nix");
    assert "/nix/var/nix/" == "/" + "nix" + "/" + "var" + "/" + "nix" + "/";
  }

  /** `<state dir>/gcroots/per-user/<user>`. */
  function UserRootDir(nixStateDir: Option<Path>, user: string): (dir: Path)
    ensures IsName(user) ==> dir == StateDir(nixStateDir) + ["gcroots", "per-user", user]
  {
    Push(StateDir(nixStateDir) + ["gcroots", "per-user"], user)
  }

  /** Pushing the three components one at a time, as `create_roots` does, gives the user's root directory. */
  lemma UserRootDirPushed(nixStateDir: Option<Path>, user: string)
    ensures Push(Push(Push(StateDir(nixStateDir), "gcroots"), "per-user"), user) == UserRootDir(nixStateDir, user)
  {
    PushTwoNames(StateDir(nixStateDir), "gcroots", "per-user");
  }

  /** The reverse root's path: the user's root directory and `<project_id>-shell_gc_root`. */
  function GlobalRoot(dir: Path, projectId: string): (g: Path)
    ensures '/' !in projectId ==> g == dir + [projectId + "-" + ShellGcRootName]
  {
    var name := projectId + "-" + ShellGcRootName;
    assert '/' !in projectId ==> name[0] != '/' && IsName(name) by {
      if '/' !in projectId {
        assert forall i | 0 <= i < |name| :: name[i] != '/' by {
          forall i | 0 <= i < |name| ensures name[i] != '/' {
            if i < |projectId| { assert name[i] == projectId[i]; }
            else { assert name[i] == ("-" + ShellGcRootName)[i - |projectId|]; }
          }
        }
      }
    }
    Push(dir, name)
  }

  /** The root manager of one project. */
  datatype Roots = Roots(gcRootPath: Path, projectId: string) {

    /** The forward root: `shell_gc_root` inside the project's root directory. */
    function ShellGcRoot(): (p: Path)
      ensures |p| == |gcRootPath| + 1 && p[..|gcRootPath|] == gcRootPath
      ensures ValidPath(gcRootPath) ==> ValidPath(p)
    {
      gcRootPath + [ShellGcRootName]
    }

    /** Joining `shell_gc_root` onto the project's root directory gives the forward root. */
    lemma ShellGcRootJoined()
      ensures Push(gcRootPath, ShellGcRootName) == ShellGcRoot()
    {
      assert IsName(ShellGcRootName);
    }

    /** The roots' paths, whether or not they exist yet. */
    function Paths(): (o: OutputPath)
      ensures o.shellGcRoot.path == gcRootPath + [ShellGcRootName]
    {
      OutputPath(RootPath(ShellGcRoot()))
    }

    /**
      `create_roots`: replace the forward root by a link to `path`, make
      sure the user's root directory exists, and replace the reverse root by
      a link to the forward root.  Every step that fails ends the call.
     */
    method CreateRoots(path: RootedPath, env: Env, disk: Disk) returns (out: Outcome)
      modifies disk
      ensures (out, disk.tree) == Register(this, path.path, env, old(disk.tree), disk.faults)
    {
      var storePath := path.path;
      var local := ShellGcRoot();
      ghost var site := SiteOf(this, env);
      var removed := disk.RemoveFile(local);
      if removed.IoErr? {
        var handled := AddRootError.Remove(removed.kind, local);
        if handled.Failure? {
          return Returned(Failure(handled.error));
        }
      }

      var linked := disk.Symlink(storePath, local);
      if linked.IoErr? {
        return Returned(Failure(AddRootError.Symlink(linked.kind, storePath, local)));
      }
      ghost var linkedTree := disk.tree;
      assert RegisterAt(local, storePath, site, old(disk.tree), disk.faults)
        == if site.None? then (Panicked(MissingUserMessage), linkedTree)
           else RegisterGlobal(local, site.value, linkedTree, disk.faults);

      var root := StateDir(env.nixStateDir);
      root := Push(root, "gcroots");
      root := Push(root, "per-user");
      if env.user.None? {
        return Panicked(MissingUserMessage);
      }
      root := Push(root, env.user.value);
      UserRootDirPushed(env.nixStateDir, env.user.value);
      assert site == Some(Site(root, GlobalRoot(root, projectId)));
      out := CreateGlobalRoot(local, root, disk);
    }

    /**
      The steps of `create_roots` once the forward root `local` is in place,
      for the user's root directory `root`.
     */
    method CreateGlobalRoot(local: Path, root: Path, disk: Disk) returns (out: Outcome)
      modifies disk
      ensures (out, disk.tree) == RegisterGlobal(local, Site(root, GlobalRoot(root, projectId)), old(disk.tree), disk.faults)
    {
      if !IsDir(disk.tree, root) {
        var made := disk.CreateDirAll(root);
        if made.IoErr? {
          return Returned(Failure(AddRootError(made.kind, CreateDirFailed(root))));
        }
      }

      var global := Push(root, projectId + "-" + ShellGcRootName);
      assert global == GlobalRoot(root, projectId);
      var removed := disk.RemoveFile(global);
      if removed.IoErr? {
        var handled := AddRootError.Remove(removed.kind, global);
        if handled.Failure? {
          return Returned(Failure(handled.error));
        }
      }

      var linked := disk.Symlink(local, global);
      if linked.IoErr? {
        return Returned(Failure(AddRootError.Symlink(linked.kind, local, global)));
      }

      return Returned(Success(OutputPath(RootPath(local))));
    }
  }

  /** Where the reverse root goes: the user's root directory and the link inside it. */
  datatype Site = Site(dir: Path, global: Path)

  /** The reverse root's site, known once `USER` has been read. */
  function SiteOf(roots: Roots, env: Env): (s: Option<Site>)
    ensures s.Some? <==> env.user.Some?
    ensures s.Some? ==> s.value.dir == UserRootDir(env.nixStateDir, env.user.value)
    ensures s.Some? && '/' !in roots.projectId ==>
      && s.value.global == s.value.dir + [roots.projectId + "-" + ShellGcRootName]
      && s.value.global != roots.ShellGcRoot()
  {
    if env.user.None? then None
    else
      var dir := UserRootDir(env.nixStateDir, env.user.value);
      var global := GlobalRoot(dir, roots.projectId);
      var local := roots.ShellGcRoot();
      assert '/' !in roots.projectId ==> global[|global| - 1] != local[|local| - 1] by {
        if '/' !in roots.projectId {
          assert |global[|global| - 1]| != |local[|local| - 1]|;
        }
      }
      Some(Site(dir, global))
  }

  /**
    What `create_roots` does to the filesystem `t` and what it returns, for
    the store path `store`.
   */
  function Register(roots: Roots, store: Path, env: Env, t: Tree, faults: Faults): (r: (Outcome, Tree))
    ensures r.0.Returned? && r.0.result.Success? ==> r.0.result.value == roots.Paths() && env.user.Some?
    ensures r.0.Panicked? ==> env.user.None? && r.0.message == MissingUserMessage
  {
    RegisterAt(roots.ShellGcRoot(), store, SiteOf(roots, env), t, faults)
  }

  /**
    `create_roots` over the paths it touches: the forward root `local`, and
    the reverse root's site when `USER` is set.
   */
  function RegisterAt(local: Path, store: Path, site: Option<Site>, t: Tree, faults: Faults): (r: (Outcome, Tree))
    ensures r.0.Returned? && r.0.result.Success? ==> r.0.result.value == OutputPath(RootPath(local)) && site.Some?
    ensures r.0.Panicked? ==> site.None? && r.0.message == MissingUserMessage
  {
    var (removed, t1) := RemoveFileSpec(t, faults, local);
    var handled := if removed.IoErr? then AddRootError.Remove(removed.kind, local) else Success(());
    if handled.Failure? then (Returned(Failure(handled.error)), t1)
    else
      var (linked, t2) := SymlinkSpec(t1, faults, store, local);
      if linked.IoErr? then (Returned(Failure(AddRootError.Symlink(linked.kind, store, local))), t2)
      else if site.None? then (Panicked(MissingUserMessage), t2)
      else RegisterGlobal(local, site.value, t2, faults)
  }

  /** The steps after the forward root `local` is in place. */
  function RegisterGlobal(local: Path, site: Site, t: Tree, faults: Faults): (r: (Outcome, Tree))
    ensures r.0.Returned?
    ensures r.0.result.Success? ==> r.0.result.value == OutputPath(RootPath(local))
  {
    var (made, t3) := if IsDir(t, site.dir) then (IoOk, t) else CreateDirAllSpec(t, faults, site.dir);
    if made.IoErr? then (Returned(Failure(AddRootError(made.kind, CreateDirFailed(site.dir)))), t3)
    else
      var (removed, t4) := RemoveFileSpec(t3, faults, site.global);
      var handled := if removed.IoErr? then AddRootError.Remove(removed.kind, site.global) else Success(());
      if handled.Failure? then (Returned(Failure(handled.error)), t4)
      else
        var (linked, t5) := SymlinkSpec(t4, faults, local, site.global);
        if linked.IoErr? then (Returned(Failure(AddRootError.Symlink(linked.kind, local, site.global))), t5)
        else (Returned(Success(OutputPath(RootPath(local)))), t5)
  }
}
