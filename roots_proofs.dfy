/**
  What `create_roots` guarantees about the filesystem, proved of its
  specification `Register`: where the two links end up, that nothing else
  changes, that a failing step ends the call, and that registering again
  converges instead of accumulating entries.

  The work is done on `RegisterAt`, over the paths a call touches; the
  lemmas about `Register` put in the paths a project and its environment
  give.
 */
module GcRootsProofs {
  import opened Wrappers
  import opened FsPath
  import opened FileSystem
  import opened GcRoots

  /** The forward or reverse root can be replaced: it is not a directory and its parent is writable. */
  predicate Replaceable(t: Tree, faults: Faults, p: Path) {
    Creatable(faults, p) && (p in t ==> t[p] != Dir)
  }

  /** The layout of a site: the reverse root lies directly inside the user's root directory, apart from the forward root. */
  predicate Apart(local: Path, s: Site) {
    && |s.dir| >= 1
    && |s.global| == |s.dir| + 1 && s.global[..|s.dir|] == s.dir
    && local != s.global
    && !IsPrefix(local, s.dir)
  }

  /**
    A state from which registration goes through: both roots are
    replaceable and every directory on the way to the user's root directory
    exists or can be created.
   */
  predicate ReadyAt(local: Path, s: Site, t: Tree, faults: Faults) {
    && Apart(local, s)
    && Replaceable(t, faults, local)
    && Replaceable(t, faults, s.global)
    && DirsReady(t, faults, s.dir, 1)
  }

  lemma ConvergenceAt(local: Path, store: Path, site: Option<Site>, t: Tree, faults: Faults)
    requires site.Some? ==> local != site.value.global
    ensures var (out, t') := RegisterAt(local, store, site, t, faults);
      out.Returned? && out.result.Success? ==>
        && site.Some?
        && local in t' && t'[local] == Link(store)
        && site.value.global in t' && t'[site.value.global] == Link(local)
  {
  }

  /** `u` agrees with `t` except at the two roots and at new directories on the way to the site's directory. */
  ghost predicate Keeps(t: Tree, u: Tree, local: Path, s: Site) {
    && (forall k | k in t && k != local && k != s.global :: k in u && u[k] == t[k])
    && (forall k | k in u && k !in t && k != local && k != s.global :: u[k] == Dir && IsPrefix(k, s.dir))
  }

  lemma KeepsTrans(a: Tree, b: Tree, c: Tree, local: Path, s: Site)
    requires Keeps(a, b, local, s) && Keeps(b, c, local, s)
    ensures Keeps(a, c, local, s)
  {
  }

  lemma KeepsRemove(t: Tree, faults: Faults, p: Path, local: Path, s: Site)
    requires p == local || p == s.global
    ensures Keeps(t, RemoveFileSpec(t, faults, p).1, local, s)
  {
  }

  lemma KeepsSymlink(t: Tree, faults: Faults, target: Path, p: Path, local: Path, s: Site)
    requires p == local || p == s.global
    ensures Keeps(t, SymlinkSpec(t, faults, target, p).1, local, s)
  {
  }

  lemma KeepsMkdir(t: Tree, faults: Faults, local: Path, s: Site)
    ensures Keeps(t, CreateDirAllSpec(t, faults, s.dir).1, local, s)
  {
  }

  lemma FrameGlobalAt(local: Path, s: Site, t: Tree, faults: Faults)
    ensures Keeps(t, RegisterGlobal(local, s, t, faults).1, local, s)
  {
    var t3 := if IsDir(t, s.dir) then t else CreateDirAllSpec(t, faults, s.dir).1;
    KeepsMkdir(t, faults, local, s);
    var t4 := RemoveFileSpec(t3, faults, s.global).1;
    KeepsRemove(t3, faults, s.global, local, s);
    KeepsTrans(t, t3, t4, local, s);
    var t5 := SymlinkSpec(t4, faults, local, s.global).1;
    KeepsSymlink(t4, faults, local, s.global, local, s);
    KeepsTrans(t, t4, t5, local, s);
    assert RegisterGlobal(local, s, t, faults).1 in {t3, t4, t5};
  }

  lemma FrameAt(local: Path, store: Path, s: Site, t: Tree, faults: Faults)
    ensures Keeps(t, RegisterAt(local, store, Some(s), t, faults).1, local, s)
  {
    var t1 := RemoveFileSpec(t, faults, local).1;
    KeepsRemove(t, faults, local, local, s);
    var t2 := SymlinkSpec(t1, faults, store, local).1;
    KeepsSymlink(t1, faults, store, local, local, s);
    KeepsTrans(t, t1, t2, local, s);
    var t5 := RegisterGlobal(local, s, t2, faults).1;
    FrameGlobalAt(local, s, t2, faults);
    KeepsTrans(t, t2, t5, local, s);
    assert RegisterAt(local, store, Some(s), t, faults).1 in {t1, t2, t5};
  }

  lemma {:induction false} ReadySucceedsAt(local: Path, store: Path, s: Site, t: Tree, faults: Faults)
    requires ReadyAt(local, s, t, faults)
    ensures var (out, t') := RegisterAt(local, store, Some(s), t, faults);
      && out == Returned(Success(OutputPath(RootPath(local))))
      && local in t' && t'[local] == Link(store)
      && s.global in t' && t'[s.global] == Link(local)
      && s.dir in t' && t'[s.dir] == Dir
      && ReadyAt(local, s, t', faults)
  {
    var dir, global := s.dir, s.global;
    var t2 := t[local := Link(store)];
    assert (t - {local})[local := Link(store)] == t2;
    forall j | 1 <= j <= |dir|
      ensures (dir[..j] in t2 ==> t2[dir[..j]] == Dir) && (dir[..j] !in t2 ==> Creatable(faults, dir[..j]))
    {
      assert dir[..j] != local by {
        if dir[..j] == local { assert false; }
      }
    }
    assert dir[..|dir|] == dir;
    var t3 := if IsDir(t2, dir) then t2 else CreateDirAllSpec(t2, faults, dir).1;
    if !IsDir(t2, dir) {
      MkdirFromReady(t2, faults, dir, 1);
    }
    assert dir in t3 && t3[dir] == Dir;
    assert global in t3 ==> global in t2 by {
      if global in t3 && global !in t2 {
        assert false;
      }
    }
    var t' := RegisterAt(local, store, Some(s), t, faults).1;
    assert t' == (t3 - {global})[global := Link(local)];
    forall j | 1 <= j <= |dir|
      ensures (dir[..j] in t' ==> t'[dir[..j]] == Dir) && (dir[..j] !in t' ==> Creatable(faults, dir[..j]))
    {
      assert |dir[..j]| != |global|;
    }
  }

  lemma ReregisterAt(local: Path, store: Path, s: Site, t: Tree, faults: Faults)
    requires ReadyAt(local, s, t, faults)
    requires local in t && t[local].Link?
    requires s.global in t && t[s.global] == Link(local)
    requires s.dir in t && t[s.dir] == Dir
    ensures RegisterAt(local, store, Some(s), t, faults)
      == (Returned(Success(OutputPath(RootPath(local)))), t[local := Link(store)])
  {
    var t2 := t[local := Link(store)];
    assert (t - {local})[local := Link(store)] == t2;
    assert s.dir[..|s.dir|] == s.dir;
    assert IsDir(t2, s.dir);
    assert (t2 - {s.global})[s.global := Link(local)] == t2;
  }

  // ---------------------------------------------------------------------
  // The same facts for a project's own paths.

  lemma SuffixSpelled()
    ensures "-" + ShellGcRootName == "-shell_gc_root"
  {
    forall i | 0 <= i < 14 ensures ("-" + ShellGcRootName)[i] == "-shell_gc_root"[i] {}
  }

  /**
    The reverse root's name depends on the project id alone, under the
    overriding state directory or `/nix/var/nix/`.
   */
  lemma GlobalRootNaming(roots: Roots, env: Env)
    requires env.user.Some? && IsName(env.user.value)
    requires '/' !in roots.projectId
    ensures SiteOf(roots, env).value.global ==
      (if env.nixStateDir.Some? then env.nixStateDir.value else ["nix", "var", "nix"])
      + ["gcroots", "per-user", env.user.value, roots.projectId + "-shell_gc_root"]
  {
    var dir := SiteOf(roots, env).value.dir;
    assert dir == StateDir(env.nixStateDir) + ["gcroots", "per-user", env.user.value];
    assert GlobalRoot(dir, roots.projectId) == dir + [roots.projectId + "-" + ShellGcRootName];
    SuffixSpelled();
    assert roots.projectId + "-" + ShellGcRootName == roots.projectId + ("-" + ShellGcRootName);
    assert StateDir(env.nixStateDir) == if env.nixStateDir.Some? then env.nixStateDir.value else ["nix", "var", "nix"];
  }

  /**
    After a successful registration the forward root links to the store
    path and the reverse root links to the forward root, whatever was there
    before.
   */
  lemma Convergence(roots: Roots, store: Path, env: Env, t: Tree, faults: Faults)
    requires '/' !in roots.projectId
    ensures var (out, t') := Register(roots, store, env, t, faults);
      out.Returned? && out.result.Success? ==>
        && env.user.Some?
        && roots.ShellGcRoot() in t' && t'[roots.ShellGcRoot()] == Link(store)
        && SiteOf(roots, env).value.global in t' && t'[SiteOf(roots, env).value.global] == Link(roots.ShellGcRoot())
  {
    ConvergenceAt(roots.ShellGcRoot(), store, SiteOf(roots, env), t, faults);
  }

  /**
    Whatever the outcome, every entry other than the two roots keeps its
    value, and the only entries added besides the roots are directories on
    the way to the user's root directory.
   */
  lemma Frame(roots: Roots, store: Path, env: Env, t: Tree, faults: Faults)
    requires env.user.Some?
    ensures var (out, t') := Register(roots, store, env, t, faults);
      var local, global := roots.ShellGcRoot(), SiteOf(roots, env).value.global;
      && (forall k | k in t && k != local && k != global :: k in t' && t'[k] == t[k])
      && (forall k | k in t' && k !in t && k != local && k != global :: t'[k] == Dir && IsPrefix(k, SiteOf(roots, env).value.dir))
  {
    FrameAt(roots.ShellGcRoot(), store, SiteOf(roots, env).value, t, faults);
  }

  // ---------------------------------------------------------------------
  // Failing steps.

  /**
    Which failure ends the call tells how far it got: a failed step leaves
    every later one undone.  A failed link of the forward root still leaves
    the removal before it done.
   */
  lemma FailedStepStopsAt(local: Path, store: Path, site: Option<Site>, t: Tree, faults: Faults)
    requires site.Some? ==> local != site.value.global && |site.value.global| > |site.value.dir|
    ensures var (out, t') := RegisterAt(local, store, site, t, faults);
      && (out == Returned(Failure(AddRootError(Other, DeleteFailed(local)))) ==> t' == t)
      && (out == Returned(Failure(AddRootError(Other, SymlinkFailed(store, local)))) ==> t' == t - {local})
      && (site.Some? && out == Returned(Failure(AddRootError(Other, CreateDirFailed(site.value.dir)))) ==>
            && local in t' && t'[local] == Link(store)
            && (site.value.global in t' <==> site.value.global in t)
            && (site.value.global in t ==> t'[site.value.global] == t[site.value.global]))
  {
    var (out, t') := RegisterAt(local, store, site, t, faults);
    var (removed, t1) := RemoveFileSpec(t, faults, local);
    if removed == IoErr(Other) {
      assert t' == t;
    } else {
      var (linked, t2) := SymlinkSpec(t1, faults, store, local);
      if linked.IoErr? {
        assert t' == t1 == t - {local};
      } else if site.Some? {
        var s := site.value;
        assert t2 == t1[local := Link(store)];
        var (made, t3) := if IsDir(t2, s.dir) then (IoOk, t2) else CreateDirAllSpec(t2, faults, s.dir);
        if made.IoErr? {
          assert t' == t3;
          assert s.global in t3 ==> s.global in t2 by {
            if s.global in t3 && s.global !in t2 {
              assert false;
            }
          }
        } else {
          assert out.Returned? ==> out.result.Success? || out.result.error.msg != CreateDirFailed(s.dir);
        }
      }
    }
  }

  /**
    A failure to remove the forward root ends the call before anything is
    written; a failure to link it ends the call with only the old forward
    root removed, before the user's directory or the reverse root is
    touched; a failure to create the user's directory leaves the reverse
    root as it was.
   */
  lemma FailedStepStopsLaterSteps(roots: Roots, store: Path, env: Env, t: Tree, faults: Faults)
    requires '/' !in roots.projectId
    ensures var (out, t') := Register(roots, store, env, t, faults);
      var local := roots.ShellGcRoot();
      && (out == Returned(Failure(AddRootError(Other, DeleteFailed(local)))) ==> t' == t)
      && (out == Returned(Failure(AddRootError(Other, SymlinkFailed(store, local)))) ==> t' == t - {local})
      && (env.user.Some? && out == Returned(Failure(AddRootError(Other, CreateDirFailed(SiteOf(roots, env).value.dir)))) ==>
            && local in t' && t'[local] == Link(store)
            && (SiteOf(roots, env).value.global in t' <==> SiteOf(roots, env).value.global in t)
            && (SiteOf(roots, env).value.global in t ==> t'[SiteOf(roots, env).value.global] == t[SiteOf(roots, env).value.global]))
  {
    FailedStepStopsAt(roots.ShellGcRoot(), store, SiteOf(roots, env), t, faults);
  }

  /**
    A forward root that cannot be reached fails the call as a failed
    deletion, whether or not it exists, with nothing changed.
   */
  lemma UnreachableForwardRootFailsDelete(roots: Roots, store: Path, env: Env, t: Tree, faults: Faults)
    requires roots.ShellGcRoot() in faults.unreachable
    ensures Register(roots, store, env, t, faults)
      == (Returned(Failure(AddRootError(Other, DeleteFailed(roots.ShellGcRoot())))), t)
  {
  }

  /** A forward root that is a directory, or cannot be removed, fails the call with nothing changed. */
  lemma RemoveLocalFailureStops(roots: Roots, store: Path, env: Env, t: Tree, faults: Faults)
    requires roots.ShellGcRoot() in t
    requires t[roots.ShellGcRoot()] == Dir || roots.ShellGcRoot() in faults.unwritable
    ensures Register(roots, store, env, t, faults)
      == (Returned(Failure(AddRootError(Other, DeleteFailed(roots.ShellGcRoot())))), t)
  {
  }

  /**
    When the old forward root is removed but the new link cannot be
    created, the call fails naming both ends, and the project is left with
    no forward root at all.
   */
  lemma LinkFailureAfterRemovalLosesForwardRoot(roots: Roots, store: Path, env: Env, t: Tree, faults: Faults)
    requires roots.ShellGcRoot() in t && t[roots.ShellGcRoot()] != Dir
    requires roots.ShellGcRoot() !in faults.unreachable && roots.ShellGcRoot() !in faults.unwritable
    requires roots.ShellGcRoot() in faults.noSpace
    ensures Register(roots, store, env, t, faults)
      == (Returned(Failure(AddRootError(Other, SymlinkFailed(store, roots.ShellGcRoot())))), t - {roots.ShellGcRoot()})
  {
  }

  /**
    A forward root that is absent but cannot be created fails the call
    with nothing changed, naming the store path and the forward root.
   */
  lemma SymlinkLocalFailureStops(roots: Roots, store: Path, env: Env, t: Tree, faults: Faults)
    requires roots.ShellGcRoot() !in t && roots.ShellGcRoot() !in faults.unreachable
    requires !Creatable(faults, roots.ShellGcRoot())
    ensures Register(roots, store, env, t, faults)
      == (Returned(Failure(AddRootError(Other, SymlinkFailed(store, roots.ShellGcRoot())))), t)
  {
  }

  lemma MissingUserAt(local: Path, store: Path, t: Tree, faults: Faults)
    requires Replaceable(t, faults, local)
    ensures RegisterAt(local, store, None, t, faults) == (Panicked(MissingUserMessage), t[local := Link(store)])
  {
    assert (t - {local})[local := Link(store)] == t[local := Link(store)];
  }

  /**
    Without `USER` the process panics, but only after the forward root has
    been replaced by the link to the store path.
   */
  lemma MissingUserPanicsAfterForwardLink(roots: Roots, store: Path, env: Env, t: Tree, faults: Faults)
    requires env.user.None?
    requires Replaceable(t, faults, roots.ShellGcRoot())
    ensures Register(roots, store, env, t, faults)
      == (Panicked(MissingUserMessage), t[roots.ShellGcRoot() := Link(store)])
  {
    assert SiteOf(roots, env) == None;
    MissingUserAt(roots.ShellGcRoot(), store, t, faults);
  }

  // ---------------------------------------------------------------------
  // Success, idempotence and re-targeting.

  /** A state from which a project's registration goes through. */
  predicate Ready(roots: Roots, env: Env, t: Tree, faults: Faults) {
    env.user.Some? && ReadyAt(roots.ShellGcRoot(), SiteOf(roots, env).value, t, faults)
  }

  /**
    From a ready state registration succeeds, returns the project's paths,
    leaves both links and the user's directory in place, and leaves a
    state that is ready again.
   */
  lemma ReadySucceeds(roots: Roots, store: Path, env: Env, t: Tree, faults: Faults)
    requires Ready(roots, env, t, faults)
    ensures var (out, t') := Register(roots, store, env, t, faults);
      && out == Returned(Success(roots.Paths()))
      && roots.ShellGcRoot() in t' && t'[roots.ShellGcRoot()] == Link(store)
      && SiteOf(roots, env).value.global in t' && t'[SiteOf(roots, env).value.global] == Link(roots.ShellGcRoot())
      && SiteOf(roots, env).value.dir in t' && t'[SiteOf(roots, env).value.dir] == Dir
      && Ready(roots, env, t', faults)
  {
    var local, s := roots.ShellGcRoot(), SiteOf(roots, env).value;
    assert Register(roots, store, env, t, faults) == RegisterAt(local, store, Some(s), t, faults);
    ReadySucceedsAt(local, store, s, t, faults);
    assert SiteOf(roots, env).value.global == s.global && SiteOf(roots, env).value.dir == s.dir;
  }

  lemma IdempotentAt(local: Path, store: Path, s: Site, t: Tree, faults: Faults)
    requires ReadyAt(local, s, t, faults)
    ensures var r := RegisterAt(local, store, Some(s), t, faults);
      RegisterAt(local, store, Some(s), r.1, faults) == r
  {
    ReadySucceedsAt(local, store, s, t, faults);
    var t1 := RegisterAt(local, store, Some(s), t, faults).1;
    ReregisterAt(local, store, s, t1, faults);
    assert t1[local := Link(store)] == t1;
  }

  /** Registering the same store path twice returns the same value and leaves the same filesystem. */
  lemma Idempotent(roots: Roots, store: Path, env: Env, t: Tree, faults: Faults)
    requires Ready(roots, env, t, faults)
    ensures var (out1, t1) := Register(roots, store, env, t, faults);
      var (out2, t2) := Register(roots, store, env, t1, faults);
      out2 == out1 && t2 == t1
  {
    var local, s := roots.ShellGcRoot(), SiteOf(roots, env).value;
    IdempotentAt(local, store, s, t, faults);
    var t1 := RegisterAt(local, store, Some(s), t, faults).1;
    assert Register(roots, store, env, t, faults) == RegisterAt(local, store, Some(s), t, faults);
    assert Register(roots, store, env, t1, faults) == RegisterAt(local, store, Some(s), t1, faults);
  }

  lemma RetargetAt(local: Path, store1: Path, store2: Path, s: Site, t: Tree, faults: Faults)
    requires ReadyAt(local, s, t, faults)
    ensures var t1 := RegisterAt(local, store1, Some(s), t, faults).1;
      var (out2, t2) := RegisterAt(local, store2, Some(s), t1, faults);
      && out2 == Returned(Success(OutputPath(RootPath(local))))
      && t2 == t1[local := Link(store2)]
      && t2.Keys == t1.Keys
      && s.global in t2 && t2[s.global] == Link(local)
  {
    ReadySucceedsAt(local, store1, s, t, faults);
    var t1 := RegisterAt(local, store1, Some(s), t, faults).1;
    ReregisterAt(local, store2, s, t1, faults);
  }

  /**
    Registering a second store path moves the forward root to it and adds
    no entry: the project still has exactly the one reverse root, linked to
    the forward root.
   */
  lemma RetargetKeepsOneGlobalEntry(roots: Roots, store1: Path, store2: Path, env: Env, t: Tree, faults: Faults)
    requires Ready(roots, env, t, faults)
    ensures var (_, t1) := Register(roots, store1, env, t, faults);
      var (out2, t2) := Register(roots, store2, env, t1, faults);
      && out2 == Returned(Success(roots.Paths()))
      && t2 == t1[roots.ShellGcRoot() := Link(store2)]
      && t2.Keys == t1.Keys
      && SiteOf(roots, env).value.global in t2 && t2[SiteOf(roots, env).value.global] == Link(roots.ShellGcRoot())
  {
    var local, s := roots.ShellGcRoot(), SiteOf(roots, env).value;
    RetargetAt(local, store1, store2, s, t, faults);
    var t1 := RegisterAt(local, store1, Some(s), t, faults).1;
    assert Register(roots, store1, env, t, faults) == RegisterAt(local, store1, Some(s), t, faults);
    assert Register(roots, store2, env, t1, faults) == RegisterAt(local, store2, Some(s), t1, faults);
    assert SiteOf(roots, env).value.global == s.global;
  }

  lemma ExistingDirNotCreatedAt(local: Path, store: Path, s: Site, t: Tree, faults: Faults)
    requires s.dir in t && t[s.dir] == Dir
    ensures RegisterAt(local, store, Some(s), t, faults).1.Keys <= t.Keys + {local, s.global}
  {
    if s.dir == local {
      // The directory at the forward root cannot be removed: nothing changes.
      assert RemoveFileSpec(t, faults, local).0 != IoOk;
      assert RegisterAt(local, store, Some(s), t, faults).1 == t;
    } else {
      var t1 := RemoveFileSpec(t, faults, local).1;
      var t2 := SymlinkSpec(t1, faults, store, local).1;
      assert s.dir in t2 && t2[s.dir] == Dir;
      assert IsDir(t2, s.dir);
    }
  }

  /**
    When the user's directory is already a directory, no directory is
    created: the only keys a call can add are the two roots.
   */
  lemma ExistingUserDirNotCreated(roots: Roots, store: Path, env: Env, t: Tree, faults: Faults)
    requires env.user.Some?
    requires SiteOf(roots, env).value.dir in t && t[SiteOf(roots, env).value.dir] == Dir
    ensures Register(roots, store, env, t, faults).1.Keys <= t.Keys + {roots.ShellGcRoot(), SiteOf(roots, env).value.global}
  {
    var local, s := roots.ShellGcRoot(), SiteOf(roots, env).value;
    ExistingDirNotCreatedAt(local, store, s, t, faults);
    assert Register(roots, store, env, t, faults) == RegisterAt(local, store, Some(s), t, faults);
    assert SiteOf(roots, env).value.global == s.global && SiteOf(roots, env).value.dir == s.dir;
  }

  // ---------------------------------------------------------------------
  // Existence of the root.

  /** After a registration from a ready state the root exists when its store path is a file or directory. */
  lemma RootExistsAfterRegistration(roots: Roots, store: Path, env: Env, t: Tree, faults: Faults)
    requires Ready(roots, env, t, faults)
    requires store in t && !t[store].Link?
    requires store != roots.ShellGcRoot() && store != SiteOf(roots, env).value.global
    ensures var (out, t') := Register(roots, store, env, t, faults);
      out.Returned? && out.result.Success? && out.result.value.AllExist(t')
  {
    var local, s := roots.ShellGcRoot(), SiteOf(roots, env).value;
    ReadySucceedsAt(local, store, s, t, faults);
    FrameAt(local, store, s, t, faults);
    var t' := RegisterAt(local, store, Some(s), t, faults).1;
    assert t'[store] == t[store];
    assert Resolve(t', local, MaxSymlinkFollows) == Resolve(t', store, MaxSymlinkFollows - 1);
  }

  /** Once the store path is gone the root dangles and no longer exists. */
  lemma RootDanglesOnceTargetDeleted(roots: Roots, store: Path, env: Env, t: Tree, faults: Faults)
    requires Ready(roots, env, t, faults)
    requires store != roots.ShellGcRoot()
    ensures var (out, t') := Register(roots, store, env, t, faults);
      out.Returned? && out.result.Success? && !out.result.value.AllExist(t' - {store})
  {
    ReadySucceedsAt(roots.ShellGcRoot(), store, SiteOf(roots, env).value, t, faults);
  }
}
