# lorri GC roots, modelled in Dafny

lorri keeps the build environment of each project alive across
`nix-collect-garbage` by registering a pair of garbage-collection roots. The
forward root `<gc_root_path>/shell_gc_root` is a symlink to the store path
that was built. The reverse root
`<state dir>/gcroots/per-user/<user>/<project_id>-shell_gc_root` is a symlink
to the forward root. The store's collector scans that directory. The state
directory is `NIX_STATE_DIR` when it is set and `/nix/var/nix/` otherwise.
`Roots::create_roots` writes both links. Each write first removes what is
there; a removal that fails because nothing is there is not an error. The
user's root directory is created when it is not already a directory. Any
other failure ends the call with an `AddRootError`. `all_exist` reports
whether the forward root still resolves.

The project has five modules:

- `Wrappers`: `Option` and `Result`.
- `FsPath`: paths as sequences of components.
  - `PathBuf::push` becomes `Push`. An absolute argument replaces the path. Any other argument is split on `/`, and its empty and `.` pieces are dropped.
  - `Path::display` becomes `Display`.
  - `Display` is injective on paths. The proof goes through a split/join round trip.
- `FileSystem`: the filesystem as a map from paths to entries: a directory, a file or a symlink.
  - Each system call the root manager makes is a pure function (`RemoveFileSpec`, `SymlinkSpec`, `CreateDirAllSpec`). `Exists` and `IsDir` are the lookups.
  - The class `Disk` holds the map as a mutable field. Its methods perform those calls in place.
  - Faults come from three fixed sets of paths (`Faults`). At an `unreachable` path every call fails before the lookup, even when nothing is there, as on a read-only mount or under a parent that is a file. At an `unwritable` path both removing and creating an entry fail, as under a parent directory the process cannot write to. At a `noSpace` path only creating an entry fails, as when the disk or quota is full or the device reports an I/O error. So a removal can succeed and the link that follows it can still fail.
  - Symlinks are followed at most 40 times, as on Linux. After that, a lookup gives up.
- `GcRoots`: `Roots`, `RootPath`, `OutputPath` and `AddRootError`.
  - The imperative `Roots.CreateRoots` works on a `Disk` step by step, as the Rust code does. It builds the reverse root's path with `Push` one component at a time.
  - `CreateRoots` is proved equal to the pure specification `Register`. `Register` gives the outcome and the final filesystem for any initial filesystem, environment and fault set.
- `GcRootsProofs`: lemmas about `Register`. They cover:
  - where the links end up (convergence);
  - what else may change (the frame);
  - that a failing step stops the later ones;
  - a sufficient condition for success;
  - idempotence and re-targeting;
  - the naming of the reverse root;
  - `all_exist` after registration.

  Each lemma is proved over the bare paths a call touches (`RegisterAt`, `RegisterGlobal`). It is then stated for a project's own paths.

`NIX_STATE_DIR` and `USER` are not read from the process environment. They are passed in as an `Env` value. A missing `USER` makes the Rust code panic through `expect`. The model returns the outcome `Panicked` with the text that panic carries: the `expect` argument, then `: NotPresent`, the debug form of the `env::var` error.

The panic does not come before the filesystem changes. `USER` is read at src/project/roots.rs:100, after the forward link has been removed and rewritten at src/project/roots.rs:78-88. The comment `// TODO: check on start of lorri` at src/project/roots.rs:99 marks that read as one to move. `MissingUserPanicsAfterForwardLink` proves that the forward link is already written when the panic occurs.

## Model

| member | source | states |
|---|---|---|
| `FsPath.Push` | src/project/roots.rs:96-100 | pushing a plain file name appends it as one component; pushing an absolute path replaces the path; validity of the path is kept |
| `FsPath.Display` | src/project/roots.rs:25-30 | a displayed path is non-empty and starts with `/` |
| `FsPath.SplitJoin` | src/project/roots.rs:25-30 | splitting the displayed components on `/` gives them back (round trip) |
| `FsPath.DisplayInjective` | src/project/roots.rs:145-148 | two valid paths with the same display are the same path, so a message that shows a path identifies it |
| `FsPath.Components` | src/project/roots.rs:96-100 | a string pushed onto a path becomes valid components: a single file name becomes exactly one component |
| `FsPath.ComponentsOfThree` | src/project/roots.rs:91-95 | a directory string of three names with a trailing `/` parses to exactly those three components |
| `FileSystem.Resolve` | src/project/roots.rs:37 | following links from a missing path finds nothing; from a file or directory finds that entry; never ends on a link |
| `FileSystem.Exists` | src/project/roots.rs:37 | `exists` holds only for a present path; it holds for a file or directory and fails for a link whose target is missing |
| `FileSystem.IsDir` | src/project/roots.rs:104 | `is_dir` holds only for a present path; it holds for a directory, fails for a file and fails for a dangling link |
| `FileSystem.RemoveFileSpec` | src/project/roots.rs:78 | removal of a reachable path reports NotFound exactly when the path is absent; removal of an unreachable path fails with another error even when it is absent; removal succeeds exactly on a non-directory at a reachable, writable path and then removes only that key; on failure nothing changes |
| `FileSystem.SymlinkSpec` | src/project/roots.rs:82 | creating a link succeeds exactly when the path is absent and creatable (not unreachable, not unwritable, not out of space), and then adds only that link; on failure nothing changes |
| `FileSystem.MkdirFrom` | src/project/roots.rs:105 | recursive creation keeps every existing entry, adds only creatable ancestor directories of the target, fails only with a non-NotFound error, and on success leaves the target a directory |
| `FileSystem.CreateDirAllSpec` | src/project/roots.rs:105 | `create_dir_all` keeps existing entries, adds only creatable ancestor directories of its target, and on success leaves the target a directory |
| `FileSystem.MkdirFromReady` | src/project/roots.rs:104-109 | when every ancestor is a directory or creatable, recursive creation succeeds and leaves every ancestor a directory |
| `FileSystem.Disk.RemoveFile` | src/project/roots.rs:78 | the in-place removal has the effect and result of `RemoveFileSpec` |
| `FileSystem.Disk.Symlink` | src/project/roots.rs:82 | the in-place link creation has the effect and result of `SymlinkSpec` |
| `FileSystem.Disk.CreateDirAll` | src/project/roots.rs:105 | the in-place directory creation has the effect and result of `CreateDirAllSpec` |
| `GcRoots.RootPath.Display` | src/project/roots.rs:25-30 | the display of a root path starts with `/` and determines the path |
| `GcRoots.OutputPath.AllExist` | src/project/roots.rs:34-38 | true only when the root is present; true for a root that is a file or directory; false for a missing root or a root whose link target is missing |
| `GcRoots.AddRootError.Remove` | src/project/roots.rs:141-150 | a removal error is tolerated exactly when its kind is NotFound; otherwise the error keeps the kind and its message reads `Failed to delete <path>`, naming that path and no other |
| `GcRoots.AddRootError.Symlink` | src/project/roots.rs:153-158 | the error keeps the kind and its message reads `Failed to symlink <src> to <dest>` |
| `GcRoots.ActionText` | src/project/roots.rs:105-108 | renders the three messages (`Failed to delete <path>` as at line 147, `Failed to symlink <src> to <dest>` as at line 156); the delete and create-directory messages name their path: no other valid path gives the same text |
| `GcRoots.MessageNamesPath` | src/project/roots.rs:145-148 | two valid paths shown after the same message prefix give the same text only when they are equal |
| `GcRoots.StateDir` | src/project/roots.rs:91-95 | the state directory is the `NIX_STATE_DIR` override when set, otherwise the valid default `/nix/var/nix` |
| `GcRoots.DefaultStateDirParsed` | src/project/roots.rs:94 | `PathBuf::from("/nix/var/nix/")` has the components `nix`, `var`, `nix`: the trailing `/` adds none |
| `GcRoots.UserRootDir` | src/project/roots.rs:91-100 | the user's root directory is the state directory followed by `gcroots`, `per-user` and the user name |
| `GcRoots.UserRootDirPushed` | src/project/roots.rs:96-100 | the three pushes of `create_roots` build exactly the user's root directory |
| `GcRoots.GlobalRoot` | src/project/roots.rs:113 | the reverse root is one component `<project_id>-shell_gc_root` inside the user's root directory |
| `GcRoots.Roots.ShellGcRoot` | src/project/roots.rs:54-56 | the forward root lies directly inside the project's root directory, one component deeper, and is valid when that directory is |
| `GcRoots.Roots.ShellGcRootJoined` | src/project/roots.rs:54-56 | joining `shell_gc_root` onto the project's root directory gives exactly the forward root |
| `GcRoots.Roots.Paths` | src/project/roots.rs:59-63 | the project's output path holds `<gc_root_path>/shell_gc_root` |
| `GcRoots.Roots.CreateRoots` | src/project/roots.rs:66-126 | the step-by-step method returns the outcome and leaves the filesystem that `Register` gives |
| `GcRoots.Roots.CreateGlobalRoot` | src/project/roots.rs:102-125 | the steps after the forward link have the outcome and effect of `RegisterGlobal` |
| `GcRoots.SiteOf` | src/project/roots.rs:91-113 | the reverse root's site exists exactly when `USER` is set; its directory is the user's root directory; the reverse root is one named component inside it and is never the forward root |
| `GcRoots.Register` | src/project/roots.rs:66-126 | a successful call returns the project's `paths()` and needs `USER`; a panic happens only without `USER` and carries its message |
| `GcRoots.RegisterAt` | src/project/roots.rs:75-100 | a successful call returns the forward root it linked; a panic needs the site to be unknown |
| `GcRoots.RegisterGlobal` | src/project/roots.rs:102-125 | the second half always returns, and on success returns the forward root |
| `GcRootsProofs.ConvergenceAt` | src/project/roots.rs:78-120 | on success the forward root links to the store path and the reverse root links to the forward root |
| `GcRootsProofs.KeepsRemove` | src/project/roots.rs:78 | removing either root changes no other entry |
| `GcRootsProofs.KeepsSymlink` | src/project/roots.rs:82 | linking either root changes no other entry |
| `GcRootsProofs.KeepsMkdir` | src/project/roots.rs:105 | creating the user's directory adds only its ancestors as directories |
| `GcRootsProofs.KeepsTrans` | src/project/roots.rs:78-120 | the frame condition composes across steps |
| `GcRootsProofs.FrameGlobalAt` | src/project/roots.rs:102-120 | the second half changes no entry besides the roots and new ancestor directories |
| `GcRootsProofs.FrameAt` | src/project/roots.rs:78-120 | the whole call changes no entry besides the roots and new ancestor directories |
| `GcRootsProofs.ReadySucceedsAt` | src/project/roots.rs:78-125 | from a ready state the call succeeds, both links and the user's directory are in place, and the state is ready again |
| `GcRootsProofs.ReregisterAt` | src/project/roots.rs:78-120 | registering over roots already in place succeeds and changes only the forward link |
| `GcRootsProofs.GlobalRootNaming` | src/project/roots.rs:91-113 | the reverse root is the override or `/nix/var/nix`, then `gcroots/per-user/<user>/<project_id>-shell_gc_root` |
| `GcRootsProofs.Convergence` | src/project/roots.rs:78-120 | after a successful registration the forward root links to the store path and the reverse root to the forward root, whatever was there before |
| `GcRootsProofs.Frame` | src/project/roots.rs:78-120 | whatever the outcome, every other entry keeps its value and the only new entries are ancestor directories of the user's directory |
| `GcRootsProofs.FailedStepStopsAt` | src/project/roots.rs:78-109 | a failure to remove the forward root leaves the filesystem as it was; a failure to link it leaves the filesystem with only the old forward root removed; a failure to create the directory leaves the forward link written and the reverse root as it was |
| `GcRootsProofs.FailedStepStopsLaterSteps` | src/project/roots.rs:78-109 | the same short-circuits for a project's own paths: the user's directory and the reverse root are untouched by a failure on the forward root |
| `GcRootsProofs.RemoveLocalFailureStops` | src/project/roots.rs:78-79 | an unremovable forward root fails the call with `Failed to delete <forward root>` and nothing changed |
| `GcRootsProofs.UnreachableForwardRootFailsDelete` | src/project/roots.rs:78-79 | an unreachable forward root fails the call with `Failed to delete <forward root>` even when it is absent, and nothing changed |
| `GcRootsProofs.SymlinkLocalFailureStops` | src/project/roots.rs:82-88 | a reachable forward root that is absent and cannot be created fails the call with `Failed to symlink <store> to <forward root>` and nothing changed |
| `GcRootsProofs.LinkFailureAfterRemovalLosesForwardRoot` | src/project/roots.rs:78-88 | when the old forward root is removed but the new link cannot be created, the call fails with `Failed to symlink <store> to <forward root>` and the forward root is gone |
| `GcRootsProofs.MissingUserAt` | src/project/roots.rs:78-100 | without a site the call panics after writing the forward link |
| `GcRootsProofs.MissingUserPanicsAfterForwardLink` | src/project/roots.rs:99-100 | without `USER` the call panics with `env var 'USER' must be set: NotPresent`, after the forward root has been replaced |
| `GcRootsProofs.ReadySucceeds` | src/project/roots.rs:78-125 | from a ready state registration returns `paths()`, both links and the user's directory are in place, and the state stays ready |
| `GcRootsProofs.IdempotentAt` | src/project/roots.rs:78-120 | a second call with the same target repeats the first call's outcome and filesystem |
| `GcRootsProofs.Idempotent` | src/project/roots.rs:78-120 | registering the same store path twice gives the same outcome and the same filesystem |
| `GcRootsProofs.RetargetAt` | src/project/roots.rs:78-120 | a call with a new target only moves the forward link |
| `GcRootsProofs.RetargetKeepsOneGlobalEntry` | src/project/roots.rs:78-120 | a second store path moves the forward link, adds no key, and leaves the one reverse root linked to the forward root |
| `GcRootsProofs.ExistingDirNotCreatedAt` | src/project/roots.rs:104-109 | an existing directory is not created again: only the two roots can be new keys |
| `GcRootsProofs.ExistingUserDirNotCreated` | src/project/roots.rs:104-109 | when the user's root directory exists, the call adds no key besides the two roots |
| `GcRootsProofs.RootExistsAfterRegistration` | src/project/roots.rs:34-38 | after registration to a present store path the returned roots exist |
| `GcRootsProofs.RootDanglesOnceTargetDeleted` | src/project/roots.rs:34-38 | once the store path is deleted the returned root no longer exists |

## Left out

- Real system calls: `remove_file`, `symlink`, `create_dir_all`, `exists` and `is_dir` act on the map in `FileSystem`. Of an OS error only whether its kind is NotFound is kept. A missing parent directory on `symlink` shows up only through the fault sets, with kind Other rather than NotFound.
- Failed lookups: `exists` and `is_dir` ignore the fault sets. A `stat` that fails, for example with EACCES under a directory the process cannot search, makes them return false in Rust; here they still see the entry, so that case is not modelled.
- Path resolution uses the full path as a key. Symlinks in intermediate components are not followed; only the final component is resolved.
- Environment reads: `NIX_STATE_DIR` and `USER` are parameters. A `USER` value that is not valid Unicode (`VarError::NotUnicode`) is not modelled; its panic text would differ. `NIX_STATE_DIR` is taken as an already split absolute path. A relative or empty value is not modelled.
- `Roots::from_project` and `Project::hash` (src/project/roots.rs:45-50) depend on the project module, which is not part of this model. The project id is a given string without `/`.
- The slog `debug!` calls (src/project/roots.rs:77, 115) have no effect on the filesystem or the result.
- `AddRootError` keeps the error kind and the attempted action. Its message is rendered by `ActionText`. The `thiserror` formatting of the whole error (`msg: source`) and the serde derives are not modelled.
- Concurrency: calls are sequential. The window between a remove and the following symlink, and concurrent registrations, are not modelled.
- `OutputPath` and `RootedPath` come from the builder module, which is not part of this model. Each is a one-field datatype here.
- `GcRoots.OutputPath.AllExist`: its contract states the cases of a missing root, a root that is a file or directory, and a root whose link is dangling. A chain of links is covered only by the definition through `Resolve`.
