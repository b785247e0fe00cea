/** `mono release`: moves every module of the monorepo to one version, in
    the fixed order discover, resolve dependencies, sort, set versions, then
    go.mod and go.sum module by module, stopping at the first error. */
module Release {
  import opened Wrappers
  import opened FileSystem
  import opened GoSum
  import opened Modules
  import opened ModuleSort
  import opened ModFile

  datatype ReleaseError =
    | FetchModulesFailed(cause: string)
    | NoModulesFound
    | InterdependenciesFailed(sortError: SortError)
    | VersionUpdateFailed(versionError: VersionError)
    | GoModFailed(prefix: string, fileName: string, goModError: GoModError)
    | GoSumFailed(prefix: string, fileName: string, goSumError: GoSumFailure)

  /** What the `release` command reports: no modules at the context directory
      is the user's input error; anything else is the release's own error. */
  datatype CommandError =
    | InputError(contextDir: string)
    | ReleaseFailed(cause: ReleaseError)

  /** ReleaseCmd's mapping of the release outcome. */
  function CommandResult(contextDir: string, err: Option<ReleaseError>): (r: Option<CommandError>)
    ensures r == None <==> err == None
    ensures err == Some(NoModulesFound) ==> r == Some(InputError(contextDir))
    ensures err.Some? && err.value != NoModulesFound ==> r == Some(ReleaseFailed(err.value))
  {
    match err
    case None => None
    case Some(NoModulesFound) => Some(InputError(contextDir))
    case Some(e) => Some(ReleaseFailed(e))
  }

  /** The files a release writes when nothing fails: for each module in
      order, its go.mod and then its go.sum. */
  function Plan(ms: seq<Module>): seq<string>
    decreases |ms|
  {
    if ms == [] then []
    else Plan(ms[..|ms| - 1]) + [GoModPath(ms[|ms| - 1]), GoSumPath(ms[|ms| - 1])]
  }

  /** Every module of `ms` is listed once. */
  ghost predicate Distinct(ms: seq<Module>)
  {
    forall j :: 0 <= j < |ms| ==> Once(ms, j)
  }

  /** Modules as discovery returns them: each once, none with dependencies
      resolved yet. */
  ghost predicate Discovered(ms: seq<Module>)
    reads ms
  {
    && Distinct(ms)
    && (forall m :: m in ms ==> m.deps == [] && m.depsVersion == [])
  }

  /** No module's version or `require` lines changed. */
  twostate predicate VersionsKept(ms: seq<Module>)
    reads ms
  {
    forall m :: m in ms ==> m.version == old(m.version) && m.require == old(m.require)
  }

  /** A module's go.mod hash, go.sum table and DirHash. */
  datatype Hashes = Hashes(goModHash: string, sums: Sums, dirHash: string)

  function HashesOf(m: Module): Hashes
    reads m`goModHash, m`sums, m`dirHash
  {
    Hashes(m.goModHash, m.sums, m.dirHash)
  }

  /** The hashes of every module of `ms`. */
  ghost function HashTable(ms: seq<Module>): map<Module, Hashes>
    reads (set m | m in ms)`goModHash, (set m | m in ms)`sums, (set m | m in ms)`dirHash
  {
    map m | m in ms :: HashesOf(m)
  }

  /** Every module of `ms` outside `touched` still holds the hashes
      `hashes0` recorded for it. */
  ghost predicate HashesKept(ms: seq<Module>, touched: seq<Module>, hashes0: map<Module, Hashes>)
    reads ms
  {
    forall m :: m in ms && m !in touched ==> m in hashes0 && HashesOf(m) == hashes0[m]
  }

  /** `run` started from the go.sum table and DirHash of `h`. */
  predicate StartedFrom(run: Run, h: Hashes)
  {
    run.sums == h.sums && run.dirHash == h.dirHash
  }

  /** The `require` lines of every module of `ms`. */
  ghost function RequireTable(ms: seq<Module>): map<Module, seq<Require>>
    reads (set m | m in ms)`require
  {
    map m | m in ms :: m.require
  }

  /** Every module of `ms` has as direct dependencies the modules of `ms`
      that the `require` lines recorded for it in `require0` name, with the
      versions they require, one version per dependency. */
  ghost predicate Resolved(ms: seq<Module>, require0: map<Module, seq<Require>>)
    reads (set m | m in ms)`deps, (set m | m in ms)`depsVersion
  {
    forall m :: m in ms ==>
      && m in require0 && m.deps == DepsOf(require0[m], ms) && m.depsVersion == VersionsOf(require0[m], ms)
      && |m.deps| == |m.depsVersion| && (forall d :: d in m.deps ==> d in ms)
  }

  /** Every module of `ms` is at `version`, and its `require` lines are
      those recorded for it in `require0` with each of its dependencies
      moved to `version`. */
  ghost predicate Bumped(ms: seq<Module>, version: string, require0: map<Module, seq<Require>>)
    reads (set m | m in ms)`version, (set m | m in ms)`require, (set m | m in ms)`deps
  {
    forall m :: m in ms ==>
      m in require0 && m.version == version && m.require == AddRequires(require0[m], Paths(m.deps), version)
  }


  /** What a module that stopped the release with `err` had written: its
      go.mod when go.sum failed, and also its go.sum when only the
      directory hash failed. */
  function Partial(m: Module, err: ReleaseError): seq<string>
  {
    (if err.GoSumFailed? then [GoModPath(m)] else [])
      + (if err.GoSumFailed? && err.goSumError.DirHashFailed? then [GoSumPath(m)] else [])
  }

  /** No file was written. */
  twostate predicate DiskKept(disk: Disk)
    reads disk
  {
    disk.files == old(disk.files) && disk.written == old(disk.written)
  }

  /** The write log after the first `done` modules were updated and the
      next one stopped with `err`. */
  function WrittenAt(ms: seq<Module>, done: nat, err: ReleaseError): seq<string>
    requires done < |ms|
  {
    Plan(ms[..done]) + Partial(ms[done], err)
  }

  /** The error stops the release before any file is processed. */
  predicate Early(err: ReleaseError)
  {
    err.FetchModulesFailed? || err.NoModulesFound? || err.InterdependenciesFailed? || err.VersionUpdateFailed?
  }

  /** What UpdateGoMod reports for the formatted go.mod `data`: a hash
      error first, then, unless dry, a write error. */
  function GoModOutcome(data: string, dry: bool, env: Env, path: string, unwritable: set<string>): Option<GoModError>
  {
    var h := env.goModHash(data);
    if h.Failure? then Some(GoModHashFailed(h.error))
    else if !dry && path in unwritable then Some(GoModWriteFailed(WriteFailed(path)))
    else None
  }

  /** UpdateGoSum got as far as hashing the module's directory: every entry
      was swapped and, unless dry, go.sum was written. */
  predicate Hashed(o: SumUpdate.Outcome<SumUpdate.GoSumError>, dry: bool, path: string, unwritable: set<string>)
  {
    o.err.None? && (dry || path !in unwritable)
  }

  /** What UpdateGoSum reports after the swap `o` and, if it got that far,
      the directory hash `h`: an inconsistency first, then a write error,
      then a hash error. */
  function GoSumOutcome(o: SumUpdate.Outcome<SumUpdate.GoSumError>, dry: bool, path: string, unwritable: set<string>,
                        h: Result<string, HashError>): Option<GoSumFailure>
  {
    if o.err.Some? then Some(Inconsistent(o.err.value))
    else if !dry && path in unwritable then Some(GoSumWriteFailed(WriteFailed(path)))
    else if h.Failure? then Some(DirHashFailed(h.error))
    else None
  }

  /** What one module's update started from and read: the module's go.sum
      table and DirHash before the update, its dependencies as UpdateGoSum's
      loop saw them, the files on disk before the update, and the files on
      disk when its directory was hashed, which are those it left. */
  datatype Run = Run(sums: Sums, dirHash: string, pins: seq<SumUpdate.Pin>, start: map<string, string>, files: map<string, string>)

  /** The fields of a module the release reads or writes once versions are
      set: its go.mod contents, its two hashes and its go.sum table. */
  datatype ModState = ModState(file: Manifest, goModHash: string, sums: Sums, dirHash: string)

  function State(m: Module): ModState
    reads m
  {
    ModState(m.File(), m.goModHash, m.sums, m.dirHash)
  }

  /** What UpdateModule leaves for module `m` whose go.mod holds `file`,
      given the table and DirHash it started from and what it read (`run`):
      GoModHash is the hash of the formatted go.mod; a go.mod error leaves
      the table and DirHash; otherwise the table is swapped as `ApplyPins`
      gives, DirHash is recomputed if UpdateGoSum got that far, and the
      error is the go.sum one, if any. */
  ghost function Updated(m: Module, file: Manifest, run: Run, dry: bool, env: Env, unwritable: set<string>)
    : (ModState, Option<ReleaseError>)
  {
    var data := env.format(file);
    var goModHash := HashValue(env.goModHash(data));
    var gm := GoModOutcome(data, dry, env, GoModPath(m), unwritable);
    if gm.Some? then
      (ModState(file, goModHash, run.sums, run.dirHash), Some(GoModFailed(m.prefix, m.fileName, gm.value)))
    else
      var o := SumUpdate.ApplyPins(run.sums, run.pins);
      var h := env.dirHash(run.files, Dir(m), m.path + "@" + file.version);
      var gs := GoSumOutcome(o, dry, GoSumPath(m), unwritable, h);
      (ModState(file, goModHash, o.sums, if Hashed(o, dry, GoSumPath(m), unwritable) then HashValue(h) else run.dirHash),
       if gs.Some? then Some(GoSumFailed(m.prefix, m.fileName, gs.value)) else None)
  }

  /** The error the module at position `j` of a release ended with: none
      for the modules before `done`, and the release's error for the last. */
  function ErrAt(j: int, done: nat, err: Option<ReleaseError>): Option<ReleaseError>
  {
    if j < done then None else err
  }

  /** The files module `m`'s update left, against those it started from:
      unless dry, go.mod holds the formatted `file` once its hash succeeded
      and the write got through, and go.sum then holds a rendering of the
      swapped table once every swap succeeded and the write got through. No
      other file changes. */
  ghost predicate Wrote(m: Module, file: Manifest, run: Run, dry: bool, env: Env, unwritable: set<string>)
  {
    var data := env.format(file);
    if dry || GoModOutcome(data, dry, env, GoModPath(m), unwritable).Some? then run.files == run.start
    else
      var afterGoMod := run.start[GoModPath(m) := data];
      var o := SumUpdate.ApplyPins(run.sums, run.pins);
      if o.err.Some? || GoSumPath(m) in unwritable then run.files == afterGoMod
      else
        && GoSumPath(m) in run.files
        && IsFormatOf(run.files[GoSumPath(m)], o.sums, env.versionBefore)
        && run.files == afterGoMod[GoSumPath(m) := run.files[GoSumPath(m)]]
  }

  /** Module `m` ended its update, recorded by `run`, in state `s` with
      `err`, and left the files `Wrote` describes. */
  ghost predicate Ran(m: Module, s: ModState, run: Run, dry: bool, env: Env, unwritable: set<string>, err: Option<ReleaseError>)
  {
    && Updated(m, s.file, run, dry, env, unwritable) == (s, err)
    && Wrote(m, s.file, run, dry, env, unwritable)
  }

  /** UpdateGoMod as the release loop sees it: the hash it records, the
      error it reports and what it wrote. */
  method GoModStep(m: Module, dry: bool, env: Env, disk: Disk) returns (err: Option<GoModError>)
    modifies m`goModHash, disk
    ensures m.goModHash == HashValue(env.goModHash(env.format(m.File())))
    ensures err == GoModOutcome(env.format(m.File()), dry, env, GoModPath(m), disk.unwritable)
    ensures dry || err.Some? ==> DiskKept(disk)
    ensures !dry && err == None ==> disk.files == old(disk.files)[GoModPath(m) := env.format(m.File())]
    ensures !dry ==> disk.written == old(disk.written) + (if err == None then [GoModPath(m)] else [])
  {
    err := UpdateGoMod(m, dry, env, disk);
  }

  /** UpdateGoSum as the release loop sees it: the table and DirHash it
      leaves, the error it reports and what it wrote. go.sum is on disk
      when the update succeeded or only the directory hash failed. */
  method GoSumStep(m: Module, dry: bool, env: Env, disk: Disk) returns (err: Option<GoSumFailure>)
    requires |m.deps| == |m.depsVersion|
    requires StrictOrder(env.versionBefore)
    modifies m`sums, m`dirHash, disk
    ensures var o := old(SumUpdate.ApplyPins(m.sums, PinsOf(m.deps, m.depsVersion)));
      var h := env.dirHash(disk.files, Dir(m), Identity(m));
      && m.sums == o.sums
      && err == GoSumOutcome(o, dry, GoSumPath(m), disk.unwritable, h)
      && m.dirHash == (if Hashed(o, dry, GoSumPath(m), disk.unwritable) then HashValue(h) else old(m.dirHash))
    ensures var o := old(SumUpdate.ApplyPins(m.sums, PinsOf(m.deps, m.depsVersion)));
      if dry || o.err.Some? || GoSumPath(m) in disk.unwritable then disk.files == old(disk.files)
      else
        && GoSumPath(m) in disk.files
        && IsFormatOf(disk.files[GoSumPath(m)], m.sums, env.versionBefore)
        && disk.files == old(disk.files)[GoSumPath(m) := disk.files[GoSumPath(m)]]
    ensures dry ==> DiskKept(disk)
    ensures !dry ==> disk.written == old(disk.written) + (if err == None || err.value.DirHashFailed? then [GoSumPath(m)] else [])
  {
    err := UpdateGoSum(m, dry, env, disk);
  }

  /** One module: its go.mod, then its go.sum. `run` records the table and
      DirHash the module started from and what the go.sum update read: the
      dependencies' hashes as they stood after go.mod, which are those from
      before the call unless the module depends on itself. */
  method UpdateModule(m: Module, dry: bool, env: Env, disk: Disk) returns (err: Option<ReleaseError>, ghost run: Run)
    requires |m.deps| == |m.depsVersion|
    requires StrictOrder(env.versionBefore)
    modifies m`goModHash, m`sums, m`dirHash, disk
    ensures Ran(m, State(m), run, dry, env, disk.unwritable, err)
    ensures run.sums == old(m.sums) && run.dirHash == old(m.dirHash) && run.start == old(disk.files)
    ensures m !in m.deps ==> run.pins == PinsOf(m.deps, m.depsVersion)
    ensures run.files == disk.files
    ensures dry ==> DiskKept(disk)
    ensures err.Some? ==> && (err.value.GoModFailed? || err.value.GoSumFailed?)
                          && err.value.prefix == m.prefix && err.value.fileName == m.fileName
    ensures !dry ==> disk.written == old(disk.written) + (if err == None then [GoModPath(m), GoSumPath(m)] else Partial(m, err.value))
  {
    ghost var sums0, dirHash0, files0 := m.sums, m.dirHash, disk.files;
    var e := GoModStep(m, dry, env, disk);
    ghost var pins := PinsOf(m.deps, m.depsVersion);
    if e.Some? {
      err, run := Some(GoModFailed(m.prefix, m.fileName, e.value)), Run(sums0, dirHash0, pins, files0, disk.files);
      assert Updated(m, m.File(), run, dry, env, disk.unwritable).1 == err;
      return;
    }
    var e2 := GoSumStep(m, dry, env, disk);
    assert m !in m.deps ==> pins == PinsOf(m.deps, m.depsVersion);
    run := Run(sums0, dirHash0, pins, files0, disk.files);
    err := if e2.Some? then Some(GoSumFailed(m.prefix, m.fileName, e2.value)) else None;
    assert Updated(m, m.File(), run, dry, env, disk.unwritable).0.sums == m.sums;
    WrittenByModule(old(disk.written), m, e2);
  }

  /** What a module's update writes once its go.mod is written: go.sum too
      when the go.sum update succeeded or failed only at the directory
      hash. */
  lemma WrittenByModule(written0: seq<string>, m: Module, e: Option<GoSumFailure>)
    ensures written0 + [GoModPath(m)] + (if e == None || e.value.DirHashFailed? then [GoSumPath(m)] else [])
         == written0 + (if e == None then [GoModPath(m), GoSumPath(m)] else Partial(m, GoSumFailed(m.prefix, m.fileName, e.value)))
  {
  }

  /** `ms[j]` appears nowhere else in `ms`. */
  ghost predicate Once(ms: seq<Module>, j: int)
  {
    0 <= j < |ms| && forall k :: 0 <= k < |ms| && k != j ==> ms[k] != ms[j]
  }

  /** The first |runs| modules of `order` ran as `runs` records, each
      ending in the state it holds now: those before `done` succeeded, and
      the one at `done` failed with `err`. */
  ghost predicate RanInOrder(order: seq<Module>, runs: seq<Run>, dry: bool, env: Env, unwritable: set<string>,
                             done: nat, err: Option<ReleaseError>)
    reads order
  {
    && |runs| <= |order|
    && forall j {:trigger Ran(order[j], State(order[j]), runs[j], dry, env, unwritable, ErrAt(j, done, err))} :: 0 <= j < |runs| ==>
         Ran(order[j], State(order[j]), runs[j], dry, env, unwritable, ErrAt(j, done, err))
  }

  /** What the file updates of a release leave once the modules of `ms`
      are in `order`, given the files on disk (`files0`) and the modules'
      hashes (`hashes0`) before them: the modules ran in that order up to
      the failing one, each from the go.sum table and DirHash it held
      before; each whose dependencies all come before it read their final
      hashes, which with one module per path is every module; the runs
      chain from `files0` to `files`; and no module after the failing one
      had its hashes changed. */
  ghost predicate Published(ms: seq<Module>, order: seq<Module>, runs: seq<Run>, dry: bool, env: Env, unwritable: set<string>,
                            done: nat, err: Option<ReleaseError>, files0: map<string, string>, hashes0: map<Module, Hashes>,
                            files: map<string, string>)
    reads ms, order
  {
    && |runs| == (if err == None then |order| else done + 1) <= |order|
    && (forall m :: m in order ==> m in ms)
    && RanInOrder(order, runs, dry, env, unwritable, done, err)
    && (forall j :: 0 <= j < |runs| ==> order[j] in hashes0 && StartedFrom(runs[j], hashes0[order[j]]))
    && (forall m :: m in order ==> |m.deps| == |m.depsVersion| && forall d :: d in m.deps ==> d in ms)
    && (forall j :: 0 <= j < |runs| && DepsBefore(order, j) ==> runs[j].pins == PinsOf(order[j].deps, order[j].depsVersion))
    && (|ms| >= 2 && DistinctPaths(ms) ==> forall j :: 0 <= j < |order| ==> DepsBefore(order, j))
    && Chained(files0, runs, files)
    && HashesKept(order, order[..|runs|], hashes0)
  }

  /** No dependency of `ms[j]` is processed at or after position `j`. */
  ghost predicate DepsBefore(ms: seq<Module>, j: int)
    reads (set m | m in ms)`deps
  {
    0 <= j < |ms| && forall d :: d in ms[j].deps ==> d !in ms[j..]
  }

  /** The first |runs| modules of `ms` ran as recorded: those listed once
      before the last succeeded, and the last, if listed once, ended with
      `err`. Position j ended its update in `states[j]`. */
  ghost predicate AllRan(ms: seq<Module>, states: seq<ModState>, runs: seq<Run>,
                         dry: bool, env: Env, unwritable: set<string>, err: Option<ReleaseError>)
    decreases |runs|, 1
  {
    && |states| == |runs| <= |ms|
    && (runs != [] ==> LastRan(ms, states, runs, dry, env, unwritable, err))
  }

  /** AllRan for a non-empty record: the ones before the last succeeded, and
      the last, if listed once, ended with `err`. */
  ghost predicate LastRan(ms: seq<Module>, states: seq<ModState>, runs: seq<Run>,
                          dry: bool, env: Env, unwritable: set<string>, err: Option<ReleaseError>)
    requires 0 < |runs| == |states| <= |ms|
    decreases |runs|, 0
  {
    var n := |runs| - 1;
    && AllRan(ms, states[..n], runs[..n], dry, env, unwritable, None)
    && (Once(ms, n) ==> Ran(ms[n], states[n], runs[n], dry, env, unwritable, err))
  }

  /** What AllRan says of one position. */
  lemma {:induction false} AllRanAt(ms: seq<Module>, states: seq<ModState>, runs: seq<Run>,
                                    dry: bool, env: Env, unwritable: set<string>, err: Option<ReleaseError>, j: int)
    requires AllRan(ms, states, runs, dry, env, unwritable, err)
    requires 0 <= j < |runs| && Once(ms, j)
    ensures Ran(ms[j], states[j], runs[j], dry, env, unwritable, if j < |runs| - 1 then None else err)
    decreases |runs|
  {
    var n := |runs| - 1;
    assert LastRan(ms, states, runs, dry, env, unwritable, err);
    if j < n {
      AllRanAt(ms, states[..n], runs[..n], dry, env, unwritable, None, j);
    }
  }

  /** What AllRan says of every position. */
  lemma AllRanAll(ms: seq<Module>, states: seq<ModState>, runs: seq<Run>,
                  dry: bool, env: Env, unwritable: set<string>, err: Option<ReleaseError>)
    requires AllRan(ms, states, runs, dry, env, unwritable, err)
    ensures forall j :: 0 <= j < |runs| && Once(ms, j) ==>
      Ran(ms[j], states[j], runs[j], dry, env, unwritable, if j < |runs| - 1 then None else err)
  {
    forall j | 0 <= j < |runs| && Once(ms, j)
      ensures Ran(ms[j], states[j], runs[j], dry, env, unwritable, if j < |runs| - 1 then None else err)
    {
      AllRanAt(ms, states, runs, dry, env, unwritable, err, j);
    }
  }

  /** The release's loop: go.mod, then go.sum, module by module in order,
      stopping at the first error with nothing rolled back. `runs` has one
      entry per module processed. Every module before `done` succeeded, and
      the one at `done`, if any, failed with `err`; a module whose
      dependencies all come before it read their hashes as the loop left
      them. */
  method UpdateFiles(ms: seq<Module>, dry: bool, env: Env, disk: Disk, ghost hashes0: map<Module, Hashes>)
    returns (err: Option<ReleaseError>, ghost done: nat, ghost runs: seq<Run>)
    requires HashesKept(ms, [], hashes0)
    requires forall m :: m in ms ==> |m.deps| == |m.depsVersion|
    requires StrictOrder(env.versionBefore)
    modifies disk, (set m | m in ms)`goModHash, (set m | m in ms)`sums, (set m | m in ms)`dirHash
    ensures dry ==> disk.files == old(disk.files) && disk.written == old(disk.written)
    ensures err == None ==> done == |ms|
    ensures |runs| == (if err == None then |ms| else done + 1)
    ensures forall j {:trigger Ran(ms[j], State(ms[j]), runs[j], dry, env, disk.unwritable, ErrAt(j, done, err))} ::
      0 <= j < |runs| && Once(ms, j) ==> Ran(ms[j], State(ms[j]), runs[j], dry, env, disk.unwritable, ErrAt(j, done, err))
    ensures forall j :: 0 <= j < |runs| && Once(ms, j) ==> ms[j] in hashes0 && StartedFrom(runs[j], hashes0[ms[j]])
    ensures forall j :: 0 <= j < |runs| && DepsBefore(ms, j) ==> runs[j].pins == PinsOf(ms[j].deps, ms[j].depsVersion)
    ensures Chained(old(disk.files), runs, disk.files)
    ensures err == None && !dry ==> disk.written == old(disk.written) + Plan(ms)
    ensures err.Some? ==> && done < |ms| && (err.value.GoModFailed? || err.value.GoSumFailed?)
                          && err.value.prefix == ms[done].prefix && err.value.fileName == ms[done].fileName
    ensures err.Some? && !dry ==> done < |ms| && disk.written == old(disk.written) + WrittenAt(ms, done, err.value)
    ensures HashesKept(ms, ms[..|runs|], hashes0)
  {
    ghost var states;
    err, done, states, runs := RunAll(ms, dry, env, disk, hashes0);
    AllRanAll(ms, states, runs, dry, env, disk.unwritable, err);
  }

  /** The loop of UpdateFiles, stated over the snapshots `states` of the
      modules it updated. */
  method RunAll(ms: seq<Module>, dry: bool, env: Env, disk: Disk,
                ghost hashes0: map<Module, Hashes>)
    returns (err: Option<ReleaseError>, ghost done: nat, ghost states: seq<ModState>, ghost runs: seq<Run>)
    requires forall m :: m in ms ==> |m.deps| == |m.depsVersion|
    requires StrictOrder(env.versionBefore)
    requires HashesKept(ms, [], hashes0)
    modifies disk, (set m | m in ms)`goModHash, (set m | m in ms)`sums, (set m | m in ms)`dirHash
    ensures dry ==> disk.files == old(disk.files) && disk.written == old(disk.written)
    ensures err == None ==> done == |ms|
    ensures |runs| == (if err == None then |ms| else done + 1)
    ensures AllRan(ms, states, runs, dry, env, disk.unwritable, err)
    ensures Chained(old(disk.files), runs, disk.files)
    ensures forall j :: 0 <= j < |runs| && Once(ms, j) ==>
      State(ms[j]) == states[j] && ms[j] in hashes0 && StartedFrom(runs[j], hashes0[ms[j]])
    ensures HashesKept(ms, ms[..|runs|], hashes0)
    ensures forall j :: 0 <= j < |runs| && DepsBefore(ms, j) ==> runs[j].pins == PinsOf(ms[j].deps, ms[j].depsVersion)
    ensures err == None && !dry ==> disk.written == old(disk.written) + Plan(ms)
    ensures err.Some? ==> && done < |ms| && (err.value.GoModFailed? || err.value.GoSumFailed?)
                          && err.value.prefix == ms[done].prefix && err.value.fileName == ms[done].fileName
    ensures err.Some? && !dry ==> done < |ms| && disk.written == old(disk.written) + WrittenAt(ms, done, err.value)
  {
    var i := 0;
    runs := [];
    states := [];
    while i < |ms|
      invariant 0 <= i <= |ms| && |runs| == i && |states| == i
      invariant dry ==> disk.files == old(disk.files) && disk.written == old(disk.written)
      invariant !dry ==> disk.written == old(disk.written) + Plan(ms[..i])
      invariant forall j :: 0 <= j < i && Once(ms, j) ==>
        State(ms[j]) == states[j] && ms[j] in hashes0 && StartedFrom(runs[j], hashes0[ms[j]])
      invariant forall j :: 0 <= j < i && DepsBefore(ms, j) ==> runs[j].pins == PinsOf(ms[j].deps, ms[j].depsVersion)
      invariant AllRan(ms, states, runs, dry, env, disk.unwritable, None)
      invariant Chained(old(disk.files), runs, disk.files)
      invariant HashesKept(ms, ms[..i], hashes0)
    {
      err, states, runs := Step(ms, i, dry, env, disk, hashes0, states, runs, old(disk.files), old(disk.written));
      if err.Some? {
        return err, i, states, runs;
      }
      i := i + 1;
    }
    assert ms[..i] == ms;
    return None, i, states, runs;
  }

  /** The runs follow one another on the disk: the first starts from
      `files0`, each later one from the files the one before it left, and
      the disk ends as the last one left it. */
  ghost predicate Chained(files0: map<string, string>, runs: seq<Run>, files: map<string, string>)
    decreases |runs|
  {
    if runs == [] then files == files0
    else Chained(files0, runs[..|runs| - 1], runs[|runs| - 1].start) && runs[|runs| - 1].files == files
  }

  /** A chain of runs extends by a run that starts where it ended. */
  lemma ChainedNext(files0: map<string, string>, runs0: seq<Run>, run: Run)
    requires Chained(files0, runs0, run.start)
    ensures Chained(files0, runs0 + [run], run.files)
  {
    assert (runs0 + [run])[..|runs0|] == runs0;
  }

  /** One pass of the release's loop: module `ms[i]` is updated, the
      record of the modules processed so far grows by its run, and the
      modules after it are as they were. */
  method Step(ms: seq<Module>, i: int, dry: bool, env: Env, disk: Disk,
              ghost hashes0: map<Module, Hashes>,
              ghost states0: seq<ModState>, ghost runs0: seq<Run>, ghost files0: map<string, string>, ghost written0: seq<string>)
    returns (err: Option<ReleaseError>, ghost states: seq<ModState>, ghost runs: seq<Run>)
    requires 0 <= i < |ms| && |runs0| == i && |states0| == i
    requires forall m :: m in ms ==> |m.deps| == |m.depsVersion|
    requires StrictOrder(env.versionBefore)
    requires !dry ==> disk.written == written0 + Plan(ms[..i])
    requires Chained(files0, runs0, disk.files)
    requires AllRan(ms, states0, runs0, dry, env, disk.unwritable, None)
    requires forall j :: 0 <= j < i && Once(ms, j) ==>
      State(ms[j]) == states0[j] && ms[j] in hashes0 && StartedFrom(runs0[j], hashes0[ms[j]])
    requires HashesKept(ms, ms[..i], hashes0)
    requires forall j :: 0 <= j < i && DepsBefore(ms, j) ==> runs0[j].pins == PinsOf(ms[j].deps, ms[j].depsVersion)
    modifies {ms[i]}`goModHash, {ms[i]}`sums, {ms[i]}`dirHash, disk
    ensures |runs| == i + 1 && |states| == i + 1
    ensures AllRan(ms, states, runs, dry, env, disk.unwritable, err)
    ensures Chained(files0, runs, disk.files)
    ensures forall j :: 0 <= j < i + 1 && Once(ms, j) ==>
      State(ms[j]) == states[j] && ms[j] in hashes0 && StartedFrom(runs[j], hashes0[ms[j]])
    ensures HashesKept(ms, ms[..i + 1], hashes0)
    ensures forall j :: 0 <= j < i + 1 && DepsBefore(ms, j) ==> runs[j].pins == PinsOf(ms[j].deps, ms[j].depsVersion)
    ensures dry ==> DiskKept(disk)
    ensures err.Some? ==> && (err.value.GoModFailed? || err.value.GoSumFailed?)
                          && err.value.prefix == ms[i].prefix && err.value.fileName == ms[i].fileName
    ensures !dry ==> disk.written == written0 + (if err == None then Plan(ms[..i + 1]) else WrittenAt(ms, i, err.value))
  {
    if Once(ms, i) {
      assert ms[i] !in ms[..i];
    }
    ghost var run: Run;
    err, run := Advance(ms, i, dry, env, disk, hashes0, states0, runs0);
    ChainedNext(files0, runs0, run);
    RanExtend(ms, states0, runs0, State(ms[i]), run, dry, env, disk.unwritable, err);
    RecordNext(ms, hashes0, states0, runs0, State(ms[i]), run);
    runs := runs0 + [run];
    states := states0 + [State(ms[i])];
    WrittenNext(ms, i, written0, err);
  }

  /** The snapshots and runs of the modules processed so far, extended by
      the next module's. */
  lemma RecordNext(ms: seq<Module>, hashes0: map<Module, Hashes>, states0: seq<ModState>, runs0: seq<Run>,
                   s: ModState, run: Run)
    requires |runs0| == |states0| < |ms|
    requires forall m :: m in ms ==> |m.deps| == |m.depsVersion|
    requires forall j :: 0 <= j < |runs0| && Once(ms, j) ==>
      State(ms[j]) == states0[j] && ms[j] in hashes0 && StartedFrom(runs0[j], hashes0[ms[j]])
    requires Once(ms, |runs0|) ==>
      State(ms[|runs0|]) == s && ms[|runs0|] in hashes0 && StartedFrom(run, hashes0[ms[|runs0|]])
    requires forall j :: 0 <= j < |runs0| && DepsBefore(ms, j) ==> runs0[j].pins == PinsOf(ms[j].deps, ms[j].depsVersion)
    requires DepsBefore(ms, |runs0|) ==> run.pins == PinsOf(ms[|runs0|].deps, ms[|runs0|].depsVersion)
    ensures forall j :: 0 <= j <= |runs0| && Once(ms, j) ==>
      State(ms[j]) == (states0 + [s])[j] && ms[j] in hashes0 && StartedFrom((runs0 + [run])[j], hashes0[ms[j]])
    ensures forall j :: 0 <= j <= |runs0| && DepsBefore(ms, j) ==>
      (runs0 + [run])[j].pins == PinsOf(ms[j].deps, ms[j].depsVersion)
  {
  }

  /** The write log grows by one module's files, or by what its failed
      update wrote. */
  lemma WrittenNext(ms: seq<Module>, i: int, written0: seq<string>, err: Option<ReleaseError>)
    requires 0 <= i < |ms|
    ensures written0 + Plan(ms[..i]) + (if err == None then [GoModPath(ms[i]), GoSumPath(ms[i])] else Partial(ms[i], err.value))
         == written0 + (if err == None then Plan(ms[..i + 1]) else WrittenAt(ms, i, err.value))
  {
    assert ms[..i + 1][..i] == ms[..i];
  }

  /** Step's update of `ms[i]`: how it ran, and that the modules before it
      listed once, and the dependencies of those whose dependencies all come
      before them, are as they were. */
  method Advance(ms: seq<Module>, i: int, dry: bool, env: Env, disk: Disk,
                 ghost hashes0: map<Module, Hashes>, ghost states0: seq<ModState>, ghost runs0: seq<Run>)
    returns (err: Option<ReleaseError>, ghost run: Run)
    requires 0 <= i < |ms| && |runs0| == i && |states0| == i
    requires HashesKept(ms, ms[..i], hashes0)
    requires forall m :: m in ms ==> |m.deps| == |m.depsVersion|
    requires StrictOrder(env.versionBefore)
    requires forall j :: 0 <= j < i && Once(ms, j) ==> State(ms[j]) == states0[j]
    requires forall j :: 0 <= j < i && DepsBefore(ms, j) ==> runs0[j].pins == PinsOf(ms[j].deps, ms[j].depsVersion)
    modifies {ms[i]}`goModHash, {ms[i]}`sums, {ms[i]}`dirHash, disk
    ensures Ran(ms[i], State(ms[i]), run, dry, env, disk.unwritable, err)
    ensures ms[i] !in ms[..i] ==> ms[i] in hashes0 && StartedFrom(run, hashes0[ms[i]])
    ensures run.start == old(disk.files) && run.files == disk.files
    ensures DepsBefore(ms, i) ==> run.pins == PinsOf(ms[i].deps, ms[i].depsVersion)
    ensures forall j :: 0 <= j < i && Once(ms, j) ==> State(ms[j]) == states0[j]
    ensures forall j :: 0 <= j < i && DepsBefore(ms, j) ==> runs0[j].pins == PinsOf(ms[j].deps, ms[j].depsVersion)
    ensures HashesKept(ms, ms[..i + 1], hashes0)
    ensures dry ==> DiskKept(disk)
    ensures err.Some? ==> && (err.value.GoModFailed? || err.value.GoSumFailed?)
                          && err.value.prefix == ms[i].prefix && err.value.fileName == ms[i].fileName
    ensures !dry ==> disk.written == old(disk.written) + (if err == None then [GoModPath(ms[i]), GoSumPath(ms[i])] else Partial(ms[i], err.value))
  {
    err, run := UpdateModule(ms[i], dry, env, disk);
    forall j | 0 <= j < i && Once(ms, j)
      ensures State(ms[j]) == states0[j]
    {
      assert ms[j] != ms[i];
    }
    forall j | 0 <= j < i && DepsBefore(ms, j)
      ensures runs0[j].pins == PinsOf(ms[j].deps, ms[j].depsVersion)
    {
      assert ms[i] in ms[j..];
    }
    if DepsBefore(ms, i) {
      assert ms[i] in ms[i..];
    }
    forall m | m in ms && m !in ms[..i + 1]
      ensures m in hashes0 && HashesOf(m) == hashes0[m]
    {
      assert m != ms[i] && m !in ms[..i];
    }
  }

  /** A record that ran can be extended by the next module's run. */
  lemma RanExtend(ms: seq<Module>, states0: seq<ModState>, runs0: seq<Run>,
                  s: ModState, run: Run, dry: bool, env: Env, unwritable: set<string>, err: Option<ReleaseError>)
    requires AllRan(ms, states0, runs0, dry, env, unwritable, None) && |runs0| < |ms|
    requires Once(ms, |runs0|) ==> Ran(ms[|runs0|], s, run, dry, env, unwritable, err)
    ensures AllRan(ms, states0 + [s], runs0 + [run], dry, env, unwritable, err)
  {
    var n := |runs0|;
    assert (runs0 + [run])[..n] == runs0 && (states0 + [s])[..n] == states0;
    assert LastRan(ms, states0 + [s], runs0 + [run], dry, env, unwritable, err);
  }

  /** Two lists that hold the same modules, as a permutation does. */
  lemma SameMembers(a: seq<Module>, b: seq<Module>)
    requires multiset(a) == multiset(b)
    ensures forall x :: x in a <==> x in b
  {
    forall x
      ensures x in a <==> x in b
    {
      assert x in a <==> x in multiset(a);
      assert x in b <==> x in multiset(b);
    }
  }

  /** FetchDirectDeps on freshly discovered modules: every module's
      dependencies are exactly those its `require` lines name. */
  method Resolve(ms: seq<Module>)
    requires Discovered(ms)
    modifies (set m | m in ms)`deps, (set m | m in ms)`depsVersion
    ensures forall m :: m in ms ==>
      && m.deps == DepsOf(m.require, ms) && m.depsVersion == VersionsOf(m.require, ms)
      && |m.deps| == |m.depsVersion| && (forall d :: d in m.deps ==> d in ms)
  {
    forall i, j | 0 <= i < j < |ms|
      ensures ms[i] != ms[j]
    {
      assert Once(ms, j);
    }
    FetchDirectDeps(ms);
    forall m | m in ms
      ensures |m.deps| == |m.depsVersion| && forall d :: d in m.deps ==> d in ms
    {
      DepsOfSound(m.require, ms);
    }
  }

  /** The steps before any file is touched: resolve every module's direct
      dependencies, order the modules so that each follows its dependencies,
      then move every module and its `require` lines to `version`. */
  method Prepare(ms: seq<Module>, version: string, env: Env) returns (err: Option<ReleaseError>, order: seq<Module>)
    requires Discovered(ms)
    modifies (set m | m in ms)`deps, (set m | m in ms)`depsVersion
    modifies (set m | m in ms)`version, (set m | m in ms)`require
    ensures Resolved(ms, old(RequireTable(ms)))
    ensures err.Some? ==> err.value.InterdependenciesFailed? || err.value.VersionUpdateFailed?
    ensures err.Some? && err.value.InterdependenciesFailed? ==> |ms| >= 2 && !Acyclic(ms)
    ensures err.Some? && err.value.VersionUpdateFailed? ==> !env.isValidVersion(version) && (|ms| < 2 || Acyclic(ms))
    ensures !env.isValidVersion(version) ==> err.Some?
    ensures err.Some? ==> VersionsKept(ms)
    ensures err == None ==>
      && multiset(order) == multiset(ms)
      && (|order| >= 2 ==> DepOrdered(order))
      && Bumped(ms, version, old(RequireTable(ms)))
  {
    Resolve(ms);
    var sorted := SortByDirectDeps(ms, |ms|);
    if sorted.Failure? {
      return Some(InterdependenciesFailed(sorted.error)), [];
    }
    order := sorted.value;
    SameMembers(order, ms);
    var verr := UpdateVersion(order, version, env);
    if verr.Some? {
      return Some(VersionUpdateFailed(verr.value)), order;
    }
    return None, order;
  }

  /** release once discovery has found at least one module: the ghost
      `order` is the order the modules were processed in, and `done` counts
      the modules whose go.mod and go.sum were both updated. */
  method ReleaseModules(ms: seq<Module>, version: string, dry: bool, env: Env, disk: Disk)
    returns (err: Option<ReleaseError>, ghost order: seq<Module>, ghost done: nat, ghost runs: seq<Run>)
    requires ms != [] && Discovered(ms)
    requires StrictOrder(env.versionBefore)
    modifies disk, ms
    ensures Resolved(ms, old(RequireTable(ms)))
    ensures err.Some? ==> !err.value.FetchModulesFailed? && !err.value.NoModulesFound?
    ensures err.Some? && err.value.InterdependenciesFailed? ==> !Acyclic(ms)
    ensures err.Some? && err.value.VersionUpdateFailed? ==> !env.isValidVersion(version) && (|ms| < 2 || Acyclic(ms))
    ensures err.Some? && Early(err.value) ==> DiskKept(disk) && VersionsKept(ms) && HashesKept(ms, [], old(HashTable(ms)))
    ensures !env.isValidVersion(version) ==> err.Some? && Early(err.value)
    ensures dry ==> DiskKept(disk)
    ensures err.None? || !Early(err.value) ==>
      && multiset(order) == multiset(ms)
      && (|order| >= 2 ==> DepOrdered(order))
      && Bumped(ms, version, old(RequireTable(ms)))
    ensures err == None ==> done == |order|
    ensures err == None && !dry ==> disk.written == old(disk.written) + Plan(order)
    ensures err.Some? && !Early(err.value) ==>
      && done < |order|
      && err.value.prefix == order[done].prefix && err.value.fileName == order[done].fileName
    ensures err.Some? && !Early(err.value) && !dry ==>
      done < |order| && disk.written == old(disk.written) + WrittenAt(order, done, err.value)
    ensures err.None? || !Early(err.value) ==>
      Published(ms, order, runs, dry, env, disk.unwritable, done, err, old(disk.files), old(HashTable(ms)), disk.files)
  {
    ghost var written0, files0, hashes0, require0 := disk.written, disk.files, HashTable(ms), RequireTable(ms);
    var sorted;
    err, sorted := Prepare(ms, version, env);
    assert HashesKept(ms, [], hashes0);
    order, done, runs := sorted, 0, [];
    if err.Some? {
      return;
    }
    err, done, runs := Publish(ms, sorted, dry, env, disk, written0, files0, hashes0, version, require0);
  }

  /** The file updates of a release, once the modules are in `order`: the
      modules go through UpdateFiles in that order, and with one module per
      path every module reads its dependencies after their own update. */
  method Publish(ms: seq<Module>, order: seq<Module>, dry: bool, env: Env, disk: Disk,
                 ghost written0: seq<string>, ghost files0: map<string, string>, ghost hashes0: map<Module, Hashes>,
                 ghost version: string, ghost require0: map<Module, seq<Require>>)
    returns (err: Option<ReleaseError>, ghost done: nat, ghost runs: seq<Run>)
    requires disk.written == written0 && disk.files == files0 && HashesKept(ms, [], hashes0)
    requires multiset(order) == multiset(ms) && Distinct(ms)
    requires |order| >= 2 ==> DepOrdered(order)
    requires forall m :: m in ms ==> |m.deps| == |m.depsVersion| && forall d :: d in m.deps ==> d in ms
    requires StrictOrder(env.versionBefore)
    modifies disk, (set m | m in ms)`goModHash, (set m | m in ms)`sums, (set m | m in ms)`dirHash
    ensures dry ==> disk.files == files0 && disk.written == written0
    ensures err == None ==> done == |order|
    ensures err == None && !dry ==> disk.written == written0 + Plan(order)
    ensures err.Some? ==>
      && done < |order| && (err.value.GoModFailed? || err.value.GoSumFailed?)
      && err.value.prefix == order[done].prefix && err.value.fileName == order[done].fileName
    ensures err.Some? && !dry ==> done < |order| && disk.written == written0 + WrittenAt(order, done, err.value)
    ensures old(Resolved(ms, require0)) ==> Resolved(ms, require0)
    ensures old(Bumped(ms, version, require0)) ==> Bumped(ms, version, require0)
    ensures Published(ms, order, runs, dry, env, disk.unwritable, done, err, files0, hashes0, disk.files)
  {
    SameMembers(order, ms);
    PermutationOnce(order, ms);
    if |ms| >= 2 && DistinctPaths(ms) {
      assert |order| == |multiset(order)| == |ms|;
      OrderedDepsBefore(order, ms);
    }
    assert HashesKept(order, [], hashes0);
    err, done, runs := PublishInOrder(ms, order, dry, env, disk, files0, hashes0);
  }

  /** Publish once `order` is known to list each module of `ms` once and,
      with one module per path, every module after its dependencies. */
  method PublishInOrder(ms: seq<Module>, order: seq<Module>, dry: bool, env: Env, disk: Disk,
                        ghost files0: map<string, string>, ghost hashes0: map<Module, Hashes>)
    returns (err: Option<ReleaseError>, ghost done: nat, ghost runs: seq<Run>)
    requires disk.files == files0 && HashesKept(order, [], hashes0)
    requires forall m :: m in order ==> m in ms
    requires forall m :: m in ms ==> |m.deps| == |m.depsVersion| && forall d :: d in m.deps ==> d in ms
    requires forall j :: 0 <= j < |order| ==> Once(order, j)
    requires |ms| >= 2 && DistinctPaths(ms) ==> forall j :: 0 <= j < |order| ==> DepsBefore(order, j)
    requires StrictOrder(env.versionBefore)
    modifies disk, (set m | m in ms)`goModHash, (set m | m in ms)`sums, (set m | m in ms)`dirHash
    ensures dry ==> disk.files == old(disk.files) && disk.written == old(disk.written)
    ensures err == None ==> done == |order|
    ensures err == None && !dry ==> disk.written == old(disk.written) + Plan(order)
    ensures err.Some? ==>
      && done < |order| && (err.value.GoModFailed? || err.value.GoSumFailed?)
      && err.value.prefix == order[done].prefix && err.value.fileName == order[done].fileName
    ensures err.Some? && !dry ==> done < |order| && disk.written == old(disk.written) + WrittenAt(order, done, err.value)
    ensures Published(ms, order, runs, dry, env, disk.unwritable, done, err, files0, hashes0, disk.files)
  {
    err, done, runs := UpdateFiles(order, dry, env, disk, hashes0);
    PublishedOf(ms, order, runs, dry, env, disk.unwritable, done, err, files0, hashes0, disk.files);
  }

  /** What UpdateFiles promises for `order`, restated for a list whose
      modules are each listed once. */
  lemma PublishedOf(ms: seq<Module>, order: seq<Module>, runs: seq<Run>, dry: bool, env: Env, unwritable: set<string>,
                    done: nat, err: Option<ReleaseError>, files0: map<string, string>, hashes0: map<Module, Hashes>,
                    files: map<string, string>)
    requires forall m :: m in order ==> m in ms
    requires forall m :: m in ms ==> |m.deps| == |m.depsVersion| && forall d :: d in m.deps ==> d in ms
    requires forall j :: 0 <= j < |order| ==> Once(order, j)
    requires |ms| >= 2 && DistinctPaths(ms) ==> forall j :: 0 <= j < |order| ==> DepsBefore(order, j)
    requires err == None ==> done == |order|
    requires err.Some? ==> done < |order|
    requires |runs| == (if err == None then |order| else done + 1)
    requires forall j {:trigger Ran(order[j], State(order[j]), runs[j], dry, env, unwritable, ErrAt(j, done, err))} ::
      0 <= j < |runs| && Once(order, j) ==> Ran(order[j], State(order[j]), runs[j], dry, env, unwritable, ErrAt(j, done, err))
    requires forall j :: 0 <= j < |runs| && Once(order, j) ==> order[j] in hashes0 && StartedFrom(runs[j], hashes0[order[j]])
    requires forall j :: 0 <= j < |runs| && DepsBefore(order, j) ==> runs[j].pins == PinsOf(order[j].deps, order[j].depsVersion)
    requires Chained(files0, runs, files)
    requires HashesKept(order, order[..|runs|], hashes0)
    ensures Published(ms, order, runs, dry, env, unwritable, done, err, files0, hashes0, files)
  {
  }

  /** A release of one module that does not require itself: its go.sum
      update swaps exactly the entries of its own dependencies. */
  lemma LonePins(m: Module, ms: seq<Module>, runs: seq<Run>, dry: bool, env: Env, unwritable: set<string>,
                 done: nat, err: Option<ReleaseError>, files0: map<string, string>, hashes0: map<Module, Hashes>,
                 files: map<string, string>)
    requires Published(ms, [m], runs, dry, env, unwritable, done, err, files0, hashes0, files)
    requires m !in m.deps
    ensures |runs| == 1 && runs[0].pins == PinsOf(m.deps, m.depsVersion)
  {
    assert DepsBefore([m], 0);
  }

  /** No two modules share a module path. */
  predicate DistinctPaths(ms: seq<Module>)
  {
    forall i, j :: 0 <= i < j < |ms| ==> ms[i].path != ms[j].path
  }

  /** A list of distinct modules holds each module at most once. */
  lemma {:induction false} DistinctCount(s: seq<Module>, x: Module)
    requires Distinct(s)
    ensures multiset(s)[x] <= 1
    decreases |s|
  {
    if s != [] {
      var init := s[..|s| - 1];
      forall k | 0 <= k < |init|
        ensures Once(init, k)
      {
        assert Once(s, k);
      }
      DistinctCount(init, x);
      assert Once(s, |s| - 1);
      assert s == init + [s[|s| - 1]];
    }
  }

  /** A rearrangement of distinct modules lists each module once. */
  lemma PermutationOnce(order: seq<Module>, ms: seq<Module>)
    requires multiset(order) == multiset(ms) && Distinct(ms)
    ensures forall j :: 0 <= j < |order| ==> Once(order, j)
  {
    forall j, k | 0 <= j < |order| && 0 <= k < |order| && k != j
      ensures order[k] != order[j]
    {
      if order[k] == order[j] {
        var lo, hi := if j < k then j else k, if j < k then k else j;
        assert order == order[..hi] + [order[hi]] + order[hi + 1..];
        assert order[lo] in order[..hi];
        DistinctCount(ms, order[j]);
        assert false;
      }
    }
  }

  /** In dependency order, with one module per path and every dependency a
      listed module, each module's dependencies come before it, and so none
      is processed at or after it. */
  lemma OrderedDepsBefore(order: seq<Module>, ms: seq<Module>)
    requires multiset(order) == multiset(ms) && DepOrdered(order) && DistinctPaths(ms)
    requires forall j :: 0 <= j < |order| ==> Once(order, j)
    requires forall m :: m in ms ==> forall d :: d in m.deps ==> d in ms
    ensures forall j :: 0 <= j < |order| ==> DepsBefore(order, j) && forall d :: d in order[j].deps ==> d in order[..j]
  {
    forall j, d | 0 <= j < |order| && d in order[j].deps
      ensures d in order[..j] && d !in order[j..]
    {
      assert order[j] in multiset(ms);
      assert Placed(order[j], order[..j]);
      var r :| r in order[..j] && r.path == d.path;
      assert r in multiset(ms) && d in ms;
      var a :| 0 <= a < |ms| && ms[a] == r;
      var b :| 0 <= b < |ms| && ms[b] == d;
      assert r == d;
      var k :| 0 <= k < j && order[k] == d;
      assert Once(order, k);
    }
  }

  /** release: `found` is what discovery returned; a discovery error and an
      empty monorepo stop the release before anything changes. */
  method Release(found: Result<seq<Module>, string>, version: string, dry: bool, env: Env, disk: Disk)
    returns (err: Option<ReleaseError>, ghost order: seq<Module>, ghost done: nat, ghost runs: seq<Run>)
    requires found.Success? ==> Discovered(found.value)
    requires StrictOrder(env.versionBefore)
    modifies disk, if found.Success? then found.value else []
    ensures found.Failure? ==> err == Some(FetchModulesFailed(found.error)) && DiskKept(disk)
    ensures found == Success([]) ==> err == Some(NoModulesFound) && DiskKept(disk)
    ensures found.Success? && found.value != [] ==>
      && Resolved(found.value, old(RequireTable(found.value)))
      && (err.Some? ==> !err.value.FetchModulesFailed? && !err.value.NoModulesFound?)
      && (err.Some? && err.value.InterdependenciesFailed? ==> !Acyclic(found.value))
      && (err.Some? && Early(err.value) ==> DiskKept(disk) && VersionsKept(found.value) && HashesKept(found.value, [], old(HashTable(found.value))))
      && (err.None? || !Early(err.value) ==>
            && multiset(order) == multiset(found.value)
            && (|order| >= 2 ==> DepOrdered(order))
            && Bumped(found.value, version, old(RequireTable(found.value)))
            && Published(found.value, order, runs, dry, env, disk.unwritable, done, err,
                         old(disk.files), old(HashTable(found.value)), disk.files))
    ensures err.Some? && err.value.VersionUpdateFailed? ==>
      !env.isValidVersion(version) && found.Success? && (|found.value| < 2 || Acyclic(found.value))
    ensures !env.isValidVersion(version) ==> err.Some? && Early(err.value)
    ensures dry ==> DiskKept(disk)
    ensures err == None ==> done == |order|
    ensures err == None && !dry ==> disk.written == old(disk.written) + Plan(order)
    ensures err.Some? && !Early(err.value) ==>
      && done < |order|
      && err.value.prefix == order[done].prefix && err.value.fileName == order[done].fileName
    ensures err.Some? && !Early(err.value) && !dry ==>
      done < |order| && disk.written == old(disk.written) + WrittenAt(order, done, err.value)
  {
    if found.Failure? {
      return Some(FetchModulesFailed(found.error)), [], 0, [];
    }
    if |found.value| == 0 {
      return Some(NoModulesFound), [], 0, [];
    }
    err, order, done, runs := ReleaseModules(found.value, version, dry, env, disk);
  }
}
