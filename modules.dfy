/** The monorepo's modules and the steps that update them: resolving each
    module's `require` lines against its siblings, moving every module to the
    release version, and rewriting each go.mod and go.sum. */
module Modules {
  import opened Wrappers
  import opened FileSystem
  import opened GoSum
  import opened ModFile
  import SumUpdate

  /** A failure reported by a hashing collaborator (dirhash). */
  datatype HashError = HashError(reason: string)

  /** The collaborators outside the monorepo tool, each a function of what it
      reads:
      - `isValidVersion`: semver.IsValid;
      - `versionBefore`: the version order module.Sort uses;
      - `format`: modfile's Cleanup followed by Format;
      - `goModHash`: dirhash.Hash1 over a single go.mod file;
      - `dirHash`: dirhash.HashDir of a directory under a module identity,
        given the files on disk. */
  datatype Env = Env(
    isValidVersion: string -> bool,
    versionBefore: (string, string) -> bool,
    format: Manifest -> string,
    goModHash: string -> Result<string, HashError>,
    dirHash: (map<string, string>, string, string) -> Result<string, HashError>)

  datatype VersionError = InvalidVersion(version: string)

  datatype GoModError =
    | GoModHashFailed(hashError: HashError)
    | GoModWriteFailed(ioError: IoError)

  datatype GoSumFailure =
    | Inconsistent(cause: SumUpdate.GoSumError)
    | GoSumWriteFailed(ioError: IoError)
    | DirHashFailed(hashError: HashError)

  /** One module of the monorepo, found at `prefix/fileName`. Its path never
      changes; its version and `require` lines are rewritten by the release. */
  class Module {
    const prefix: string
    const fileName: string
    const path: string
    var version: string
    var require: seq<Require>
    var goModHash: string
    var dirHash: string
    var deps: seq<Module>
    var depsVersion: seq<string>
    var sums: Sums

    /** A module as discovery builds it: parsed go.mod and go.sum, no
        dependencies resolved yet, no hashes computed. */
    constructor (prefix: string, fileName: string, path: string, version: string, require: seq<Require>, sums: Sums)
      ensures this.prefix == prefix && this.fileName == fileName && this.path == path
      ensures this.version == version && this.require == require && this.sums == sums
      ensures goModHash == "" && dirHash == "" && deps == [] && depsVersion == []
    {
      this.prefix := prefix;
      this.fileName := fileName;
      this.path := path;
      this.version := version;
      this.require := require;
      this.sums := sums;
      goModHash := "";
      dirHash := "";
      deps := [];
      depsVersion := [];
    }

    /** The go.mod contents as modfile holds them. */
    function File(): Manifest
      reads this`version, this`require
    {
      Manifest(path, version, require)
    }
  }

  function Dir(m: Module): string
  {
    m.prefix + "/" + m.fileName
  }

  function GoModPath(m: Module): string
  {
    Dir(m) + "/go.mod"
  }

  function GoSumPath(m: Module): string
  {
    Dir(m) + "/go.sum"
  }

  /** The identity dirhash records for a module: path@version. */
  function Identity(m: Module): string
    reads m`version
  {
    m.path + "@" + m.version
  }

  function HashValue(h: Result<string, HashError>): string
  {
    if h.Success? then h.value else ""
  }

  /** The modules of `mods` whose path is `p`, in order. */
  function Hits(p: string, mods: seq<Module>): seq<Module>
    decreases |mods|
  {
    if mods == [] then []
    else Hits(p, mods[..|mods| - 1]) + (if mods[|mods| - 1].path == p then [mods[|mods| - 1]] else [])
  }

  /** The dependencies FetchDirectDeps appends for the lines `rs`: for each
      line in order, every module of `mods` with that line's path. */
  function DepsOf(rs: seq<Require>, mods: seq<Module>): seq<Module>
    decreases |rs|
  {
    if rs == [] then []
    else DepsOf(rs[..|rs| - 1], mods) + Hits(rs[|rs| - 1].path, mods)
  }

  /** `n` copies of `v`. */
  function Repeat(v: string, n: nat): (r: seq<string>)
    ensures |r| == n && forall i :: 0 <= i < n ==> r[i] == v
  {
    if n == 0 then [] else Repeat(v, n - 1) + [v]
  }

  /** The versions FetchDirectDeps appends alongside DepsOf. */
  function VersionsOf(rs: seq<Require>, mods: seq<Module>): seq<string>
    decreases |rs|
  {
    if rs == [] then []
    else
      var r := rs[|rs| - 1];
      VersionsOf(rs[..|rs| - 1], mods) + Repeat(r.version, |Hits(r.path, mods)|)
  }

  /** The paths of the given modules, in order. */
  function Paths(ms: seq<Module>): seq<string>
  {
    seq(|ms|, i requires 0 <= i < |ms| => ms[i].path)
  }

  /** What UpdateGoSum reads of each dependency before it starts. */
  function PinsOf(deps: seq<Module>, depsVersion: seq<string>): seq<SumUpdate.Pin>
    requires |deps| == |depsVersion|
    reads (set d | d in deps)`version, (set d | d in deps)`dirHash, (set d | d in deps)`goModHash
    decreases |deps|
  {
    if deps == [] then []
    else
      var n := |deps|;
      var d := deps[n - 1];
      PinsOf(deps[..n - 1], depsVersion[..n - 1])
        + [SumUpdate.Pin(d.path, d.version, depsVersion[n - 1], d.dirHash, d.goModHash)]
  }

  lemma {:induction false} HitsSound(p: string, mods: seq<Module>)
    ensures forall d :: d in Hits(p, mods) ==> d in mods && d.path == p
    ensures forall d :: d in mods && d.path == p ==> d in Hits(p, mods)
    decreases |mods|
  {
    if mods != [] {
      var init := mods[..|mods| - 1];
      HitsSound(p, init);
      assert mods == init + [mods[|mods| - 1]];
    }
  }

  /** FetchDirectDeps appends as many versions as dependencies. */
  lemma {:induction false} DepsOfLength(rs: seq<Require>, mods: seq<Module>)
    ensures |DepsOf(rs, mods)| == |VersionsOf(rs, mods)|
    decreases |rs|
  {
    if rs != [] {
      DepsOfLength(rs[..|rs| - 1], mods);
    }
  }

  /** Each appended dependency is a listed module named by some `require`
      line, and the version beside it is that line's version. */
  lemma {:induction false} DepsOfSound(rs: seq<Require>, mods: seq<Module>)
    ensures |DepsOf(rs, mods)| == |VersionsOf(rs, mods)|
    ensures forall i :: 0 <= i < |DepsOf(rs, mods)| ==>
      DepsOf(rs, mods)[i] in mods && Require(DepsOf(rs, mods)[i].path, VersionsOf(rs, mods)[i]) in rs
    decreases |rs|
  {
    if rs != [] {
      var init := rs[..|rs| - 1];
      var r := rs[|rs| - 1];
      DepsOfSound(init, mods);
      HitsSound(r.path, mods);
      var ds := DepsOf(rs, mods);
      var vs := VersionsOf(rs, mods);
      var n0 := |DepsOf(init, mods)|;
      forall i | 0 <= i < |ds|
        ensures ds[i] in mods && Require(ds[i].path, vs[i]) in rs
      {
        if i < n0 {
          assert ds[i] == DepsOf(init, mods)[i];
          assert vs[i] == VersionsOf(init, mods)[i];
          assert Require(ds[i].path, vs[i]) in init;
          assert forall x :: x in init ==> x in rs;
        } else {
          assert ds[i] == Hits(r.path, mods)[i - n0];
          assert vs[i] == r.version;
          assert ds[i] in Hits(r.path, mods);
          assert Require(ds[i].path, vs[i]) == r;
        }
      }
    }
  }

  /** Every pair of a `require` line and a listed module with its path is
      recorded: the module as a dependency, the line's version beside it. */
  lemma {:induction false} DepsOfComplete(rs: seq<Require>, mods: seq<Module>, r: Require, d: Module)
    requires r in rs && d in mods && d.path == r.path
    ensures exists i ::
      && 0 <= i < |DepsOf(rs, mods)| && 0 <= i < |VersionsOf(rs, mods)|
      && DepsOf(rs, mods)[i] == d && VersionsOf(rs, mods)[i] == r.version
    decreases |rs|
  {
    var init := rs[..|rs| - 1];
    var last := rs[|rs| - 1];
    var ds0, vs0 := DepsOf(init, mods), VersionsOf(init, mods);
    var hs := Hits(last.path, mods);
    var ds, vs := DepsOf(rs, mods), VersionsOf(rs, mods);
    assert ds == ds0 + hs;
    assert vs == vs0 + Repeat(last.version, |hs|);
    DepsOfLength(init, mods);
    if r in init {
      DepsOfComplete(init, mods, r, d);
      var i :| 0 <= i < |ds0| && ds0[i] == d && vs0[i] == r.version;
      assert ds[i] == d && vs[i] == r.version;
    } else {
      assert rs == init + [last];
      assert r == last;
      HitsSound(r.path, mods);
      var j :| 0 <= j < |hs| && hs[j] == d;
      assert ds[|ds0| + j] == d;
      assert vs[|ds0| + j] == r.version;
    }
  }

  /** The innermost loop of FetchDirectDeps: one `require` line against
      every listed module. */
  method AddHits(m: Module, r: Require, mods: seq<Module>)
    modifies m`deps, m`depsVersion
    ensures m.deps == old(m.deps) + Hits(r.path, mods)
    ensures m.depsVersion == old(m.depsVersion) + Repeat(r.version, |Hits(r.path, mods)|)
  {
    var l := 0;
    while l < |mods|
      invariant 0 <= l <= |mods|
      invariant m.deps == old(m.deps) + Hits(r.path, mods[..l])
      invariant m.depsVersion == old(m.depsVersion) + Repeat(r.version, |Hits(r.path, mods[..l])|)
    {
      var d := mods[l];
      assert mods[..l + 1][..l] == mods[..l];
      if r.path == d.path {
        m.deps := m.deps + [d];
        m.depsVersion := m.depsVersion + [r.version];
      }
      l := l + 1;
    }
    assert mods[..l] == mods;
  }

  /** One more `require` line. */
  lemma DepsOfNext(rs: seq<Require>, k: nat, mods: seq<Module>)
    requires k < |rs|
    ensures DepsOf(rs[..k + 1], mods) == DepsOf(rs[..k], mods) + Hits(rs[k].path, mods)
    ensures VersionsOf(rs[..k + 1], mods) == VersionsOf(rs[..k], mods) + Repeat(rs[k].version, |Hits(rs[k].path, mods)|)
  {
    assert rs[..k + 1][..k] == rs[..k];
  }

  /** The loops of FetchDirectDeps for one module. */
  method CollectDeps(m: Module, mods: seq<Module>)
    modifies m`deps, m`depsVersion
    ensures m.deps == old(m.deps) + DepsOf(m.require, mods)
    ensures m.depsVersion == old(m.depsVersion) + VersionsOf(m.require, mods)
  {
    var rs := m.require;
    var k := 0;
    while k < |rs|
      invariant 0 <= k <= |rs|
      invariant m.deps == old(m.deps) + DepsOf(rs[..k], mods)
      invariant m.depsVersion == old(m.depsVersion) + VersionsOf(rs[..k], mods)
    {
      DepsOfNext(rs, k, mods);
      AddHits(m, rs[k], mods);
      k := k + 1;
    }
    assert rs[..k] == rs;
  }

  /** modules.FetchDirectDeps: every module gains, for each of its `require`
      lines in order, every listed module with that line's path, and the
      line's version beside it. */
  method FetchDirectDeps(mods: seq<Module>)
    requires forall i, j :: 0 <= i < j < |mods| ==> mods[i] != mods[j]
    modifies (set m | m in mods)`deps, (set m | m in mods)`depsVersion
    ensures forall m :: m in mods ==>
      && m.deps == old(m.deps) + DepsOf(m.require, mods)
      && m.depsVersion == old(m.depsVersion) + VersionsOf(m.require, mods)
  {
    var i := 0;
    while i < |mods|
      invariant 0 <= i <= |mods|
      invariant forall j :: 0 <= j < i ==>
        && mods[j].deps == old(mods[j].deps) + DepsOf(mods[j].require, mods)
        && mods[j].depsVersion == old(mods[j].depsVersion) + VersionsOf(mods[j].require, mods)
      invariant forall j :: i <= j < |mods| ==>
        mods[j].deps == old(mods[j].deps) && mods[j].depsVersion == old(mods[j].depsVersion)
    {
      CollectDeps(mods[i], mods);
      i := i + 1;
    }
  }

  /** The inner loop of UpdateVersion for one module. */
  method PinDeps(m: Module, version: string)
    modifies m`require
    ensures m.require == AddRequires(old(m.require), Paths(m.deps), version)
  {
    var k := 0;
    while k < |m.deps|
      invariant 0 <= k <= |m.deps|
      invariant m.require == AddRequires(old(m.require), Paths(m.deps)[..k], version)
    {
      assert Paths(m.deps)[..k + 1][..k] == Paths(m.deps)[..k];
      m.require := AddRequire(m.require, m.deps[k].path, version);
      k := k + 1;
    }
    assert Paths(m.deps)[..k] == Paths(m.deps);
  }

  /** modules.UpdateVersion: an invalid version changes nothing; otherwise
      every module takes the version and pins each of its dependencies to it.
      A module listed twice ends up as if listed once. */
  method UpdateVersion(mods: seq<Module>, version: string, env: Env) returns (err: Option<VersionError>)
    modifies (set m | m in mods)`version, (set m | m in mods)`require
    ensures !env.isValidVersion(version) ==> err == Some(InvalidVersion(version))
    ensures !env.isValidVersion(version) ==> forall m :: m in mods ==> m.version == old(m.version) && m.require == old(m.require)
    ensures env.isValidVersion(version) ==> err == None
    ensures env.isValidVersion(version) ==> forall m :: m in mods ==>
      m.version == version && m.require == AddRequires(old(m.require), Paths(m.deps), version)
  {
    if !env.isValidVersion(version) {
      return Some(InvalidVersion(version));
    }
    var i := 0;
    while i < |mods|
      invariant 0 <= i <= |mods|
      invariant forall m :: m in mods ==>
        if m in mods[..i] then m.version == version && m.require == AddRequires(old(m.require), Paths(m.deps), version)
        else m.version == old(m.version) && m.require == old(m.require)
    {
      var m := mods[i];
      assert forall x :: x in mods[..i + 1] <==> x in mods[..i] || x == m;
      if m in mods[..i] {
        AddRequiresIdempotent(old(m.require), Paths(m.deps), version);
      }
      m.version := version;
      PinDeps(m, version);
      i := i + 1;
    }
    assert mods[..i] == mods;
    return None;
  }

  /** modules.UpdateGoMod: hashes the formatted go.mod and records the hash,
      on a dry run too; writes the file only when not dry. A failed hash
      leaves an empty hash and writes nothing. */
  method UpdateGoMod(m: Module, dry: bool, env: Env, disk: Disk) returns (err: Option<GoModError>)
    modifies m`goModHash, disk
    ensures var data := env.format(m.File()); var h := env.goModHash(data);
      && m.goModHash == HashValue(h)
      && (h.Failure? ==> err == Some(GoModHashFailed(h.error)))
      && (h.Failure? || dry ==> disk.files == old(disk.files) && disk.written == old(disk.written))
      && (h.Success? && dry ==> err == None)
      && (h.Success? && !dry && GoModPath(m) in disk.unwritable ==>
            err == Some(GoModWriteFailed(WriteFailed(GoModPath(m))))
            && disk.files == old(disk.files) && disk.written == old(disk.written))
      && (h.Success? && !dry && GoModPath(m) !in disk.unwritable ==>
            err == None
            && disk.files == old(disk.files)[GoModPath(m) := data]
            && disk.written == old(disk.written) + [GoModPath(m)])
  {
    var path := GoModPath(m);
    var data := env.format(m.File());
    var h := env.goModHash(data);
    m.goModHash := HashValue(h);
    if h.Failure? {
      return Some(GoModHashFailed(h.error));
    }
    if dry {
      return None;
    }
    var e := disk.WriteFile(path, data);
    if e.Some? {
      return Some(GoModWriteFailed(e.value));
    }
    return None;
  }

  /** modules.updateSum: the go.sum entry for dependency `d` moves from
      `version + suffix` to `d.version + suffix`, carrying exactly `[hash]`. */
  method UpdateSum(m: Module, d: Module, version: string, suffix: string, hash: string) returns (err: Option<SumUpdate.SumError>)
    modifies m`sums
    ensures var o := SumUpdate.UpdateSum(old(m.sums), d.path, d.version, version, suffix, hash);
      m.sums == o.sums && err == o.err
  {
    var md := ModVersion(d.path, d.version + suffix);
    if |hash| == 0 {
      return Some(SumUpdate.EmptyHash(d.path));
    }
    m.sums := m.sums[md := [hash]];
    // The table holds `md` now, so the source's check for an empty table
    // always passes.
    var mdOld := ModVersion(d.path, version + suffix);
    if mdOld !in m.sums {
      return Some(SumUpdate.MissingEntry(mdOld));
    }
    m.sums := m.sums - {mdOld};
    return None;
  }

  /** One pass of UpdateGoSum's loop: the directory-hash entry of `d`,
      then its go.mod entry. */
  method SwapDep(m: Module, d: Module, version: string) returns (err: Option<SumUpdate.GoSumError>)
    modifies m`sums
    ensures var o := SumUpdate.ApplyPin(old(m.sums), SumUpdate.Pin(d.path, d.version, version, d.dirHash, d.goModHash));
      m.sums == o.sums && err == o.err
  {
    var e := UpdateSum(m, d, version, "", d.dirHash);
    if e.Some? {
      return Some(SumUpdate.InconsistentDirHash(e.value));
    }
    e := UpdateSum(m, d, version, "/go.mod", d.goModHash);
    if e.Some? {
      return Some(SumUpdate.InconsistentGoModHash(e.value));
    }
    return None;
  }

  /** The loop of UpdateGoSum: both entries of every dependency, in order,
      stopping at the first failure. */
  method SwapDeps(m: Module) returns (err: Option<SumUpdate.GoSumError>)
    requires |m.deps| == |m.depsVersion|
    modifies m`sums
    ensures var o := old(SumUpdate.ApplyPins(m.sums, PinsOf(m.deps, m.depsVersion)));
      m.sums == o.sums && err == o.err
  {
    ghost var sums0 := m.sums;
    ghost var pins := PinsOf(m.deps, m.depsVersion);
    PinsOfShape(m.deps, m.depsVersion);
    var i := 0;
    while i < |m.deps|
      invariant 0 <= i <= |m.deps|
      invariant SumUpdate.ApplyPins(sums0, pins[..i]) == SumUpdate.Outcome(m.sums, None)
    {
      SumUpdate.ApplyPinsNext(sums0, pins, i);
      assert pins[i] == SumUpdate.Pin(m.deps[i].path, m.deps[i].version, m.depsVersion[i], m.deps[i].dirHash, m.deps[i].goModHash);
      var e := SwapDep(m, m.deps[i], m.depsVersion[i]);
      if e.Some? {
        SumUpdate.ApplyPinsStops(sums0, pins, i + 1);
        return e;
      }
      i := i + 1;
    }
    assert pins[..i] == pins;
    return None;
  }

  /** modules.UpdateGoSum: every dependency's entries are swapped in order,
      stopping at the first failure; then the table is formatted and written
      unless dry, and only then the module's directory hash is recomputed
      from the files on disk. */
  method UpdateGoSum(m: Module, dry: bool, env: Env, disk: Disk) returns (err: Option<GoSumFailure>)
    requires |m.deps| == |m.depsVersion|
    requires StrictOrder(env.versionBefore)
    modifies m`sums, m`dirHash, disk
    ensures var o := old(SumUpdate.ApplyPins(m.sums, PinsOf(m.deps, m.depsVersion)));
      && m.sums == o.sums
      && (o.err.Some? ==> err == Some(Inconsistent(o.err.value)) && m.dirHash == old(m.dirHash))
      && (o.err.Some? || dry ==> disk.files == old(disk.files) && disk.written == old(disk.written))
      && (o.err.None? && !dry && GoSumPath(m) in disk.unwritable ==>
            && err == Some(GoSumWriteFailed(WriteFailed(GoSumPath(m))))
            && m.dirHash == old(m.dirHash)
            && disk.files == old(disk.files) && disk.written == old(disk.written))
      && (o.err.None? && !dry && GoSumPath(m) !in disk.unwritable ==>
            && GoSumPath(m) in disk.files
            && IsFormatOf(disk.files[GoSumPath(m)], m.sums, env.versionBefore)
            && disk.files == old(disk.files)[GoSumPath(m) := disk.files[GoSumPath(m)]]
            && disk.written == old(disk.written) + [GoSumPath(m)])
      && (o.err.None? && (dry || GoSumPath(m) !in disk.unwritable) ==>
            var h := env.dirHash(disk.files, Dir(m), Identity(m));
            && m.dirHash == HashValue(h)
            && (h.Success? ==> err == None)
            && (h.Failure? ==> err == Some(DirHashFailed(h.error))))
  {
    var e := SwapDeps(m);
    if e.Some? {
      return Some(Inconsistent(e.value));
    }
    var data;
    ghost var keys;
    data, keys := Format(m.sums, env.versionBefore);
    if !dry {
      var e := disk.WriteFile(GoSumPath(m), data);
      if e.Some? {
        return Some(GoSumWriteFailed(e.value));
      }
    }
    var h := env.dirHash(disk.files, Dir(m), Identity(m));
    m.dirHash := HashValue(h);
    if h.Failure? {
      return Some(DirHashFailed(h.error));
    }
    return None;
  }

  /** PinsOf lists one entry per dependency, read off that dependency. */
  lemma {:induction false} PinsOfShape(deps: seq<Module>, depsVersion: seq<string>)
    requires |deps| == |depsVersion|
    ensures |PinsOf(deps, depsVersion)| == |deps|
    ensures forall i :: 0 <= i < |deps| ==>
      PinsOf(deps, depsVersion)[i] == SumUpdate.Pin(deps[i].path, deps[i].version, depsVersion[i], deps[i].dirHash, deps[i].goModHash)
    decreases |deps|
  {
    if deps != [] {
      var n := |deps|;
      PinsOfShape(deps[..n - 1], depsVersion[..n - 1]);
    }
  }
}
