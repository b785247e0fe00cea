/** The part of a go.mod file the release engine touches: the module's own
    path and version and its `require` list, and the stand-in for
    `modfile.File.AddRequire` from golang.org/x/mod. As that library documents
    it, AddRequire sets the version of the first `require` line for the path,
    removes every other line for the same path, and appends a new line when
    there is none. */
module ModFile {

  /** One `require` line: a module path and the version it is pinned to. */
  datatype Require = Require(path: string, version: string)

  /** What `modfile.File.Format` renders: module path, module version and
      the `require` lines in file order. */
  datatype Manifest = Manifest(path: string, version: string, require: seq<Require>)

  /** Walks the lines once: the first line for `p` gets version `v` while
      `need` holds, later lines for `p` are dropped, and a line is appended
      at the end when none was found. */
  function PinFrom(rs: seq<Require>, p: string, v: string, need: bool): seq<Require>
    decreases |rs|
  {
    if rs == [] then
      (if need then [Require(p, v)] else [])
    else if rs[0].path == p then
      (if need then [Require(p, v)] else []) + PinFrom(rs[1..], p, v, false)
    else
      [rs[0]] + PinFrom(rs[1..], p, v, need)
  }

  function AddRequire(rs: seq<Require>, p: string, v: string): seq<Require>
  {
    PinFrom(rs, p, v, true)
  }

  /** AddRequire for each path of `ps` in turn, as UpdateVersion does for a
      module's dependencies. */
  function AddRequires(rs: seq<Require>, ps: seq<string>, v: string): seq<Require>
    decreases |ps|
  {
    if ps == [] then rs
    else AddRequire(AddRequires(rs, ps[..|ps| - 1], v), ps[|ps| - 1], v)
  }

  /** How many lines name path `p`. */
  function Count(rs: seq<Require>, p: string): nat
    decreases |rs|
  {
    if rs == [] then 0
    else (if rs[0].path == p then 1 else 0) + Count(rs[1..], p)
  }

  /** Exactly one line names `p`, and it pins version `v`. */
  predicate Pinned(rs: seq<Require>, p: string, v: string)
  {
    Count(rs, p) == 1 && forall r :: r in rs && r.path == p ==> r.version == v
  }

  /** The lines whose path is not in `ps`, in order. */
  function Others(rs: seq<Require>, ps: set<string>): seq<Require>
    decreases |rs|
  {
    if rs == [] then []
    else (if rs[0].path in ps then [] else [rs[0]]) + Others(rs[1..], ps)
  }

  lemma {:induction false} PinFromCount(rs: seq<Require>, p: string, v: string, need: bool)
    ensures Count(PinFrom(rs, p, v, need), p) == if need then 1 else 0
    ensures forall r :: r in PinFrom(rs, p, v, need) && r.path == p ==> r.version == v
    decreases |rs|
  {
    if rs != [] {
      PinFromCount(rs[1..], p, v, if rs[0].path == p then false else need);
      var tail := PinFrom(rs[1..], p, v, if rs[0].path == p then false else need);
      if rs[0].path == p {
        var head: seq<Require> := if need then [Require(p, v)] else [];
        assert PinFrom(rs, p, v, need) == head + tail;
        CountAppend(head, tail, p);
      } else {
        assert PinFrom(rs, p, v, need) == [rs[0]] + tail;
        CountAppend([rs[0]], tail, p);
      }
    }
  }

  lemma {:induction false} CountAppend(a: seq<Require>, b: seq<Require>, p: string)
    ensures Count(a + b, p) == Count(a, p) + Count(b, p)
    decreases |a|
  {
    if a != [] {
      assert (a + b)[1..] == a[1..] + b;
      CountAppend(a[1..], b, p);
    } else {
      assert a + b == b;
    }
  }

  /** After AddRequire, exactly one line names `p` and it pins `v`. */
  lemma AddRequirePins(rs: seq<Require>, p: string, v: string)
    ensures Pinned(AddRequire(rs, p, v), p, v)
  {
    PinFromCount(rs, p, v, true);
  }

  /** AddRequire leaves every line for another path where it was. */
  lemma {:induction false} PinFromOthers(rs: seq<Require>, p: string, v: string, need: bool, ps: set<string>)
    requires p in ps
    ensures Others(PinFrom(rs, p, v, need), ps) == Others(rs, ps)
    decreases |rs|
  {
    if rs != [] {
      var need' := if rs[0].path == p then false else need;
      PinFromOthers(rs[1..], p, v, need', ps);
      var tail := PinFrom(rs[1..], p, v, need');
      var head: seq<Require> := if rs[0].path == p then (if need then [Require(p, v)] else []) else [rs[0]];
      assert PinFrom(rs, p, v, need) == head + tail;
      OthersAppend(head, tail, ps);
    } else if need {
      assert Others([Require(p, v)], ps) == [] + Others([], ps);
    }
  }

  lemma {:induction false} OthersAppend(a: seq<Require>, b: seq<Require>, ps: set<string>)
    ensures Others(a + b, ps) == Others(a, ps) + Others(b, ps)
    decreases |a|
  {
    if a != [] {
      assert (a + b)[1..] == a[1..] + b;
      OthersAppend(a[1..], b, ps);
    } else {
      assert a + b == b;
    }
  }

  /** Another path's count does not change under AddRequire. */
  lemma {:induction false} PinFromCountOther(rs: seq<Require>, p: string, v: string, need: bool, q: string)
    requires q != p
    ensures Count(PinFrom(rs, p, v, need), q) == Count(rs, q)
    ensures forall r :: r in PinFrom(rs, p, v, need) && r.path == q ==> r in rs
    decreases |rs|
  {
    if rs != [] {
      var need' := if rs[0].path == p then false else need;
      PinFromCountOther(rs[1..], p, v, need', q);
      var tail := PinFrom(rs[1..], p, v, need');
      var head: seq<Require> := if rs[0].path == p then (if need then [Require(p, v)] else []) else [rs[0]];
      assert PinFrom(rs, p, v, need) == head + tail;
      CountAppend(head, tail, q);
      forall r | r in PinFrom(rs, p, v, need) && r.path == q
        ensures r in rs
      {
        if r in head {
          assert r == rs[0];
        } else {
          assert r in tail;
          assert r in rs[1..];
        }
      }
    }
  }

  /** A line already pinned to `v` makes AddRequire(p, v) change nothing. */
  lemma {:induction false} PinFromFixed(rs: seq<Require>, p: string, v: string, need: bool)
    requires Count(rs, p) == (if need then 1 else 0)
    requires forall r :: r in rs && r.path == p ==> r.version == v
    ensures PinFrom(rs, p, v, need) == rs
    decreases |rs|
  {
    if rs != [] {
      assert rs[0] in rs;
      assert forall r :: r in rs[1..] ==> r in rs;
      if rs[0].path == p {
        assert rs[0] == Require(p, v);
      }
      PinFromFixed(rs[1..], p, v, if rs[0].path == p then false else need);
      assert rs == [rs[0]] + rs[1..];
    }
  }

  /** Every path of `ps` ends up pinned to `v`. */
  lemma {:induction false} AddRequiresPins(rs: seq<Require>, ps: seq<string>, v: string)
    ensures forall p :: p in ps ==> Pinned(AddRequires(rs, ps, v), p, v)
    decreases |ps|
  {
    if ps != [] {
      var init := ps[..|ps| - 1];
      var last := ps[|ps| - 1];
      var mid := AddRequires(rs, init, v);
      AddRequiresPins(rs, init, v);
      AddRequirePins(mid, last, v);
      forall p | p in ps
        ensures Pinned(AddRequires(rs, ps, v), p, v)
      {
        if p != last {
          assert p in init by {
            var i :| 0 <= i < |ps| && ps[i] == p;
            assert init[i] == p;
          }
          PinFromCountOther(mid, last, v, true, p);
        }
      }
    }
  }

  /** The lines for paths outside `keep`, which holds every path of `ps`,
      are kept, in order. */
  lemma {:induction false} AddRequiresOthers(rs: seq<Require>, ps: seq<string>, v: string, keep: set<string>)
    requires forall p :: p in ps ==> p in keep
    ensures Others(AddRequires(rs, ps, v), keep) == Others(rs, keep)
    decreases |ps|
  {
    if ps != [] {
      var init := ps[..|ps| - 1];
      assert forall p :: p in init ==> p in ps;
      AddRequiresOthers(rs, init, v, keep);
      PinFromOthers(AddRequires(rs, init, v), ps[|ps| - 1], v, true, keep);
    }
  }

  lemma {:induction false} AddRequiresFixed(rs: seq<Require>, ps: seq<string>, v: string)
    requires forall p :: p in ps ==> Pinned(rs, p, v)
    ensures AddRequires(rs, ps, v) == rs
    decreases |ps|
  {
    if ps != [] {
      var init := ps[..|ps| - 1];
      assert forall p :: p in init ==> p in ps;
      AddRequiresFixed(rs, init, v);
      assert ps[|ps| - 1] in ps;
      PinFromFixed(rs, ps[|ps| - 1], v, true);
    }
  }

  /** Pinning the same paths to the same version twice is pinning them once;
      this is what makes a module listed twice harmless to UpdateVersion. */
  lemma AddRequiresIdempotent(rs: seq<Require>, ps: seq<string>, v: string)
    ensures AddRequires(AddRequires(rs, ps, v), ps, v) == AddRequires(rs, ps, v)
  {
    AddRequiresPins(rs, ps, v);
    AddRequiresFixed(AddRequires(rs, ps, v), ps, v);
  }
}
