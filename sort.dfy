/** modules.SortByDirectDeps: orders the modules so that each comes after
    the modules it depends on, matching dependencies by path, in at most a
    given number of rounds. */
module ModuleSort {
  import opened Wrappers
  import opened Modules

  datatype SortError = MaxIterReached

  /** Some module of `s` has path `p`. */
  predicate HasPath(s: seq<Module>, p: string)
  {
    exists r :: r in s && r.path == p
  }

  /** Every dependency of `n` has its path among `resolved`. */
  ghost predicate Placed(n: Module, resolved: seq<Module>)
    reads n
  {
    forall d :: d in n.deps ==> HasPath(resolved, d.path)
  }

  /** Every module comes after a module with each of its dependencies'
      paths. */
  ghost predicate DepOrdered(s: seq<Module>)
    reads s
  {
    forall i {:trigger s[..i]} :: 0 <= i < |s| ==> Placed(s[i], s[..i])
  }

  /** `rank` numbers the modules so that every dependency of a module is
      matched, by path, by a listed module of lower rank. */
  ghost predicate Ranked(nodes: seq<Module>, rank: seq<nat>)
    reads nodes
  {
    && |rank| == |nodes|
    && forall i, d :: 0 <= i < |nodes| && d in nodes[i].deps ==>
         exists j :: 0 <= j < |nodes| && nodes[j].path == d.path && rank[j] < rank[i]
  }

  /** The dependency graph, read by path, has no cycle and no dependency
      outside the list. */
  ghost predicate Acyclic(nodes: seq<Module>)
    reads nodes
  {
    exists rank :: Ranked(nodes, rank)
  }

  /** Ascending number of dependencies; nothing is said about modules with
      equally many. */
  ghost predicate ByDepCount(s: seq<Module>)
    reads s
  {
    forall i, j :: 0 <= i < j < |s| ==> |s[i].deps| <= |s[j].deps|
  }

  lemma {:induction false} FewestDepsExists(s: seq<Module>)
    requires s != []
    ensures exists m :: 0 <= m < |s| && forall j :: 0 <= j < |s| ==> |s[m].deps| <= |s[j].deps|
    decreases |s|
  {
    if |s| > 1 {
      var init := s[..|s| - 1];
      FewestDepsExists(init);
      var m :| 0 <= m < |init| && forall j :: 0 <= j < |init| ==> |init[m].deps| <= |init[j].deps|;
      if |s[|s| - 1].deps| < |s[m].deps| {
        assert forall j :: 0 <= j < |s| ==> |s[|s| - 1].deps| <= |s[j].deps|;
      } else {
        assert forall j :: 0 <= j < |s| ==> |s[m].deps| <= |s[j].deps|;
      }
    } else {
      assert forall j :: 0 <= j < |s| ==> |s[0].deps| <= |s[j].deps|;
    }
  }

  /** Takes out of `rest` one module with the fewest dependencies, any one
      of them. */
  method TakeFewest(rest: seq<Module>) returns (x: Module, left: seq<Module>)
    requires rest != []
    ensures multiset(rest) == multiset(left) + multiset{x}
    ensures forall y :: y in left ==> y in rest && |x.deps| <= |y.deps|
    ensures x in rest && |left| == |rest| - 1
  {
    FewestDepsExists(rest);
    var m :| 0 <= m < |rest| && forall j :: 0 <= j < |rest| ==> |rest[m].deps| <= |rest[j].deps|;
    x := rest[m];
    left := rest[..m] + rest[m + 1..];
    assert rest == rest[..m] + [x] + rest[m + 1..];
    forall y | y in left
      ensures y in rest && |x.deps| <= |y.deps|
    {
      assert y in multiset(left);
      assert y in multiset(rest);
    }
  }

  /** A module with at least as many dependencies as every module of `t`
      can follow them. */
  lemma ByDepCountAppend(t: seq<Module>, x: Module)
    requires ByDepCount(t) && forall i :: 0 <= i < |t| ==> |t[i].deps| <= |x.deps|
    ensures ByDepCount(t + [x])
  {
  }

  /** slices.SortFunc by ascending number of dependencies. The sort is not
      stable, so among modules with equally many dependencies any one may be
      taken next. */
  method SeedByDepCount(nodes: seq<Module>) returns (t: seq<Module>)
    ensures multiset(t) == multiset(nodes)
    ensures ByDepCount(t)
  {
    t := [];
    var rest := nodes;
    while rest != []
      invariant multiset(t) + multiset(rest) == multiset(nodes)
      invariant ByDepCount(t)
      invariant forall i, y :: 0 <= i < |t| && y in rest ==> |t[i].deps| <= |y.deps|
      decreases |rest|
    {
      var x;
      x, rest := TakeFewest(rest);
      ByDepCountAppend(t, x);
      t := t + [x];
    }
  }

  /** The search through `resolved` for a module with path `p`. */
  method ContainsPath(resolved: seq<Module>, p: string) returns (found: bool)
    ensures found <==> HasPath(resolved, p)
  {
    var i := 0;
    while i < |resolved|
      invariant 0 <= i <= |resolved|
      invariant forall j :: 0 <= j < i ==> resolved[j].path != p
    {
      if resolved[i].path == p {
        return true;
      }
      i := i + 1;
    }
    return false;
  }

  /** The check of every dependency of `n`, stopping at the first one not
      yet resolved. */
  method DepsResolved(n: Module, resolved: seq<Module>) returns (ok: bool)
    ensures ok <==> Placed(n, resolved)
  {
    var i := 0;
    while i < |n.deps|
      invariant 0 <= i <= |n.deps|
      invariant forall j :: 0 <= j < i ==> HasPath(resolved, n.deps[j].path)
    {
      var found := ContainsPath(resolved, n.deps[i].path);
      if !found {
        return false;
      }
      i := i + 1;
    }
    return true;
  }

  lemma PlacedGrows(n: Module, before: seq<Module>, after: seq<Module>)
    requires Placed(n, before) && before <= after
    ensures Placed(n, after)
  {
    forall d | d in n.deps
      ensures HasPath(after, d.path)
    {
      var r :| r in before && r.path == d.path;
      var i :| 0 <= i < |before| && before[i] == r;
      assert after[i] == r;
    }
  }

  lemma DepOrderedAppend(s: seq<Module>, n: Module)
    requires DepOrdered(s) && Placed(n, s)
    ensures DepOrdered(s + [n])
  {
    var t := s + [n];
    forall i | 0 <= i < |t|
      ensures Placed(t[i], t[..i])
    {
      if i < |s| {
        assert t[..i] == s[..i];
      } else {
        assert t[..i] == s;
      }
    }
  }

  /** One module of a round: appended to the resolved list when every
      dependency is already there (at once when it has none), and kept for
      the next round otherwise. */
  method Place(resolved0: seq<Module>, next0: seq<Module>, n: Module, ghost base: seq<Module>) returns (resolved: seq<Module>, next: seq<Module>)
    requires DepOrdered(resolved0) && base <= resolved0
    ensures DepOrdered(resolved) && resolved0 <= resolved
    ensures multiset(resolved) + multiset(next) == multiset(resolved0) + multiset(next0) + multiset{n}
    ensures Placed(n, resolved0) ==> resolved == resolved0 + [n] && next == next0
    ensures !Placed(n, resolved0) ==> resolved == resolved0 && next == next0 + [n]
    ensures Placed(n, base) ==> next == next0
  {
    if Placed(n, base) {
      PlacedGrows(n, base, resolved0);
    }
    var ok := true;
    if |n.deps| != 0 {
      ok := DepsResolved(n, resolved0);
    }
    if ok {
      DepOrderedAppend(resolved0, n);
      resolved, next := resolved0 + [n], next0;
    } else {
      resolved, next := resolved0, next0 + [n];
    }
  }

  /** A sub-multiset that misses an element is shorter. */
  lemma Shorter(a: seq<Module>, b: seq<Module>, x: Module)
    requires multiset(a) <= multiset(b) && x in b && x !in a
    ensures |a| < |b|
  {
    var rest := multiset(b) - multiset(a);
    assert multiset(b) == multiset(a) + rest;
    assert x in multiset(b) && x !in multiset(a);
    assert x in rest;
    assert |multiset(b)| == |multiset(a)| + |rest|;
  }

  /** One round of the fixed-point loop over the modules still unresolved:
      each is placed when all its dependencies are resolved so far, and kept
      for the next round otherwise. A module whose dependencies were resolved
      before the round is always placed. */
  method Round(resolved0: seq<Module>, unresolved: seq<Module>) returns (resolved: seq<Module>, next: seq<Module>)
    requires DepOrdered(resolved0)
    ensures resolved0 <= resolved && DepOrdered(resolved)
    ensures multiset(resolved) + multiset(next) == multiset(resolved0) + multiset(unresolved)
    ensures |next| <= |unresolved|
    ensures forall y :: y in next ==> !Placed(y, resolved0)
    ensures (exists x :: x in unresolved && Placed(x, resolved0)) ==> |next| < |unresolved|
  {
    resolved := resolved0;
    next := [];
    var k := 0;
    while k < |unresolved|
      invariant 0 <= k <= |unresolved|
      invariant resolved0 <= resolved && DepOrdered(resolved)
      invariant multiset(resolved) + multiset(next) == multiset(resolved0) + multiset(unresolved[..k])
      invariant |next| <= k
      invariant multiset(next) <= multiset(unresolved[..k])
      invariant forall y :: y in next ==> !Placed(y, resolved0)
    {
      var n := unresolved[k];
      assert unresolved[..k + 1] == unresolved[..k] + [n];
      assert multiset(unresolved[..k + 1]) == multiset(unresolved[..k]) + multiset{n};
      resolved, next := Place(resolved, next, n, resolved0);
      k := k + 1;
    }
    assert unresolved[..k] == unresolved;
    FewerLeft(next, unresolved, resolved0);
  }

  /** The modules kept for the next round are fewer than those the round
      started with when one of those was ready to be placed. */
  lemma FewerLeft(next: seq<Module>, unresolved: seq<Module>, resolved0: seq<Module>)
    requires multiset(next) <= multiset(unresolved)
    requires forall y :: y in next ==> !Placed(y, resolved0)
    ensures (exists x :: x in unresolved && Placed(x, resolved0)) ==> |next| < |unresolved|
  {
    if x :| x in unresolved && Placed(x, resolved0) {
      Shorter(next, unresolved, x);
    }
  }

  /** While modules remain and the graph has no cycle, the remaining module
      of least rank has all its dependencies resolved. */
  lemma SomeReady(nodes: seq<Module>, rank: seq<nat>, resolved: seq<Module>, unresolved: seq<Module>)
    requires Ranked(nodes, rank)
    requires multiset(resolved) + multiset(unresolved) == multiset(nodes)
    requires unresolved != []
    ensures exists x :: x in unresolved && Placed(x, resolved)
  {
    assert unresolved[0] in multiset(nodes);
    var best :| 0 <= best < |nodes| && nodes[best] == unresolved[0];
    var k := 0;
    while k < |nodes|
      invariant 0 <= k <= |nodes|
      invariant 0 <= best < |nodes| && nodes[best] in unresolved
      invariant forall j :: 0 <= j < k && nodes[j] in unresolved ==> rank[best] <= rank[j]
    {
      if nodes[k] in unresolved && rank[k] < rank[best] {
        best := k;
      }
      k := k + 1;
    }
    var x := nodes[best];
    forall d | d in x.deps
      ensures HasPath(resolved, d.path)
    {
      var j :| 0 <= j < |nodes| && nodes[j].path == d.path && rank[j] < rank[best];
      assert nodes[j] !in unresolved;
      assert nodes[j] in multiset(nodes);
      assert nodes[j] !in multiset(unresolved);
      assert nodes[j] in resolved;
    }
  }

  /** The first position of `x` in `s`. */
  ghost function FirstIndex(s: seq<Module>, x: Module): (k: nat)
    requires x in s
    ensures k < |s| && s[k] == x
    ensures forall i :: 0 <= i < |s| && s[i] == x ==> k <= i
  {
    if s[0] == x then 0
    else
      var k := FirstIndex(s[1..], x);
      assert forall i :: 1 <= i < |s| ==> s[i] == s[1..][i - 1];
      k + 1
  }

  /** A rearrangement of the modules in dependency order shows the graph has
      no cycle: rank each module by its first position in it. */
  lemma OrderedAcyclic(s: seq<Module>, nodes: seq<Module>)
    requires multiset(s) == multiset(nodes) && DepOrdered(s)
    ensures Acyclic(nodes)
  {
    forall i | 0 <= i < |nodes|
      ensures nodes[i] in s
    {
      assert nodes[i] in multiset(nodes);
    }
    var rank := seq(|nodes|, i requires 0 <= i < |nodes| && nodes[i] in s => FirstIndex(s, nodes[i]));
    forall i, d | 0 <= i < |nodes| && d in nodes[i].deps
      ensures exists j :: 0 <= j < |nodes| && nodes[j].path == d.path && rank[j] < rank[i]
    {
      var k := rank[i];
      assert Placed(s[k], s[..k]);
      var r :| r in s[..k] && r.path == d.path;
      var k' :| 0 <= k' < k && s[..k][k'] == r;
      assert s[k'] == r;
      assert r in multiset(nodes);
      var j :| 0 <= j < |nodes| && nodes[j] == r;
      assert rank[j] <= k';
    }
    assert Ranked(nodes, rank);
  }

  /** modules.SortByDirectDeps. Fewer than two modules come back as they
      are, unchecked. Otherwise a successful result lists every module once
      and in dependency order; with at least as many rounds as modules, a
      graph with no cycle always succeeds, and one with a cycle always fails. */
  method SortByDirectDeps(nodes: seq<Module>, maxIter: int) returns (r: Result<seq<Module>, SortError>)
    ensures |nodes| < 2 ==> r == Success(nodes)
    ensures |nodes| >= 2 && r.Success? ==> multiset(r.value) == multiset(nodes) && DepOrdered(r.value)
    ensures |nodes| >= 2 && r.Failure? ==> r.error == MaxIterReached
    ensures |nodes| >= 2 && !Acyclic(nodes) ==> r.Failure?
    ensures maxIter >= |nodes| && Acyclic(nodes) ==> r.Success?
  {
    if |nodes| < 2 {
      return Success(nodes);
    }
    var seeded := SeedByDepCount(nodes);
    var resolved: seq<Module> := [];
    var unresolved := seeded;
    ghost var acyclic := Acyclic(nodes);
    ghost var rank: seq<nat> := [];
    if acyclic {
      rank :| Ranked(nodes, rank);
    }
    var round := 0;
    while round < maxIter
      invariant 0 <= round
      invariant unresolved != []
      invariant DepOrdered(resolved)
      invariant multiset(resolved) + multiset(unresolved) == multiset(nodes)
      invariant acyclic ==> |unresolved| + round <= |nodes|
      decreases maxIter - round
    {
      if acyclic {
        SomeReady(nodes, rank, resolved, unresolved);
      }
      var next;
      resolved, next := Round(resolved, unresolved);
      if next == [] {
        OrderedAcyclic(resolved, nodes);
        return Success(resolved);
      }
      unresolved := next;
      round := round + 1;
    }
    return Failure(MaxIterReached);
  }
}
