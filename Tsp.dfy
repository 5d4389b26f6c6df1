/** src/algos/tsp1.py: a brute-force travelling-salesman solver. The graph is
    first reduced to a complete graph on the requested vertices whose weights
    are search distances, then every ordering of the vertices is scored as a
    closed tour and the first one with the strictly smallest score is kept. */
module Tsp {
  import opened Wrappers
  import opened Arith
  import opened Graphs

  /** The starting value of `best_score`: only tours scoring below it count. */
  const Unbeaten := 9999999

  // ======================================================= the reduced graph

  /** Some walk from s ends at x. */
  ghost predicate Reaches(N: Table, s: int, x: int) {
    exists steps :: IsWalk(N, s, steps) && End(s, steps) == x
  }

  /** The reduction fails at row i: vertex i has no neighbour list, or some
      later vertex cannot be reached from it. */
  ghost predicate RowFails(N: Table, vs: seq<int>, i: int)
    requires 0 <= i < |vs|
  {
    vs[i] !in N || exists j | i < j < |vs| :: !Reaches(N, vs[i], vs[j])
  }

  ghost predicate Unreduced(N: Table, vs: seq<int>) {
    exists i | 0 <= i < |vs| :: RowFails(N, vs, i)
  }

  /** ds[i] is a result of the search from vs[i], for every row computed. */
  ghost predicate Searched(N: Table, vs: seq<int>, ds: seq<map<int, int>>) {
    |ds| <= |vs| && forall i | 0 <= i < |ds| :: SearchResult(N, vs[i], None, Ok(ds[i]))
  }

  /** Each computed row's map has a distance for every later vertex. */
  predicate Covers(vs: seq<int>, ds: seq<map<int, int>>) {
    |ds| <= |vs| && forall i, j | 0 <= i < |ds| && i < j < |vs| :: vs[j] in ds[i]
  }

  /** The edges (v0, v1, dist[v1]) for v1 in rest, in order. */
  function RowEdges(v0: int, rest: seq<int>, dist: map<int, int>): seq<Edge>
    requires forall k | 0 <= k < |rest| :: rest[k] in dist
  {
    if rest == [] then []
    else RowEdges(v0, rest[..|rest| - 1], dist) + [(v0, rest[|rest| - 1], dist[rest[|rest| - 1]])]
  }

  /** The reduced edge list after the rows of ds: row i joins vs[i] to every
      later vertex at the distance its search found. */
  function PairEdges(vs: seq<int>, ds: seq<map<int, int>>): seq<Edge>
    requires Covers(vs, ds)
  {
    if ds == [] then []
    else
      var i := |ds| - 1;
      TailCovered(vs, ds, i);
      PairEdges(vs, ds[..i]) + RowEdges(vs[i], vs[i + 1..], ds[i])
  }

  lemma TailCovered(vs: seq<int>, ds: seq<map<int, int>>, i: nat)
    requires Covers(vs, ds) && i < |ds|
    ensures Covers(vs, ds[..i])
    ensures forall x | x in vs[i + 1..] :: x in ds[i] && x in vs
  {
    forall x | x in vs[i + 1..] ensures x in ds[i] && x in vs {
      var k :| 0 <= k < |vs[i + 1..]| && vs[i + 1..][k] == x;
      assert vs[i + 1 + k] == x;
    }
  }

  /** A row's edges join v0 to the members of rest and nothing else. */
  lemma {:induction false} RowLinks(v0: int, rest: seq<int>, dist: map<int, int>, x: int, y: int)
    requires forall k | 0 <= k < |rest| :: rest[k] in dist
    ensures LastWeight(RowEdges(v0, rest, dist), x, y).Some? ==>
      (x == v0 && y in rest) || (y == v0 && x in rest)
    ensures x == v0 && y != v0 && y in rest ==>
      LastWeight(RowEdges(v0, rest, dist), x, y) == Some(dist[y])
  {
    if rest != [] {
      RowLinks(v0, rest[..|rest| - 1], dist, x, y);
      var es := RowEdges(v0, rest, dist);
      assert es[..|es| - 1] == RowEdges(v0, rest[..|rest| - 1], dist);
      if y !in rest[..|rest| - 1] && y in rest {
        assert y == rest[|rest| - 1];
      }
    }
  }

  /** LastWeight looks at the later part of an edge list first. */
  lemma {:induction false} LastWeightAppend(a: seq<Edge>, b: seq<Edge>, x: int, y: int)
    ensures LastWeight(a + b, x, y) ==
      (if LastWeight(b, x, y).Some? then LastWeight(b, x, y) else LastWeight(a, x, y))
  {
    if b != [] {
      assert (a + b)[..|a + b| - 1] == a + b[..|b| - 1];
      LastWeightAppend(a, b[..|b| - 1], x, y);
    } else {
      assert a + b == a;
    }
  }

  /** Every reduced edge joins two listed vertices. */
  lemma {:induction false} PairEdgesIn(vs: seq<int>, ds: seq<map<int, int>>)
    requires Covers(vs, ds)
    ensures EndpointsIn(vs, PairEdges(vs, ds))
  {
    if ds != [] {
      var i := |ds| - 1;
      TailCovered(vs, ds, i);
      PairEdgesIn(vs, ds[..i]);
      RowIn(vs[i], vs[i + 1..], ds[i], vs);
    }
  }

  lemma {:induction false} RowIn(v0: int, rest: seq<int>, dist: map<int, int>, vs: seq<int>)
    requires forall k | 0 <= k < |rest| :: rest[k] in dist
    requires v0 in vs && forall k | 0 <= k < |rest| :: rest[k] in vs
    ensures EndpointsIn(vs, RowEdges(v0, rest, dist))
  {
    if rest != [] {
      RowIn(v0, rest[..|rest| - 1], dist, vs);
    }
  }

  /** For distinct vertices, the reduced edges join vs[i] and vs[j] (i < j)
      once, at the distance the search from vs[i] found. */
  lemma {:induction false} PairWeight(vs: seq<int>, ds: seq<map<int, int>>, i: nat, j: nat)
    requires Distinct(vs) && Covers(vs, ds) && i < |ds| && i < j < |vs|
    ensures LastWeight(PairEdges(vs, ds), vs[i], vs[j]) == Some(ds[i][vs[j]])
  {
    var m := |ds| - 1;
    TailCovered(vs, ds, m);
    var row := RowEdges(vs[m], vs[m + 1..], ds[m]);
    LastWeightAppend(PairEdges(vs, ds[..m]), row, vs[i], vs[j]);
    RowLinks(vs[m], vs[m + 1..], ds[m], vs[i], vs[j]);
    if m == i {
      assert vs[j] == vs[i + 1..][j - i - 1];
    } else {
      PairWeight(vs, ds[..m], i, j);
    }
  }

  /** The weight table of the reduced graph. */
  function Reduced(vs: seq<int>, ds: seq<map<int, int>>): map<int, map<int, int>>
    requires Covers(vs, ds)
  {
    WeightTable(PairEdges(vs, ds))
  }

  /** t holds a weight from a to b. */
  predicate Has(t: map<int, map<int, int>>, a: int, b: int) {
    a in t && b in t[a]
  }

  /** With distinct vertices and every row computed, the reduced table holds
      the search distance from the earlier of two vertices to the later one,
      in both directions. */
  lemma ReducedWeights(vs: seq<int>, ds: seq<map<int, int>>, i: nat, j: nat)
    requires Distinct(vs) && Covers(vs, ds) && |ds| == |vs| && i < j < |vs|
    ensures Has(Reduced(vs, ds), vs[i], vs[j]) && Has(Reduced(vs, ds), vs[j], vs[i])
    ensures Reduced(vs, ds)[vs[i]][vs[j]] == ds[i][vs[j]] == Reduced(vs, ds)[vs[j]][vs[i]]
  {
    PairWeight(vs, ds, i, j);
    WeightTableSpec(PairEdges(vs, ds), vs[i], vs[j]);
    WeightTableSpec(PairEdges(vs, ds), vs[j], vs[i]);
  }

  /** One inner loop of the reduction: the edges from v0 to every vertex of
      rest, failing with KeyError at the first one the search did not reach. */
  method ReduceRow(v0: int, rest: seq<int>, dist: map<int, int>) returns (r: Result<seq<Edge>>)
    ensures r.Err? <==> exists k | 0 <= k < |rest| :: rest[k] !in dist
    ensures r.Err? ==> r.error == KeyError
    ensures r.Ok? ==> r.value == RowEdges(v0, rest, dist)
  {
    var row: seq<Edge> := [];
    var k := 0;
    while k < |rest|
      invariant 0 <= k <= |rest|
      invariant forall k' | 0 <= k' < k :: rest[k'] in dist
      invariant row == RowEdges(v0, rest[..k], dist)
    {
      var v1 := rest[k];
      if v1 !in dist {
        return Err(KeyError);
      }
      assert rest[..k + 1][..k] == rest[..k];
      row := row + [(v0, v1, dist[v1])];
      k := k + 1;
    }
    assert rest[..k] == rest;
    return Ok(row);
  }

  /** A complete search from s has a distance for x exactly when some walk
      from s reaches x. */
  lemma SearchedReaches(N: Table, s: int, dist: map<int, int>, x: int)
    requires SearchResult(N, s, None, Ok(dist))
    ensures x in dist <==> Reaches(N, s, x)
  {
    if x in dist {
      assert WalkTo(N, s, x, dist[x]);
    }
  }

  /** A row whose search reaches every later vertex neither fails nor leaves
      a later vertex without a distance. */
  lemma RowDone(N: Table, vs: seq<int>, ds: seq<map<int, int>>, dist: map<int, int>)
    requires Covers(vs, ds) && |ds| < |vs|
    requires SearchResult(N, vs[|ds|], None, Ok(dist))
    requires forall x | x in vs[|ds| + 1..] :: x in dist
    ensures !RowFails(N, vs, |ds|) && Covers(vs, ds + [dist])
    ensures PairEdges(vs, ds + [dist]) == PairEdges(vs, ds) + RowEdges(vs[|ds|], vs[|ds| + 1..], dist)
  {
    var i := |ds|;
    assert (ds + [dist])[..i] == ds;
    var rest := vs[i + 1..];
    forall j | i < j < |vs| ensures vs[j] in dist && Reaches(N, vs[i], vs[j]) {
      assert vs[j] == rest[j - i - 1];
      SearchedReaches(N, vs[i], dist, vs[j]);
    }
  }

  lemma SearchedSnoc(N: Table, vs: seq<int>, ds: seq<map<int, int>>, dist: map<int, int>)
    requires Searched(N, vs, ds) && |ds| < |vs|
    requires SearchResult(N, vs[|ds|], None, Ok(dist))
    ensures Searched(N, vs, ds + [dist])
  {
    forall j | 0 <= j <= |ds| ensures SearchResult(N, vs[j], None, Ok((ds + [dist])[j])) {
      if j < |ds| {
        assert (ds + [dist])[j] == ds[j];
      }
    }
  }

  /** Lines 20-25: for every vertex, search from it and add an edge to every
      later vertex at the distance found. */
  method Reduce(g: Graph, vs: seq<int>) returns (r: Result<seq<Edge>>, ghost ds: seq<map<int, int>>)
    requires g.Valid()
    ensures r.Err? <==> Unreduced(g.mNeighbors, vs)
    ensures r.Err? ==> r.error == KeyError
    ensures r.Ok? ==> |ds| == |vs| && Searched(g.mNeighbors, vs, ds) && Covers(vs, ds)
    ensures r.Ok? ==> r.value == PairEdges(vs, ds)
  {
    var N := g.mNeighbors;
    var edges: seq<Edge> := [];
    ds := [];
    var i := 0;
    while i < |vs|
      invariant 0 <= i <= |vs| && |ds| == i
      invariant Searched(N, vs, ds) && Covers(vs, ds)
      invariant forall i' | 0 <= i' < i :: !RowFails(N, vs, i')
      invariant edges == PairEdges(vs, ds)
    {
      var v0 := vs[i];
      var distances := Dfs(g, v0, None);
      if distances.Err? {
        assert RowFails(N, vs, i);
        return Err(KeyError), ds;
      }
      var dist := distances.value;
      var rest := vs[i + 1..];
      var row := ReduceRow(v0, rest, dist);
      if row.Err? {
        var k :| 0 <= k < |rest| && rest[k] !in dist;
        SearchedReaches(N, v0, dist, rest[k]);
        assert rest[k] == vs[i + 1 + k];
        assert RowFails(N, vs, i);
        return Err(KeyError), ds;
      }
      RowDone(N, vs, ds, dist);
      SearchedSnoc(N, vs, ds, dist);
      edges := edges + row.value;
      ds := ds + [dist];
      i := i + 1;
    }
    return Ok(edges), ds;
  }

  // ============================================================ orderings

  /** The partial tours the inner loops of lines 32-37 add for one partial
      tour: it extended by each vertex it does not visit yet, in list order. */
  function Grow(sol: seq<int>, vs: seq<int>): seq<seq<int>> {
    if vs == [] then []
    else
      var v := vs[|vs| - 1];
      Grow(sol, vs[..|vs| - 1]) + (if v !in sol then [sol + [v]] else [])
  }

  /** One pass of the loop at line 30 over the list of partial tours. */
  function Extend(sols: seq<seq<int>>, vs: seq<int>): seq<seq<int>> {
    if sols == [] then [] else Extend(sols[..|sols| - 1], vs) + Grow(sols[|sols| - 1], vs)
  }

  /** The partial tours after i passes. */
  function Level(vs: seq<int>, i: nat): seq<seq<int>> {
    if i == 0 then [[]] else Extend(Level(vs, i - 1), vs)
  }

  /** s visits vertices of vs only, each at most once. */
  predicate Arrangement(vs: seq<int>, s: seq<int>) {
    Distinct(s) && forall k | 0 <= k < |s| :: s[k] in vs
  }

  /** s is an ordering of vs: all of them, each once. */
  predicate IsOrdering(vs: seq<int>, s: seq<int>) {
    |s| == |vs| && Arrangement(vs, s)
  }

  lemma {:induction false} GrowSound(sol: seq<int>, vs: seq<int>)
    ensures forall t | t in Grow(sol, vs) ::
      (|t| == |sol| + 1 && t == sol + [t[|sol|]] && t[|sol|] in vs && t[|sol|] !in sol)
  {
    if vs != [] {
      GrowSound(sol, vs[..|vs| - 1]);
    }
  }

  lemma {:induction false} GrowComplete(sol: seq<int>, vs: seq<int>, v: int)
    requires v in vs && v !in sol
    ensures sol + [v] in Grow(sol, vs)
  {
    if v in vs[..|vs| - 1] {
      GrowComplete(sol, vs[..|vs| - 1], v);
    }
  }

  lemma {:induction false} ExtendMembers(sols: seq<seq<int>>, vs: seq<int>, t: seq<int>)
    ensures t in Extend(sols, vs) <==> exists k | 0 <= k < |sols| :: t in Grow(sols[k], vs)
  {
    if sols != [] {
      var n := |sols| - 1;
      var init := sols[..n];
      ExtendMembers(init, vs, t);
      assert Extend(sols, vs) == Extend(init, vs) + Grow(sols[n], vs);
      if t in Extend(init, vs) {
        var k :| 0 <= k < |init| && t in Grow(init[k], vs);
        assert init[k] == sols[k];
      } else if t in Grow(sols[n], vs) {
        assert 0 <= n < |sols|;
      } else {
        forall k | 0 <= k < |sols| ensures t !in Grow(sols[k], vs) {
          if k < n {
            assert init[k] == sols[k];
          }
        }
      }
    }
  }

  /** Every partial tour after i passes visits i distinct vertices of vs. */
  lemma {:induction false} LevelSound(vs: seq<int>, i: nat)
    ensures forall t | t in Level(vs, i) :: |t| == i && Arrangement(vs, t)
  {
    if i > 0 {
      var prev := Level(vs, i - 1);
      LevelSound(vs, i - 1);
      forall t | t in Extend(prev, vs) ensures |t| == i && Arrangement(vs, t) {
        GrowStep(prev, vs, t, i - 1);
      }
    }
  }

  lemma GrowStep(prev: seq<seq<int>>, vs: seq<int>, t: seq<int>, n: nat)
    requires forall s | s in prev :: |s| == n && Arrangement(vs, s)
    requires t in Extend(prev, vs)
    ensures |t| == n + 1 && Arrangement(vs, t)
  {
    ExtendMembers(prev, vs, t);
    var k :| 0 <= k < |prev| && t in Grow(prev[k], vs);
    var sol := prev[k];
    assert sol in prev;
    GrowSound(sol, vs);
    DistinctConcat(sol, [t[n]]);
    assert forall j | 0 <= j < n + 1 :: t[j] in vs by {
      forall j | 0 <= j < n + 1 ensures t[j] in vs {
        if j < n {
          assert t[j] == sol[j];
        }
      }
    }
  }

  /** Every arrangement of i vertices of vs is among the partial tours after
      i passes, so after |vs| passes every ordering is. */
  lemma {:induction false} LevelComplete(vs: seq<int>, i: nat, t: seq<int>)
    requires |t| == i && Arrangement(vs, t)
    ensures t in Level(vs, i)
  {
    if i > 0 {
      var sol := t[..i - 1];
      assert Arrangement(vs, sol);
      LevelComplete(vs, i - 1, sol);
      var k :| 0 <= k < |Level(vs, i - 1)| && Level(vs, i - 1)[k] == sol;
      assert t == sol + [t[i - 1]];
      assert t[i - 1] !in sol;
      GrowComplete(sol, vs, t[i - 1]);
      ExtendMembers(Level(vs, i - 1), vs, t);
    }
  }

  /** The innermost loop (lines 34-37) for one partial tour. */
  method GrowInto(acc: seq<seq<int>>, sol: seq<int>, vs: seq<int>) returns (out: seq<seq<int>>)
    ensures out == acc + Grow(sol, vs)
  {
    out := acc;
    var k := 0;
    while k < |vs|
      invariant 0 <= k <= |vs|
      invariant out == acc + Grow(sol, vs[..k])
    {
      var v := vs[k];
      assert vs[..k + 1][..k] == vs[..k];
      if v !in sol {
        out := out + [sol + [v]];
      }
      k := k + 1;
    }
    assert vs[..k] == vs;
  }

  /** One pass of lines 31-37: every partial tour extended by every vertex it
      does not visit yet. */
  method ExtendAll(sols: seq<seq<int>>, vs: seq<int>) returns (next: seq<seq<int>>)
    ensures next == Extend(sols, vs)
  {
    next := [];
    var j := 0;
    while j < |sols|
      invariant 0 <= j <= |sols|
      invariant next == Extend(sols[..j], vs)
    {
      assert sols[..j + 1][..j] == sols[..j];
      next := GrowInto(next, sols[j], vs);
      j := j + 1;
    }
    assert sols[..j] == sols;
  }

  /** Lines 29-38: the list of orderings, grown one vertex per pass. */
  method Orderings(vs: seq<int>) returns (sols: seq<seq<int>>)
    ensures sols == Level(vs, |vs|)
  {
    sols := [[]];
    for i := 0 to |vs|
      invariant sols == Level(vs, i)
    {
      ghost var next := Level(vs, i + 1);
      assert next == Extend(sols, vs);
      sols := ExtendAll(sols, vs);
    }
  }

  // ============================================================== scoring

  /** The hops of a closed tour in the order lines 45-48 add them: hop k goes
      from the vertex before position k (the last one, for k = 0) to the vertex
      at position k. */
  function Hops(sol: seq<int>): seq<(int, int)> {
    seq(|sol|, k requires 0 <= k < |sol| => if k == 0 then (sol[|sol| - 1], sol[0]) else (sol[k - 1], sol[k]))
  }

  /** The sum of the hops' weights, or KeyError when the table lacks one. */
  function CostOf(t: map<int, map<int, int>>, hops: seq<(int, int)>): Result<int> {
    if hops == [] then Ok(0)
    else
      var h := hops[|hops| - 1];
      match CostOf(t, hops[..|hops| - 1])
      case Err(e) => Err(e)
      case Ok(c) => if Has(t, h.0, h.1) then Ok(c + t[h.0][h.1]) else Err(KeyError)
  }

  /** Python's `s[i]`, which counts from the end for negative i. */
  function At(s: seq<int>, i: int): int
    requires -|s| <= i < |s|
  {
    if i < 0 then s[|s| + i] else s[i]
  }

  /** Lines 44-48: the score of one tour. */
  method Score(t: map<int, map<int, int>>, sol: seq<int>) returns (r: Result<int>)
    ensures r == CostOf(t, Hops(sol))
  {
    var score := 0;
    var i := -1;
    ghost var hops := Hops(sol);
    while i < |sol| - 1
      invariant -1 <= i <= |sol| - 1 || (sol == [] && i == -1)
      invariant CostOf(t, hops[..i + 1]) == Ok(score)
    {
      var v0 := At(sol, i);
      var v1 := At(sol, i + 1);
      assert hops[i + 1] == (v0, v1);
      assert hops[..i + 2][..i + 1] == hops[..i + 1];
      if !(v0 in t && v1 in t[v0]) {
        ErrStays(t, hops, i + 2);
        return Err(KeyError);
      }
      score := score + t[v0][v1];
      i := i + 1;
    }
    assert hops[..i + 1] == hops;
    return Ok(score);
  }

  /** Once a prefix of the hops fails, the whole tour fails. */
  lemma {:induction false} ErrStays(t: map<int, map<int, int>>, hops: seq<(int, int)>, n: nat)
    requires n <= |hops| && CostOf(t, hops[..n]).Err?
    ensures CostOf(t, hops) == Err(KeyError)
    decreases |hops| - n
  {
    if n < |hops| {
      assert hops[..n + 1][..n] == hops[..n];
      ErrStays(t, hops, n + 1);
    } else {
      assert hops[..n] == hops;
      ErrIsKey(t, hops);
    }
  }

  lemma {:induction false} ErrIsKey(t: map<int, map<int, int>>, hops: seq<(int, int)>)
    ensures CostOf(t, hops).Err? ==> CostOf(t, hops).error == KeyError
  {
    if hops != [] {
      ErrIsKey(t, hops[..|hops| - 1]);
    }
  }

  /** The score exists exactly when the table has every hop. */
  lemma {:induction false} CostOk(t: map<int, map<int, int>>, hops: seq<(int, int)>)
    ensures CostOf(t, hops).Ok? <==> forall k | 0 <= k < |hops| :: Has(t, hops[k].0, hops[k].1)
  {
    if hops != [] {
      CostOk(t, hops[..|hops| - 1]);
      assert forall k | 0 <= k < |hops| - 1 :: hops[..|hops| - 1][k] == hops[k];
    }
  }

  /** Scores compose over a split of the hop list. */
  lemma {:induction false} CostAppend(t: map<int, map<int, int>>, a: seq<(int, int)>, b: seq<(int, int)>)
    ensures CostOf(t, a + b) ==
      (if CostOf(t, a).Ok? && CostOf(t, b).Ok? then Ok(CostOf(t, a).value + CostOf(t, b).value)
       else Err(KeyError))
  {
    ErrIsKey(t, a);
    ErrIsKey(t, a + b);
    if b == [] {
      assert a + b == a;
    } else {
      assert (a + b)[..|a + b| - 1] == a + b[..|b| - 1];
      CostAppend(t, a, b[..|b| - 1]);
    }
  }

  /** A closed tour scores the same from whichever vertex it starts. */
  lemma RotationSameScore(t: map<int, map<int, int>>, sol: seq<int>, k: nat)
    requires k <= |sol|
    ensures CostOf(t, Hops(sol[k..] + sol[..k])) == CostOf(t, Hops(sol))
  {
    var h := Hops(sol);
    if 0 < k < |sol| {
      HopsRotate(sol, k);
      CostAppend(t, h[k..], h[..k]);
      CostAppend(t, h[..k], h[k..]);
      assert h[..k] + h[k..] == h;
    } else {
      assert sol[k..] + sol[..k] == sol;
    }
  }

  /** Starting a closed tour at position k rotates its hops by k. */
  lemma HopsRotate(sol: seq<int>, k: nat)
    requires 0 < k < |sol|
    ensures Hops(sol[k..] + sol[..k]) == Hops(sol)[k..] + Hops(sol)[..k]
  {
    var h := Hops(sol);
    var rot := sol[k..] + sol[..k];
    var n := |sol|;
    forall m | 0 <= m < n ensures Hops(rot)[m] == (h[k..] + h[..k])[m] {
      if m < n - k {
        assert rot[m] == sol[m + k];
        if m > 0 {
          assert rot[m - 1] == sol[m + k - 1];
        } else {
          assert rot[n - 1] == sol[k - 1];
        }
      } else {
        assert rot[m] == sol[m + k - n];
        assert rot[m - 1] == At(sol, m + k - n - 1);
      }
    }
  }

  // ============================================================ selection

  /** The scores of the tours in order, or KeyError when one has none. */
  function Scores(t: map<int, map<int, int>>, sols: seq<seq<int>>): (r: Result<seq<int>>)
    ensures r.Ok? ==> |r.value| == |sols|
  {
    if sols == [] then Ok([])
    else
      match Scores(t, sols[..|sols| - 1])
      case Err(e) => Err(e)
      case Ok(sc) =>
        match CostOf(t, Hops(sols[|sols| - 1]))
        case Err(e) => Err(e)
        case Ok(c) => Ok(sc + [c])
  }

  /** Lines 41-51 over given scores: a tour replaces the best so far only when
      it scores strictly less. */
  function Cheapest(sols: seq<seq<int>>, scores: seq<int>): (Option<seq<int>>, int)
    requires |scores| == |sols|
  {
    if sols == [] then (None, Unbeaten)
    else
      var n := |sols| - 1;
      var best := Cheapest(sols[..n], scores[..n]);
      if scores[n] < best.1 then (Some(sols[n]), scores[n]) else best
  }

  /** The kept score is below every other score or Unbeaten; no tour is kept
      exactly when none scores below Unbeaten; and the kept tour is the first
      with the kept score. */
  lemma {:induction false} PickSpec(sols: seq<seq<int>>, scores: seq<int>)
    requires |scores| == |sols|
    ensures var r := Cheapest(sols, scores);
      r.1 <= Unbeaten && (forall k | 0 <= k < |sols| :: r.1 <= scores[k]) &&
      (r.0.None? <==> forall k | 0 <= k < |sols| :: Unbeaten <= scores[k]) &&
      (r.0.None? ==> r.1 == Unbeaten) &&
      (r.0.Some? ==> exists k | 0 <= k < |sols| ::
        sols[k] == r.0.value && scores[k] == r.1 && forall j | 0 <= j < k :: r.1 < scores[j])
  {
    if sols != [] {
      var n := |sols| - 1;
      PickSpec(sols[..n], scores[..n]);
      var best := Cheapest(sols[..n], scores[..n]);
      assert forall k | 0 <= k < n :: scores[..n][k] == scores[k] && sols[..n][k] == sols[k];
      if best.0.Some? && best.1 <= scores[n] {
        var k :| 0 <= k < n && sols[..n][k] == best.0.value && scores[..n][k] == best.1 &&
          forall j | 0 <= j < k :: best.1 < scores[..n][j];
        assert sols[k] == best.0.value && scores[k] == best.1;
      }
    }
  }

  /** What the final loop of lines 41-51 returns over the tour list. */
  function Selection(t: map<int, map<int, int>>, sols: seq<seq<int>>): Result<(Option<seq<int>>, int)> {
    match Scores(t, sols)
    case Err(e) => Err(e)
    case Ok(sc) => Ok(Cheapest(sols, sc))
  }

  /** Lines 41-53. */
  method Best(t: map<int, map<int, int>>, sols: seq<seq<int>>) returns (r: Result<(Option<seq<int>>, int)>)
    ensures r == Selection(t, sols)
  {
    var bestSolution: Option<seq<int>> := None;
    var bestScore := Unbeaten;
    ghost var sc: seq<int> := [];
    for k := 0 to |sols|
      invariant Scores(t, sols[..k]) == Ok(sc)
      invariant (bestSolution, bestScore) == Cheapest(sols[..k], sc)
    {
      var score := Score(t, sols[k]);
      if score.Err? {
        BestFails(t, sols, k, sc);
        return Err(score.error);
      }
      BestStep(t, sols, k, sc, score.value);
      if score.value < bestScore {
        bestScore := score.value;
        bestSolution := Some(sols[k]);
      }
      sc := sc + [score.value];
    }
    assert sols[..|sols|] == sols;
    return Ok((bestSolution, bestScore));
  }

  /** A tour without a score leaves the whole list without one, with its error. */
  lemma BestFails(t: map<int, map<int, int>>, sols: seq<seq<int>>, k: nat, sc: seq<int>)
    requires k < |sols| && Scores(t, sols[..k]) == Ok(sc) && CostOf(t, Hops(sols[k])).Err?
    ensures Scores(t, sols).Err? && Scores(t, sols).error == CostOf(t, Hops(sols[k])).error
  {
    assert sols[..k + 1][..k] == sols[..k];
    ScoresErr(t, sols, k + 1);
  }

  /** One more scored tour: its score joins the list and competes with the kept one. */
  lemma BestStep(t: map<int, map<int, int>>, sols: seq<seq<int>>, k: nat, sc: seq<int>, c: int)
    requires k < |sols| && Scores(t, sols[..k]) == Ok(sc) && CostOf(t, Hops(sols[k])) == Ok(c)
    ensures Scores(t, sols[..k + 1]) == Ok(sc + [c])
    ensures var best := Cheapest(sols[..k], sc);
      Cheapest(sols[..k + 1], sc + [c]) == if c < best.1 then (Some(sols[k]), c) else best
  {
    assert sols[..k + 1][..k] == sols[..k];
    assert (sc + [c])[..k] == sc;
  }

  /** Once a prefix of the tours has no score, the whole list has none. */
  lemma {:induction false} ScoresErr(t: map<int, map<int, int>>, sols: seq<seq<int>>, n: nat)
    requires n <= |sols| && Scores(t, sols[..n]).Err?
    ensures Scores(t, sols).Err? && Scores(t, sols).error == Scores(t, sols[..n]).error
    decreases |sols| - n
  {
    if n < |sols| {
      assert sols[..n + 1][..n] == sols[..n];
      ScoresErr(t, sols, n + 1);
    } else {
      assert sols[..n] == sols;
    }
  }

  /** When every tour has a score, the scores are those of the tours. */
  lemma {:induction false} ScoresOk(t: map<int, map<int, int>>, sols: seq<seq<int>>)
    requires forall k | 0 <= k < |sols| :: CostOf(t, Hops(sols[k])).Ok?
    ensures Scores(t, sols).Ok?
    ensures forall k | 0 <= k < |sols| :: Scores(t, sols).value[k] == CostOf(t, Hops(sols[k])).value
  {
    if sols != [] {
      var n := |sols| - 1;
      assert forall k | 0 <= k < n :: sols[..n][k] == sols[k];
      ScoresOk(t, sols[..n]);
    }
  }

  // ============================================================ properties

  /** The weights of the reduced graph are search distances: each is the cost
      of a walk from the earlier vertex to the later one and, with nonnegative
      weights, no walk between them costs less. */
  lemma ReducedShortest(N: Table, vs: seq<int>, ds: seq<map<int, int>>, i: nat, j: nat)
    requires Distinct(vs) && Covers(vs, ds) && |ds| == |vs| && Searched(N, vs, ds) && i < j < |vs|
    ensures Has(Reduced(vs, ds), vs[i], vs[j])
    ensures WalkTo(N, vs[i], vs[j], Reduced(vs, ds)[vs[i]][vs[j]])
    ensures NonNeg(N) ==> forall steps | IsWalk(N, vs[i], steps) && End(vs[i], steps) == vs[j] ::
      Reduced(vs, ds)[vs[i]][vs[j]] <= Cost(steps)
  {
    ReducedWeights(vs, ds, i, j);
    assert SearchResult(N, vs[i], None, Ok(ds[i]));
  }

  /** Each hop of an ordering of two or more distinct vertices joins two
      different vertices, so the reduced table has it. */
  lemma HopsPresent(vs: seq<int>, ds: seq<map<int, int>>, p: seq<int>)
    requires Distinct(vs) && Covers(vs, ds) && |ds| == |vs| && |vs| >= 2 && IsOrdering(vs, p)
    ensures CostOf(Reduced(vs, ds), Hops(p)).Ok?
  {
    var h := Hops(p);
    var n := |p|;
    forall k | 0 <= k < |h| ensures Has(Reduced(vs, ds), h[k].0, h[k].1) {
      var a, b := h[k].0, h[k].1;
      if k == 0 {
        assert a == p[n - 1] && b == p[0];
      } else {
        assert a == p[k - 1] && b == p[k];
      }
      assert a in vs && b in vs && a != b;
      var ia, ib := IndexOf(vs, a), IndexOf(vs, b);
      if ia < ib {
        ReducedWeights(vs, ds, ia, ib);
      } else {
        ReducedWeights(vs, ds, ib, ia);
      }
    }
    CostOk(Reduced(vs, ds), h);
  }

  /** What `solve` promises of its answer r over the tour list L, whose
      scores come from t: the kept score is no more than any ordering's, a
      kept tour is an ordering scoring below Unbeaten and is the first in L
      with its score, and no tour is kept exactly when no ordering scores
      below Unbeaten, the score then being Unbeaten. */
  ghost predicate BestTour(t: map<int, map<int, int>>, vs: seq<int>, L: seq<seq<int>>, r: (Option<seq<int>>, int)) {
    (forall p | IsOrdering(vs, p) :: CostOf(t, Hops(p)).Ok? && r.1 <= CostOf(t, Hops(p)).value) &&
    (r.0.Some? ==> IsOrdering(vs, r.0.value) && CostOf(t, Hops(r.0.value)) == Ok(r.1) && r.1 < Unbeaten) &&
    (r.0.Some? ==> exists k | 0 <= k < |L| ::
      (L[k] == r.0.value &&
       forall j | 0 <= j < k :: CostOf(t, Hops(L[j])).Ok? && r.1 < CostOf(t, Hops(L[j])).value)) &&
    (r.0.None? <==> forall p | IsOrdering(vs, p) :: CostOf(t, Hops(p)).Ok? && Unbeaten <= CostOf(t, Hops(p)).value) &&
    (r.0.None? ==> r.1 == Unbeaten)
  }

  /** The selection over a list holding exactly the orderings of vs, each
      with a score, keeps the best tour. */
  lemma SelectionBest(t: map<int, map<int, int>>, vs: seq<int>, L: seq<seq<int>>)
    requires forall s | s in L :: IsOrdering(vs, s) && CostOf(t, Hops(s)).Ok?
    requires forall p | IsOrdering(vs, p) :: p in L
    ensures Selection(t, L).Ok? && BestTour(t, vs, L, Selection(t, L).value)
  {
    forall k | 0 <= k < |L| ensures CostOf(t, Hops(L[k])).Ok? {
      assert L[k] in L;
    }
    ScoresOk(t, L);
    var sc := Scores(t, L).value;
    PickBest(t, vs, L, sc);
  }

  lemma PickBest(t: map<int, map<int, int>>, vs: seq<int>, L: seq<seq<int>>, sc: seq<int>)
    requires |sc| == |L| && forall k | 0 <= k < |L| :: CostOf(t, Hops(L[k])) == Ok(sc[k])
    requires forall s | s in L :: IsOrdering(vs, s)
    requires forall p | IsOrdering(vs, p) :: p in L
    ensures BestTour(t, vs, L, Cheapest(L, sc))
  {
    PickSpec(L, sc);
    var r := Cheapest(L, sc);
    forall p | IsOrdering(vs, p) ensures CostOf(t, Hops(p)).Ok? && r.1 <= CostOf(t, Hops(p)).value {
      var k :| 0 <= k < |L| && L[k] == p;
    }
    if r.0.Some? {
      PickKept(t, vs, L, sc);
    } else {
      forall p | IsOrdering(vs, p) ensures CostOf(t, Hops(p)).Ok? && Unbeaten <= CostOf(t, Hops(p)).value {
        var k :| 0 <= k < |L| && L[k] == p;
        assert Unbeaten <= sc[k];
      }
    }
    if forall p | IsOrdering(vs, p) :: CostOf(t, Hops(p)).Ok? && Unbeaten <= CostOf(t, Hops(p)).value {
      forall k | 0 <= k < |L| ensures Unbeaten <= sc[k] {
        assert L[k] in L;
      }
    }
  }

  lemma PickKept(t: map<int, map<int, int>>, vs: seq<int>, L: seq<seq<int>>, sc: seq<int>)
    requires |sc| == |L| && forall k | 0 <= k < |L| :: CostOf(t, Hops(L[k])) == Ok(sc[k])
    requires forall s | s in L :: IsOrdering(vs, s)
    requires Cheapest(L, sc).0.Some?
    ensures var r := Cheapest(L, sc);
      IsOrdering(vs, r.0.value) && CostOf(t, Hops(r.0.value)) == Ok(r.1) && r.1 < Unbeaten &&
      exists k | 0 <= k < |L| ::
        (L[k] == r.0.value &&
         forall j | 0 <= j < k :: CostOf(t, Hops(L[j])).Ok? && r.1 < CostOf(t, Hops(L[j])).value)
  {
    PickSpec(L, sc);
    var r := Cheapest(L, sc);
    var k :| 0 <= k < |L| && L[k] == r.0.value && sc[k] == r.1 && forall j | 0 <= j < k :: r.1 < sc[j];
    assert L[k] in L;
    forall j | 0 <= j < k ensures CostOf(t, Hops(L[j])).Ok? && r.1 < CostOf(t, Hops(L[j])).value {
      assert r.1 < sc[j];
    }
  }

  /** For two or more distinct vertices whose searches reach each other, the
      solver keeps the best tour over all orderings. */
  lemma OutcomeBest(vs: seq<int>, ds: seq<map<int, int>>)
    requires Distinct(vs) && Covers(vs, ds) && |ds| == |vs| && |vs| >= 2
    ensures Outcome(vs, ds).Ok? && BestTour(Reduced(vs, ds), vs, Level(vs, |vs|), Outcome(vs, ds).value)
  {
    var L := Level(vs, |vs|);
    LevelSound(vs, |vs|);
    forall s | s in L ensures IsOrdering(vs, s) && CostOf(Reduced(vs, ds), Hops(s)).Ok? {
      HopsPresent(vs, ds, s);
    }
    forall p | IsOrdering(vs, p) ensures p in L {
      LevelComplete(vs, |vs|, p);
    }
    SelectionBest(Reduced(vs, ds), vs, L);
  }

  /** An empty vertex list yields the empty tour with score 0. */
  lemma OutcomeEmpty()
    ensures Outcome([], []) == Ok((Some([]), 0))
  {
    var empty: seq<int> := [];
    var L := Level(empty, 0);
    assert L == [empty];
    assert L[..0] == [];
    assert Hops(empty) == [];
    var t := Reduced(empty, []);
    assert CostOf(t, Hops(L[|L| - 1])) == Ok(0);
    var none: seq<int> := [];
    assert Scores(t, L[..|L| - 1]) == Ok(none);
    assert none + [0] == [0];
    assert Scores(t, L) == Ok([0]);
    assert Cheapest(L, [0]) == (Some(empty), 0);
  }

  /** A single vertex has no reduced edge, so scoring its only tour, which
      hops from the vertex to itself, fails with KeyError. */
  lemma OutcomeSingle(vs: seq<int>, ds: seq<map<int, int>>)
    requires |vs| == 1 && |ds| == 1 && Covers(vs, ds)
    ensures Outcome(vs, ds) == Err(KeyError)
  {
    var v := vs[0];
    assert PairEdges(vs, ds) == PairEdges(vs, ds[..0]) + RowEdges(v, vs[1..], ds[0]);
    assert vs[1..] == [];
    assert Reduced(vs, ds) == map[];
    assert vs[..0] == [];
    var empty: seq<int> := [];
    assert [empty][..0] == [];
    assert empty + [v] == [v];
    assert Grow(empty, vs) == [[v]];
    var L0 := Level(vs, 0);
    assert L0 == [empty] && L0[..0] == [];
    assert Level(vs, 1) == Extend(L0[..0], vs) + Grow(L0[0], vs);
    assert Level(vs, 1) == [[v]];
    assert Hops([v]) == [(v, v)];
    var L := Level(vs, |vs|);
    assert CostOf(map[], Hops(L[|L| - 1])) == Err(KeyError);
    assert Scores(map[], L[..0]) == Ok([]);
    assert Scores(Reduced(vs, ds), L) == Err(KeyError);
  }

  // ================================================================ solve

  /** The result of `solve` once the reduction has computed the rows ds. */
  function Outcome(vs: seq<int>, ds: seq<map<int, int>>): Result<(Option<seq<int>>, int)>
    requires Covers(vs, ds)
  {
    Selection(Reduced(vs, ds), Level(vs, |vs|))
  }

  /** `solve(graph, vertices)`. */
  method Solve(g: Graph, vs: seq<int>) returns (r: Result<(Option<seq<int>>, int)>, ghost ds: seq<map<int, int>>)
    requires g.Valid()
    ensures Unreduced(g.mNeighbors, vs) ==> r == Err(KeyError)
    ensures !Unreduced(g.mNeighbors, vs) ==>
      (|ds| == |vs| && Searched(g.mNeighbors, vs, ds) && Covers(vs, ds) && r == Outcome(vs, ds))
  {
    var reduced;
    reduced, ds := Reduce(g, vs);
    if reduced.Err? {
      return Err(KeyError), ds;
    }
    PairEdgesIn(vs, ds);
    var graphReduced := new Graph(vs, reduced.value);
    var solutions := Orderings(vs);
    r := Best(graphReduced.mmEdges, solutions);
  }
}
