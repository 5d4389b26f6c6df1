/** src/algos/clique2.py: the level-wise clique finder. Candidates start as
    single vertices and grow one vertex per level, each only by a vertex every
    member sees, and a candidate is dropped as soon as fewer than k vertices
    remain that every member sees. Candidates with the same vertex set are
    kept once. clique2.py at the top of the repository carries the same
    `Clique` class; its module imports the one here. */
module Clique2 {
  import opened Wrappers
  import opened Arith
  import opened Graphs

  // ============================================================ the Clique class

  /** A candidate: its vertices in the order they were added, and what the
      finder tracks as still reachable from all of them. */
  datatype Clique<R> = Clique(vertices: seq<int>, reachable: R)

  /** `self.mult = math.prod(self.vertices)`, which is also `__hash__`. */
  function Mult<R>(c: Clique<R>): int {
    Prod(c.vertices)
  }

  /** `set(self.vertices)`. */
  function Members<R>(c: Clique<R>): set<int> {
    set x | x in c.vertices
  }

  /** `__eq__`: same product and same vertex set. */
  predicate Eq<R>(a: Clique<R>, b: Clique<R>) {
    Mult(a) == Mult(b) && Members(a) == Members(b)
  }

  lemma {:induction false} DistinctCount(s: seq<int>, x: int)
    requires Distinct(s)
    ensures multiset(s)[x] == if x in s then 1 else 0
  {
    if s != [] {
      var init := s[..|s| - 1];
      assert s == init + [s[|s| - 1]];
      DistinctCount(init, x);
    }
  }

  /** For candidates without repeated vertices, `__eq__` holds exactly when
      the vertex sets are equal, whatever the order; equal candidates then have
      equal hashes. */
  lemma EqIff<R>(a: Clique<R>, b: Clique<R>)
    requires Distinct(a.vertices) && Distinct(b.vertices)
    ensures Eq(a, b) <==> Members(a) == Members(b)
    ensures Eq(a, b) ==> Mult(a) == Mult(b)
  {
    if Members(a) == Members(b) {
      forall x ensures multiset(a.vertices)[x] == multiset(b.vertices)[x] {
        DistinctCount(a.vertices, x);
        DistinctCount(b.vertices, x);
        assert x in a.vertices <==> x in Members(a);
        assert x in b.vertices <==> x in Members(b);
      }
      assert multiset(a.vertices) == multiset(b.vertices);
      ProdPermutation(a.vertices, b.vertices);
    }
  }

  /** The vertex sets of a list of candidates. */
  function MemberSets<R>(cs: seq<Clique<R>>): set<set<int>> {
    set i | 0 <= i < |cs| :: Members(cs[i])
  }

  /** No two candidates have the same vertex set. */
  predicate UniqueSets<R>(cs: seq<Clique<R>>) {
    forall i, j | 0 <= i < j < |cs| :: Members(cs[i]) != Members(cs[j])
  }

  /** `set.add`: the candidate joins the set unless an equal one is there. */
  method Add<R>(cs: seq<Clique<R>>, c: Clique<R>) returns (out: seq<Clique<R>>)
    ensures (exists i | 0 <= i < |cs| :: Eq(cs[i], c)) ==> out == cs
    ensures (forall i | 0 <= i < |cs| :: !Eq(cs[i], c)) ==> out == cs + [c]
  {
    for i := 0 to |cs|
      invariant forall j | 0 <= j < i :: !Eq(cs[j], c)
    {
      if Mult(cs[i]) == Mult(c) && Members(cs[i]) == Members(c) {
        return cs;
      }
    }
    return cs + [c];
  }

  /** Among candidates without repeated vertices, adding one adds its vertex
      set and keeps the vertex sets unique. */
  lemma AddSets<R>(cs: seq<Clique<R>>, c: Clique<R>, out: seq<Clique<R>>)
    requires forall x | x in cs :: Distinct(x.vertices)
    requires Distinct(c.vertices) && UniqueSets(cs)
    requires (exists i | 0 <= i < |cs| :: Eq(cs[i], c)) ==> out == cs
    requires (forall i | 0 <= i < |cs| :: !Eq(cs[i], c)) ==> out == cs + [c]
    ensures MemberSets(out) == MemberSets(cs) + {Members(c)}
    ensures UniqueSets(out)
    ensures forall x | x in out :: x in cs || x == c
  {
    assert forall i | 0 <= i < |cs| :: cs[i] in cs;
    if exists i | 0 <= i < |cs| :: Eq(cs[i], c) {
      var i :| 0 <= i < |cs| && Eq(cs[i], c);
      assert Members(cs[i]) == Members(c);
    } else {
      forall i | 0 <= i < |cs| ensures Members(cs[i]) != Members(c) {
        EqIff(cs[i], c);
      }
      assert out[|cs|] == c;
      assert MemberSets(out) == MemberSets(cs) + {Members(c)} by {
        forall s | s in MemberSets(out) ensures s in MemberSets(cs) + {Members(c)} {
          var i :| 0 <= i < |out| && s == Members(out[i]);
          if i < |cs| {
            assert out[i] == cs[i];
          }
        }
        forall s | s in MemberSets(cs) ensures s in MemberSets(out) {
          var i :| 0 <= i < |cs| && s == Members(cs[i]);
          assert out[i] == cs[i];
        }
      }
    }
  }

  // ================================================================= the graph

  /** Some edge joins x and y, in either direction. */
  ghost predicate Linked(edges: seq<Edge>, x: int, y: int) {
    exists i | 0 <= i < |edges| ::
      (edges[i].0 == x && edges[i].1 == y) || (edges[i].0 == y && edges[i].1 == x)
  }

  /** v with every endpoint paired with v by an edge: the closed neighbourhood. */
  function Closed(edges: seq<Edge>, v: int): set<int> {
    if edges == [] then {v}
    else
      var e := edges[|edges| - 1];
      Closed(edges[..|edges| - 1], v) + (if e.0 == v then {e.1} else {}) + (if e.1 == v then {e.0} else {})
  }

  lemma {:induction false} ClosedIff(edges: seq<Edge>, v: int, u: int)
    ensures u in Closed(edges, v) <==> u == v || Linked(edges, u, v)
  {
    if edges != [] {
      var init := edges[..|edges| - 1];
      ClosedIff(init, v, u);
      assert forall i | 0 <= i < |init| :: init[i] == edges[i];
      var e := edges[|edges| - 1];
      assert Linked(edges, u, v) <==>
        Linked(init, u, v) || (e.0 == u && e.1 == v) || (e.0 == v && e.1 == u);
    }
  }

  /** `m_neighbors`: every vertex mapped to its closed neighbourhood. */
  function NbrMap(vertices: seq<int>, edges: seq<Edge>): map<int, set<int>> {
    map v | v in vertices :: Closed(edges, v)
  }

  /** A neighbourhood map in which every vertex sees itself, sees only
      vertices, and is seen by every vertex it sees. */
  predicate NbrOk(N: map<int, set<int>>) {
    forall v | v in N :: v in N[v] && N[v] <= N.Keys && forall u | u in N[v] :: v in N[u]
  }

  lemma NbrMapOk(vertices: seq<int>, edges: seq<Edge>)
    requires EndpointsIn(vertices, edges)
    ensures NbrOk(NbrMap(vertices, edges))
  {
    var N := NbrMap(vertices, edges);
    forall v, u | v in N && u in N[v] ensures u in N && v in N[u] {
      ClosedIff(edges, v, u);
      ClosedIff(edges, u, v);
      if u != v {
        var i :| 0 <= i < |edges| &&
          ((edges[i].0 == u && edges[i].1 == v) || (edges[i].0 == v && edges[i].1 == u));
      }
    }
    forall v | v in N ensures v in N[v] {
      ClosedIff(edges, v, v);
    }
  }

  /** The three loops filling `m_neighbors`: an empty set per vertex, the
      vertex itself, then both endpoints of every edge; an edge endpoint that
      is not a vertex raises KeyError. */
  method ClosedNeighbors(vertices: seq<int>, edges: seq<Edge>) returns (r: Result<map<int, set<int>>>)
    ensures r.Err? <==> !EndpointsIn(vertices, edges)
    ensures r.Err? ==> r.error == KeyError
    ensures r.Ok? ==> r.value == NbrMap(vertices, edges)
  {
    var m := EmptySets(vertices);
    m := AddSelves(vertices, m);
    r := AddEdges(vertices, edges, m);
  }

  /** `{v: set() for v in vertices}`. */
  method EmptySets(vertices: seq<int>) returns (m: map<int, set<int>>)
    ensures m.Keys == set v | v in vertices
    ensures forall v | v in m :: m[v] == {}
  {
    m := map[];
    for i := 0 to |vertices|
      invariant m.Keys == set v | v in vertices[..i]
      invariant forall v | v in m :: m[v] == {}
    {
      m := m[vertices[i] := {}];
      assert vertices[..i + 1] == vertices[..i] + [vertices[i]];
    }
    assert vertices[..|vertices|] == vertices;
  }

  /** `for v in vertices: m_neighbors[v].add(v)`. */
  method AddSelves(vertices: seq<int>, m0: map<int, set<int>>) returns (m: map<int, set<int>>)
    requires m0.Keys == set v | v in vertices
    requires forall v | v in m0 :: m0[v] == {}
    ensures m.Keys == set v | v in vertices
    ensures forall v | v in m :: m[v] == {v}
  {
    m := m0;
    for i := 0 to |vertices|
      invariant m.Keys == set v | v in vertices
      invariant forall v | v in m :: m[v] == if v in vertices[..i] then {v} else {}
    {
      m := m[vertices[i] := m[vertices[i]] + {vertices[i]}];
      assert vertices[..i + 1] == vertices[..i] + [vertices[i]];
    }
    assert vertices[..|vertices|] == vertices;
  }

  /** The edge loop: both endpoints join each other's neighbourhood, the
      first before the second is looked up. */
  method AddEdges(vertices: seq<int>, edges: seq<Edge>, m0: map<int, set<int>>) returns (r: Result<map<int, set<int>>>)
    requires m0.Keys == set v | v in vertices
    requires forall v | v in m0 :: m0[v] == {v}
    ensures r.Err? <==> !EndpointsIn(vertices, edges)
    ensures r.Err? ==> r.error == KeyError
    ensures r.Ok? ==> r.value == NbrMap(vertices, edges)
  {
    var m := m0;
    for j := 0 to |edges|
      invariant EndpointsIn(vertices, edges[..j])
      invariant m.Keys == set v | v in vertices
      invariant forall v | v in m :: m[v] == Closed(edges[..j], v)
    {
      var v0, v1 := edges[j].0, edges[j].1;
      assert edges[..j + 1][..j] == edges[..j];
      if v0 !in m {
        NotEndpointsIn(vertices, edges, j);
        return Err(KeyError);
      }
      m := m[v0 := m[v0] + {v1}];
      if v1 !in m {
        NotEndpointsIn(vertices, edges, j);
        return Err(KeyError);
      }
      m := m[v1 := m[v1] + {v0}];
    }
    assert edges[..|edges|] == edges;
    assert m == NbrMap(vertices, edges);
    return Ok(m);
  }

  lemma NotEndpointsIn(vertices: seq<int>, edges: seq<Edge>, j: nat)
    requires j < |edges| && !(edges[j].0 in vertices && edges[j].1 in vertices)
    ensures !EndpointsIn(vertices, edges)
  {
  }

  // ============================================================ candidates

  /** The vertices every member of `vs` sees: the intersection of their
      neighbourhoods, built as the finder builds `reachable`. */
  function Common(N: map<int, set<int>>, vs: seq<int>): set<int>
    requires |vs| >= 1 && forall i | 0 <= i < |vs| :: vs[i] in N
  {
    if |vs| == 1 then N[vs[0]] else Common(N, vs[..|vs| - 1]) * N[vs[|vs| - 1]]
  }

  lemma {:induction false} CommonIff(N: map<int, set<int>>, vs: seq<int>, x: int)
    requires |vs| >= 1 && forall i | 0 <= i < |vs| :: vs[i] in N
    ensures x in Common(N, vs) <==> forall i | 0 <= i < |vs| :: x in N[vs[i]]
  {
    if |vs| > 1 {
      var init := vs[..|vs| - 1];
      CommonIff(N, init, x);
      assert forall i | 0 <= i < |init| :: init[i] == vs[i];
    }
  }

  /** A candidate after L levels: L distinct vertices, pairwise adjacent, whose
      `reachable` is exactly the vertices all of them see, at least k of them. */
  predicate Candidate(N: map<int, set<int>>, k: int, L: nat, c: Clique<set<int>>) {
    L >= 1 && |c.vertices| == L && Distinct(c.vertices) &&
    (forall i | 0 <= i < L :: c.vertices[i] in N) &&
    (forall i, j | 0 <= i < L && 0 <= j < L :: c.vertices[i] in N[c.vertices[j]]) &&
    c.reachable == Common(N, c.vertices) && |c.reachable| >= k
  }

  /** A clique of k vertices: pairwise adjacent, each seeing itself. */
  predicate KClique(N: map<int, set<int>>, k: int, C: set<int>) {
    |C| == k && C <= N.Keys && forall x, y | x in C && y in C :: x in N[y]
  }

  /** T is an L-vertex part of the k-clique C. */
  predicate Part(N: map<int, set<int>>, k: int, C: set<int>, T: set<int>, L: nat) {
    KClique(N, k, C) && T <= C && |T| == L
  }

  /** The candidates after L levels: all are candidates, no vertex set twice,
      and every L-vertex part of every k-clique is among them. */
  ghost predicate Level(N: map<int, set<int>>, k: int, L: nat, cs: seq<Clique<set<int>>>) {
    (forall c | c in cs :: Candidate(N, k, L, c)) && UniqueSets(cs) && Complete(N, k, L, cs)
  }

  /** Every L-vertex part of every k-clique is the vertex set of some candidate. */
  ghost predicate Complete(N: map<int, set<int>>, k: int, L: nat, cs: seq<Clique<set<int>>>) {
    forall C, T | Part(N, k, C, T, L) :: T in MemberSets(cs)
  }

  lemma {:induction false} SubsetCard(A: set<int>, B: set<int>)
    requires A <= B
    ensures |A| <= |B|
  {
    if A != {} {
      var x := Pick(A);
      SubsetCard(A - {x}, B - {x});
    }
  }

  lemma {:induction false} DistinctCard(s: seq<int>)
    requires Distinct(s)
    ensures |set x | x in s| == |s|
  {
    if s != [] {
      var init := s[..|s| - 1];
      DistinctCard(init);
      assert (set x | x in s) == (set x | x in init) + {s[|s| - 1]};
    }
  }

  lemma NbrIn(N: map<int, set<int>>, v: int)
    requires NbrOk(N) && v in N
    ensures v in N[v] && N[v] <= N.Keys
  {
  }

  /** Seeding: one singleton per vertex whose neighbourhood has at least k
      vertices, its `reachable` that neighbourhood. */
  method Seeds(N: map<int, set<int>>, vertices: seq<int>, k: int) returns (cliques: seq<Clique<set<int>>>)
    requires NbrOk(N) && N.Keys == set v | v in vertices
    ensures MemberSets(cliques) == set v | v in vertices && |N[v]| >= k :: {v}
    ensures Level(N, k, 1, cliques)
  {
    cliques := [];
    for i := 0 to |vertices|
      invariant forall c | c in cliques :: Candidate(N, k, 1, c)
      invariant UniqueSets(cliques)
      invariant MemberSets(cliques) == set v | v in vertices[..i] && |N[v]| >= k :: {v}
    {
      var v := vertices[i];
      assert vertices[..i + 1] == vertices[..i] + [v];
      if |N[v]| >= k {
        var c := Clique([v], N[v]);
        assert Members(c) == {v};
        var out := Add(cliques, c);
        AddSets(cliques, c, out);
        cliques := out;
      }
    }
    assert vertices[..|vertices|] == vertices;
    forall C, T | Part(N, k, C, T, 1) ensures T in MemberSets(cliques) {
      assert |T| != 0;
      var v := Pick(T);
      assert T == {v} by {
        if T - {v} != {} {
          var w := Pick(T - {v});
          assert {v, w} <= T;
          SubsetCard({v, w}, T);
        }
      }
      forall x | x in C ensures x in N[v] {
        assert v in C;
      }
      SubsetCard(C, N[v]);
    }
  }

  /** A vertex the candidate may grow by: reachable, not a member, and
      leaving at least k vertices reachable. */
  predicate Grow(N: map<int, set<int>>, k: int, c: Clique<set<int>>, u: int)
    requires u in N
  {
    u in c.reachable && u !in c.vertices && |c.reachable * N[u]| >= k
  }

  /** Growing a candidate by a vertex it may grow by gives a candidate one level up. */
  lemma CandidateExtend(N: map<int, set<int>>, k: int, L: nat, c: Clique<set<int>>, u: int)
    requires NbrOk(N) && Candidate(N, k, L, c) && u in N && Grow(N, k, c, u)
    ensures Candidate(N, k, L + 1, Clique(c.vertices + [u], c.reachable * N[u]))
  {
    var vs := c.vertices + [u];
    assert vs[..L] == c.vertices;
    CommonIff(N, c.vertices, u);
    forall i, j | 0 <= i < L + 1 && 0 <= j < L + 1 ensures vs[i] in N[vs[j]] {
      if i < L && j < L {
        assert vs[i] == c.vertices[i] && vs[j] == c.vertices[j];
      } else if i == L && j < L {
        assert vs[i] == u && vs[j] == c.vertices[j];
        assert u in N[c.vertices[j]];
      } else if j == L && i < L {
        var w := c.vertices[i];
        assert vs[i] == w && vs[j] == u;
        assert u in N[w];
        assert w in N[u];
      } else {
        assert vs[i] == u && vs[j] == u;
        assert u in N[u];
      }
    }
    assert Distinct(vs) by {
      DistinctConcat(c.vertices, [u]);
    }
  }

  /** One iteration of the level loop: every candidate grows by every vertex
      it may grow by, each result added to the new set. */
  method Extend(N: map<int, set<int>>, k: int, ghost L: nat, cliques: seq<Clique<set<int>>>)
    returns (next: seq<Clique<set<int>>>)
    requires NbrOk(N) && Level(N, k, L, cliques) && L < k
    ensures Level(N, k, L + 1, next)
  {
    next := [];
    for ci := 0 to |cliques|
      invariant forall c | c in next :: Candidate(N, k, L + 1, c)
      invariant UniqueSets(next)
      invariant Covered(N, k, cliques, ci, next)
    {
      assert cliques[ci] in cliques;
      ghost var before := next;
      next := GrowAll(N, k, L, cliques[ci], next);
      CoveredStep(N, k, cliques, ci, before, next);
    }
    ExtendComplete(N, k, L, cliques, next);
  }

  /** Every growth of the first n candidates is a vertex set in next. */
  ghost predicate Covered(N: map<int, set<int>>, k: int, cliques: seq<Clique<set<int>>>, n: nat,
                          next: seq<Clique<set<int>>>)
    requires n <= |cliques|
  {
    forall i, u | 0 <= i < n && u in N && Grow(N, k, cliques[i], u) :: Members(cliques[i]) + {u} in MemberSets(next)
  }

  /** Growing candidate n keeps the earlier growths and adds its own. */
  lemma CoveredStep(N: map<int, set<int>>, k: int, cliques: seq<Clique<set<int>>>, n: nat,
                    before: seq<Clique<set<int>>>, next: seq<Clique<set<int>>>)
    requires n < |cliques| && Covered(N, k, cliques, n, before)
    requires MemberSets(before) <= MemberSets(next)
    requires forall u | u in N && Grow(N, k, cliques[n], u) :: Members(cliques[n]) + {u} in MemberSets(next)
    ensures Covered(N, k, cliques, n + 1, next)
  {
    forall i, u | 0 <= i < n + 1 && u in N && Grow(N, k, cliques[i], u)
      ensures Members(cliques[i]) + {u} in MemberSets(next)
    {
      if i < n {
        assert Members(cliques[i]) + {u} in MemberSets(before);
      }
    }
  }

  /** The inner loop: the candidate grows by each vertex of `reachable` in
      turn, skipping its own members and growths that leave fewer than k
      vertices reachable. */
  method GrowAll(N: map<int, set<int>>, k: int, ghost L: nat, c: Clique<set<int>>,
                 next0: seq<Clique<set<int>>>) returns (next: seq<Clique<set<int>>>)
    requires NbrOk(N) && Candidate(N, k, L, c)
    requires forall x | x in next0 :: Candidate(N, k, L + 1, x)
    requires UniqueSets(next0)
    ensures forall x | x in next :: Candidate(N, k, L + 1, x)
    ensures UniqueSets(next)
    ensures MemberSets(next0) <= MemberSets(next)
    ensures forall u | u in N && Grow(N, k, c, u) :: Members(c) + {u} in MemberSets(next)
  {
    next := next0;
    var rest := c.reachable;
    while rest != {}
      invariant rest <= c.reachable
      invariant forall x | x in next :: Candidate(N, k, L + 1, x)
      invariant UniqueSets(next)
      invariant MemberSets(next0) <= MemberSets(next)
      invariant forall u | u in N && u in c.reachable - rest && Grow(N, k, c, u) ::
        Members(c) + {u} in MemberSets(next)
      decreases |rest|
    {
      // whichever element iteration over the set happens to produce
      ghost var some := Pick(rest);
      var vertex :| vertex in rest;
      rest := rest - {vertex};
      if vertex in c.vertices {
        continue;
      }
      ReachableIn(N, k, L, c, vertex);
      var newReachable := set r | r in c.reachable && r in N[vertex];
      assert newReachable == c.reachable * N[vertex];
      if |newReachable| >= k {
        var grown := Clique(c.vertices + [vertex], newReachable);
        var out := Add(next, grown);
        AddGrown(N, k, L, c, vertex, next, out);
        next := out;
      }
    }
  }

  /** A reachable vertex is a vertex of the graph. */
  lemma ReachableIn(N: map<int, set<int>>, k: int, L: nat, c: Clique<set<int>>, u: int)
    requires NbrOk(N) && Candidate(N, k, L, c) && u in c.reachable
    ensures u in N
  {
    CommonIff(N, c.vertices, u);
    NbrIn(N, c.vertices[0]);
  }

  /** Adding the candidate grown by u keeps the set a set of distinct
      candidates one level up, and records u's growth. */
  lemma AddGrown(N: map<int, set<int>>, k: int, L: nat, c: Clique<set<int>>, u: int,
                 next: seq<Clique<set<int>>>, out: seq<Clique<set<int>>>)
    requires NbrOk(N) && Candidate(N, k, L, c) && u in N && Grow(N, k, c, u)
    requires forall x | x in next :: Candidate(N, k, L + 1, x)
    requires UniqueSets(next)
    requires var g := Clique(c.vertices + [u], c.reachable * N[u]);
      ((exists i | 0 <= i < |next| :: Eq(next[i], g)) ==> out == next) &&
      ((forall i | 0 <= i < |next| :: !Eq(next[i], g)) ==> out == next + [g])
    ensures forall x | x in out :: Candidate(N, k, L + 1, x)
    ensures UniqueSets(out)
    ensures MemberSets(out) == MemberSets(next) + {Members(c) + {u}}
  {
    var g := Clique(c.vertices + [u], c.reachable * N[u]);
    CandidateExtend(N, k, L, c, u);
    assert Members(g) == Members(c) + {u};
    AddSets(next, g, out);
  }

  /** If every candidate has grown by every vertex it may grow by, every
      (L+1)-vertex part of every k-clique is among the grown ones. */
  lemma ExtendComplete(N: map<int, set<int>>, k: int, L: nat, cliques: seq<Clique<set<int>>>,
                       next: seq<Clique<set<int>>>)
    requires NbrOk(N) && Level(N, k, L, cliques)
    requires Covered(N, k, cliques, |cliques|, next)
    ensures Complete(N, k, L + 1, next)
  {
    var L1 := L + 1;
    forall C, T | Part(N, k, C, T, L1) ensures T in MemberSets(next) {
      var i, u := PartGrown(N, k, L, cliques, C, T);
    }
  }

  /** A part of size L + 1 is some clique of level L grown by one vertex. */
  lemma PartGrown(N: map<int, set<int>>, k: int, L: nat, cliques: seq<Clique<set<int>>>, C: set<int>, T: set<int>)
    returns (i: nat, u: int)
    requires NbrOk(N) && Level(N, k, L, cliques)
    requires Part(N, k, C, T, L + 1)
    ensures i < |cliques| && u in N && Grow(N, k, cliques[i], u) && Members(cliques[i]) + {u} == T
  {
    assert KClique(N, k, C) && |T| != 0;
    u := Pick(T);
    var T0 := T - {u};
    SubsetCard(T0, C);
    assert Part(N, k, C, T0, L);
    i :| 0 <= i < |cliques| && Members(cliques[i]) == T0;
    var c := cliques[i];
    assert Candidate(N, k, L, c);
    CommonIff(N, c.vertices, u);
    forall x | x in C ensures x in c.reachable * N[u] {
      CommonIff(N, c.vertices, x);
      forall j | 0 <= j < |c.vertices| ensures x in N[c.vertices[j]] {
        var y := c.vertices[j];
        assert y in Members(c);
        assert y in C;
        assert x in N[y];
      }
    }
    forall j | 0 <= j < |c.vertices| ensures u in N[c.vertices[j]] {
      assert c.vertices[j] in Members(c);
      assert c.vertices[j] in C;
    }
    assert u !in Members(c);
    SubsetCard(C, c.reachable * N[u]);
    assert Grow(N, k, c, u);
    assert Members(c) + {u} == T;
  }

  /** A graph clique: k distinct vertices, every two of them joined by an edge. */
  ghost predicate GraphClique(vertices: seq<int>, edges: seq<Edge>, k: int, C: set<int>) {
    |C| == k && (forall x | x in C :: x in vertices) &&
    forall x, y | x in C && y in C && x != y :: Linked(edges, x, y)
  }

  ghost predicate HasClique(vertices: seq<int>, edges: seq<Edge>, k: int) {
    exists C :: GraphClique(vertices, edges, k, C)
  }

  lemma KCliqueIff(vertices: seq<int>, edges: seq<Edge>, k: int, C: set<int>)
    ensures KClique(NbrMap(vertices, edges), k, C) <==> GraphClique(vertices, edges, k, C)
  {
    var N := NbrMap(vertices, edges);
    assert N.Keys == set v | v in vertices;
    forall x, y | x in C && y in C && y in vertices
      ensures x in N[y] <==> x == y || Linked(edges, x, y)
    {
      ClosedIff(edges, y, x);
      assert N[y] == Closed(edges, y);
    }
    if GraphClique(vertices, edges, k, C) {
      forall x, y | x in C && y in C ensures x in N[y] {
        if x != y {
          assert Linked(edges, x, y);
        }
      }
    }
  }

  /** `solve`: the closed neighbourhoods, the seeds, k - 1 levels of growth,
      then any one candidate left (`set.pop`), or None. A returned tuple is a
      clique of k vertices (one vertex when k <= 1); for k >= 1 None is
      returned exactly when the graph has no clique of k vertices, so pruning
      loses no clique. */
  method Solve(vertices: seq<int>, edges: seq<Edge>, k: int) returns (r: Result<Option<seq<int>>>)
    ensures r.Err? <==> !EndpointsIn(vertices, edges)
    ensures r.Err? ==> r.error == KeyError
    ensures r.Ok? && r.value.Some? ==>
      |r.value.value| == (if k > 1 then k else 1) && IsClique(vertices, edges, r.value.value)
    ensures r.Ok? && k >= 1 ==> (r.value.None? <==> !HasClique(vertices, edges, k))
    ensures r.Ok? && k < 1 ==> (r.value.None? <==> vertices == [])
  {
    var nbrs := ClosedNeighbors(vertices, edges);
    if nbrs.Err? {
      return Err(nbrs.error);
    }
    var N := nbrs.value;
    NbrMapOk(vertices, edges);
    var seeds := Seeds(N, vertices, k);
    var cliques := seeds;
    var i := 1;
    while i < k
      invariant 1 <= i <= (if k > 1 then k else 1)
      invariant i == 1 ==> cliques == seeds
      invariant Level(N, k, i, cliques)
    {
      cliques := Extend(N, k, i, cliques);
      i := i + 1;
    }
    Outcome(vertices, edges, k, i, cliques);
    if |cliques| > 0 {
      assert cliques[0] in cliques;
      var c :| c in cliques;
      return Ok(Some(c.vertices));
    }
    return Ok(None);
  }

  /** What the final level says about the graph: each candidate is a clique of
      max(k, 1) vertices, and there is none exactly when the graph has no
      clique of k vertices (for k < 1: no vertex). */
  lemma Outcome(vertices: seq<int>, edges: seq<Edge>, k: int, L: nat, cliques: seq<Clique<set<int>>>)
    requires EndpointsIn(vertices, edges) && L == (if k > 1 then k else 1)
    requires Level(NbrMap(vertices, edges), k, L, cliques)
    requires k < 1 ==> MemberSets(cliques) == set v | v in vertices && |NbrMap(vertices, edges)[v]| >= k :: {v}
    ensures forall c | c in cliques :: |c.vertices| == L && IsClique(vertices, edges, c.vertices)
    ensures k >= 1 ==> (cliques == [] <==> !HasClique(vertices, edges, k))
    ensures k < 1 ==> (cliques == [] <==> vertices == [])
  {
    forall c | c in cliques ensures |c.vertices| == L && IsClique(vertices, edges, c.vertices) {
      FoundClique(vertices, edges, k, L, c);
    }
    if cliques != [] {
      assert cliques[0] in cliques;
      FoundClique(vertices, edges, k, L, cliques[0]);
      assert cliques[0].vertices[0] in NbrMap(vertices, edges);
    }
    NoneFound(vertices, edges, k, cliques);
  }

  /** A candidate's vertices, in order, with no vertex twice and every two joined. */
  ghost predicate IsClique(vertices: seq<int>, edges: seq<Edge>, vs: seq<int>) {
    Distinct(vs) && (forall i | 0 <= i < |vs| :: vs[i] in vertices) &&
    forall i, j | 0 <= i < |vs| && 0 <= j < |vs| && i != j :: Linked(edges, vs[i], vs[j])
  }

  /** Every candidate is a clique of the graph; after k levels its vertex set
      witnesses a clique of k vertices. */
  lemma FoundClique(vertices: seq<int>, edges: seq<Edge>, k: int, L: nat, c: Clique<set<int>>)
    requires Candidate(NbrMap(vertices, edges), k, L, c)
    ensures IsClique(vertices, edges, c.vertices)
    ensures L == k ==> HasClique(vertices, edges, k)
  {
    var N := NbrMap(vertices, edges);
    forall a, b | 0 <= a < |c.vertices| && 0 <= b < |c.vertices| && a != b
      ensures Linked(edges, c.vertices[a], c.vertices[b])
    {
      ClosedIff(edges, c.vertices[b], c.vertices[a]);
    }
    if L == k {
      DistinctCard(c.vertices);
      KCliqueIff(vertices, edges, k, Members(c));
      assert GraphClique(vertices, edges, k, Members(c));
    }
  }

  /** An empty final set means no clique of k vertices (and, for k < 1, no vertex). */
  lemma NoneFound(vertices: seq<int>, edges: seq<Edge>, k: int, cliques: seq<Clique<set<int>>>)
    requires EndpointsIn(vertices, edges)
    requires k >= 1 ==> Level(NbrMap(vertices, edges), k, k, cliques)
    requires k < 1 ==> MemberSets(cliques) == set v | v in vertices && |NbrMap(vertices, edges)[v]| >= k :: {v}
    ensures k >= 1 && HasClique(vertices, edges, k) ==> cliques != []
    ensures k < 1 && vertices != [] ==> cliques != []
  {
    var N := NbrMap(vertices, edges);
    if k >= 1 && HasClique(vertices, edges, k) {
      var C :| GraphClique(vertices, edges, k, C);
      KCliqueIff(vertices, edges, k, C);
      assert Part(N, k, C, C, k);
      assert C in MemberSets(cliques);
    }
    if k < 1 && vertices != [] {
      NbrMapOk(vertices, edges);
      assert vertices[0] in N[vertices[0]];
      assert {vertices[0]} in MemberSets(cliques);
    }
  }
}
