/** clique2.py at the top of the repository: the earlier level-wise clique
    enumerator. It grows candidates over open neighbour lists with no pruning
    by size and returns the whole final set of candidates, not one clique. */
module CliqueUnpruned {
  import opened Wrappers
  import opened Arith
  import Clique2

  type Candidate = Clique2.Clique<seq<int>>

  /** Both endpoints of every edge are vertices. */
  predicate EndpointsIn(vertices: seq<int>, edges: seq<(int, int)>) {
    forall j | 0 <= j < |edges| :: edges[j].0 in vertices && edges[j].1 in vertices
  }

  /** Some edge joins x and y, in either direction. */
  ghost predicate Linked(edges: seq<(int, int)>, x: int, y: int) {
    exists i | 0 <= i < |edges| ::
      (edges[i].0 == x && edges[i].1 == y) || (edges[i].0 == y && edges[i].1 == x)
  }

  /** `m_neighbors[v]`: for each edge in order, the far end of every edge
      incident to v, once per incident end (a self-loop twice). */
  function OpenNbrs(edges: seq<(int, int)>, v: int): seq<int> {
    if edges == [] then []
    else Ends(edges[0], v) + OpenNbrs(edges[1..], v)
  }

  /** What one edge adds to v's list: the second end if the first is v, then
      the first end if the second is v. */
  function Ends(e: (int, int), v: int): seq<int> {
    (if e.0 == v then [e.1] else []) + (if e.1 == v then [e.0] else [])
  }

  /** The edge loop appends: one more edge extends v's list at the end. */
  lemma {:induction false} OpenNbrsAppend(edges: seq<(int, int)>, e: (int, int), v: int)
    ensures OpenNbrs(edges + [e], v) == OpenNbrs(edges, v) + Ends(e, v)
  {
    if edges != [] {
      assert (edges + [e])[1..] == edges[1..] + [e];
      OpenNbrsAppend(edges[1..], e, v);
    }
  }

  /** The neighbour list of v holds exactly the vertices joined to v, so the
      relation is symmetric and v is listed only with a self-loop. */
  lemma {:induction false} OpenNbrsIff(edges: seq<(int, int)>, v: int, u: int)
    ensures u in OpenNbrs(edges, v) <==> Linked(edges, u, v)
  {
    if edges != [] {
      var rest := edges[1..];
      OpenNbrsIff(rest, v, u);
      assert forall i | 0 <= i < |rest| :: rest[i] == edges[i + 1];
      var e := edges[0];
      assert Linked(edges, u, v) <==>
        (e.0 == u && e.1 == v) || (e.0 == v && e.1 == u) || Linked(rest, u, v);
    }
  }

  /** `m_neighbors`, every vertex mapped to its neighbour list. */
  function NbrMap(vertices: seq<int>, edges: seq<(int, int)>): map<int, seq<int>> {
    map v | v in vertices :: OpenNbrs(edges, v)
  }

  /** `{v: [] for v in vertices}`, then the edge loop appending each end to
      the other's list, the first end's list before the second end is looked
      up; an end that is not a vertex raises KeyError. */
  method Neighbors(vertices: seq<int>, edges: seq<(int, int)>) returns (r: Result<map<int, seq<int>>>)
    ensures r.Err? <==> !EndpointsIn(vertices, edges)
    ensures r.Err? ==> r.error == KeyError
    ensures r.Ok? ==> r.value == NbrMap(vertices, edges)
  {
    var m: map<int, seq<int>> := map[];
    for i := 0 to |vertices|
      invariant m.Keys == set v | v in vertices[..i]
      invariant forall v | v in m :: m[v] == []
    {
      m := m[vertices[i] := []];
      assert vertices[..i + 1] == vertices[..i] + [vertices[i]];
    }
    assert vertices[..|vertices|] == vertices;
    for j := 0 to |edges|
      invariant EndpointsIn(vertices, edges[..j])
      invariant m.Keys == set v | v in vertices
      invariant forall v | v in m :: m[v] == OpenNbrs(edges[..j], v)
    {
      var v0, v1 := edges[j].0, edges[j].1;
      assert edges[..j + 1] == edges[..j] + [edges[j]];
      if v0 !in m {
        return Err(KeyError);
      }
      ghost var before := m;
      m := m[v0 := m[v0] + [v1]];
      if v1 !in m {
        return Err(KeyError);
      }
      m := m[v1 := m[v1] + [v0]];
      ListsStep(before, edges[..j], edges[j]);
    }
    assert edges[..|edges|] == edges;
    assert m == NbrMap(vertices, edges);
    return Ok(m);
  }

  /** The edge loop's step keeps every list equal to the open neighbours of
      the edges so far: the first end's list gets the second end, then the
      second end's list gets the first. */
  lemma ListsStep(m: map<int, seq<int>>, es: seq<(int, int)>, e: (int, int))
    requires e.0 in m && e.1 in m && forall v | v in m :: m[v] == OpenNbrs(es, v)
    ensures var m1 := m[e.0 := m[e.0] + [e.1]];
      var m2 := m1[e.1 := m1[e.1] + [e.0]];
      m2.Keys == m.Keys && forall v | v in m2 :: m2[v] == OpenNbrs(es + [e], v)
  {
    var m1 := m[e.0 := m[e.0] + [e.1]];
    var m2 := m1[e.1 := m1[e.1] + [e.0]];
    forall v | v in m2 ensures m2[v] == OpenNbrs(es + [e], v) {
      OpenNbrsAppend(es, e, v);
      ListStep(m[v], e, v);
    }
  }

  /** One vertex's list after the step. */
  lemma ListStep(before: seq<int>, e: (int, int), v: int)
    ensures (if v == e.1 then (if v == e.0 then before + [e.1] else before) + [e.0]
             else if v == e.0 then before + [e.1] else before) == before + Ends(e, v)
  {
  }

  /** `[r for r in reachable if r in neighbors]`. */
  function Within(reachable: seq<int>, neighbors: seq<int>): (r: seq<int>)
    ensures forall x :: x in r <==> x in reachable && x in neighbors
    ensures |r| <= |reachable|
  {
    if reachable == [] then []
    else
      var n := |reachable| - 1;
      Within(reachable[..n], neighbors) + (if reachable[n] in neighbors then [reachable[n]] else [])
  }

  // ============================================================ candidates

  /** A candidate after L levels: L distinct vertices, every two of them
      listed as each other's neighbours, and `reachable` holding exactly the
      vertices listed as a neighbour of every member. */
  ghost predicate Grown(N: map<int, seq<int>>, L: nat, c: Candidate) {
    L >= 1 && |c.vertices| == L && Distinct(c.vertices) &&
    (forall i | 0 <= i < L :: c.vertices[i] in N) &&
    (forall i, j | 0 <= i < L && 0 <= j < L && i != j :: c.vertices[i] in N[c.vertices[j]]) &&
    forall x :: x in c.reachable <==> forall i | 0 <= i < L :: x in N[c.vertices[i]]
  }

  /** Every listed neighbour is a vertex and lists back. */
  predicate Symmetric(N: map<int, seq<int>>) {
    forall v | v in N :: forall x | x in N[v] :: x in N && v in N[x]
  }

  /** With every endpoint a vertex, the neighbour lists are symmetric. */
  lemma NbrMapSymmetric(vertices: seq<int>, edges: seq<(int, int)>)
    requires EndpointsIn(vertices, edges)
    ensures Symmetric(NbrMap(vertices, edges))
  {
    var N := NbrMap(vertices, edges);
    forall v, x | v in N && x in N[v] ensures x in N && v in N[x] {
      OpenNbrsIff(edges, v, x);
      LinkedEnds(vertices, edges, x, v);
      OpenNbrsIff(edges, x, v);
    }
  }

  lemma LinkedEnds(vertices: seq<int>, edges: seq<(int, int)>, x: int, y: int)
    requires EndpointsIn(vertices, edges) && Linked(edges, x, y)
    ensures x in vertices && y in vertices && Linked(edges, y, x)
  {
    var i :| 0 <= i < |edges| &&
      ((edges[i].0 == x && edges[i].1 == y) || (edges[i].0 == y && edges[i].1 == x));
  }

  lemma SymmetricIn(N: map<int, seq<int>>, v: int, x: int)
    requires Symmetric(N) && v in N && x in N[v]
    ensures x in N && v in N[x]
  {
  }

  /** A set of L vertices, every two distinct ones neighbours. */
  ghost predicate LClique(N: map<int, seq<int>>, L: nat, T: set<int>) {
    |T| == L && T <= N.Keys && forall x, y | x in T && y in T && x != y :: x in N[y]
  }

  /** The candidates after L levels: all grown, no vertex set twice, and
      their vertex sets exactly the L-cliques. */
  ghost predicate Level(N: map<int, seq<int>>, L: nat, cs: seq<Candidate>) {
    (forall c | c in cs :: Grown(N, L, c)) && Clique2.UniqueSets(cs) &&
    forall T :: T in Clique2.MemberSets(cs) <==> LClique(N, L, T)
  }

  /** The vertex set of a grown candidate is an L-clique. */
  lemma GrownClique(N: map<int, seq<int>>, L: nat, c: Candidate)
    requires Grown(N, L, c)
    ensures LClique(N, L, Clique2.Members(c))
  {
    Clique2.DistinctCard(c.vertices);
    forall x, y | x in Clique2.Members(c) && y in Clique2.Members(c) && x != y
      ensures x in N[y]
    {
      var i :| 0 <= i < L && c.vertices[i] == x;
      var j :| 0 <= j < L && c.vertices[j] == y;
    }
  }

  /** Seeding: every vertex as a singleton whose `reachable` is its list. */
  method Seeds(N: map<int, seq<int>>, vertices: seq<int>) returns (cliques: seq<Candidate>)
    requires N.Keys == set v | v in vertices
    ensures Clique2.MemberSets(cliques) == set v | v in vertices :: {v}
    ensures Level(N, 1, cliques)
  {
    cliques := [];
    for i := 0 to |vertices|
      invariant forall c | c in cliques :: Grown(N, 1, c)
      invariant Clique2.UniqueSets(cliques)
      invariant Clique2.MemberSets(cliques) == set v | v in vertices[..i] :: {v}
    {
      var v := vertices[i];
      assert vertices[..i + 1] == vertices[..i] + [v];
      var c: Candidate := Clique2.Clique([v], N[v]);
      assert Clique2.Members(c) == {v};
      var out := Clique2.Add(cliques, c);
      Clique2.AddSets(cliques, c, out);
      cliques := out;
    }
    assert vertices[..|vertices|] == vertices;
    forall T ensures T in Clique2.MemberSets(cliques) <==> LClique(N, 1, T) {
      if T in Clique2.MemberSets(cliques) {
        var i :| 0 <= i < |cliques| && T == Clique2.Members(cliques[i]);
        assert cliques[i] in cliques;
        GrownClique(N, 1, cliques[i]);
      }
      if LClique(N, 1, T) {
        var v := Pick(T);
        if T - {v} != {} {
          var w := Pick(T - {v});
          Clique2.SubsetCard({v, w}, T);
        }
        assert T == {v};
      }
    }
  }

  /** One iteration of the level loop: every candidate grows by every vertex
      of its `reachable` list that is not already a member. */
  method Extend(N: map<int, seq<int>>, ghost L: nat, cliques: seq<Candidate>) returns (next: seq<Candidate>)
    requires Level(N, L, cliques) && L >= 1
    requires Symmetric(N)
    ensures Level(N, L + 1, next)
  {
    next := [];
    for ci := 0 to |cliques|
      invariant forall c | c in next :: Grown(N, L + 1, c)
      invariant Clique2.UniqueSets(next)
      invariant Covered(cliques, ci, next)
      invariant forall T | T in Clique2.MemberSets(next) :: LClique(N, L + 1, T)
    {
      assert cliques[ci] in cliques;
      ghost var before := next;
      next := GrowAll(N, L, cliques[ci], next);
      CoveredStep(cliques, ci, before, next);
    }
    ExtendComplete(N, L, cliques, next);
  }

  /** Every one-vertex extension of the first n candidates is a vertex set
      in next. */
  ghost predicate Covered(cliques: seq<Candidate>, n: nat, next: seq<Candidate>)
    requires n <= |cliques|
  {
    forall i, u | 0 <= i < n && u in cliques[i].reachable && u !in cliques[i].vertices ::
      Clique2.Members(cliques[i]) + {u} in Clique2.MemberSets(next)
  }

  /** Growing candidate n keeps the earlier extensions and adds its own. */
  lemma CoveredStep(cliques: seq<Candidate>, n: nat, before: seq<Candidate>, next: seq<Candidate>)
    requires n < |cliques| && Covered(cliques, n, before)
    requires Clique2.MemberSets(before) <= Clique2.MemberSets(next)
    requires forall u | u in cliques[n].reachable && u !in cliques[n].vertices ::
      Clique2.Members(cliques[n]) + {u} in Clique2.MemberSets(next)
    ensures Covered(cliques, n + 1, next)
  {
    forall i, u | 0 <= i < n + 1 && u in cliques[i].reachable && u !in cliques[i].vertices
      ensures Clique2.Members(cliques[i]) + {u} in Clique2.MemberSets(next)
    {
      if i < n {
        assert Clique2.Members(cliques[i]) + {u} in Clique2.MemberSets(before);
      }
    }
  }

  /** The inner loop over the candidate's `reachable` list. */
  method GrowAll(N: map<int, seq<int>>, ghost L: nat, c: Candidate, next0: seq<Candidate>)
    returns (next: seq<Candidate>)
    requires Grown(N, L, c)
    requires Symmetric(N)
    requires forall x | x in next0 :: Grown(N, L + 1, x)
    requires Clique2.UniqueSets(next0)
    ensures forall x | x in next :: Grown(N, L + 1, x)
    ensures Clique2.UniqueSets(next)
    ensures Clique2.MemberSets(next0) <= Clique2.MemberSets(next)
    ensures forall T | T in Clique2.MemberSets(next) :: T in Clique2.MemberSets(next0) || LClique(N, L + 1, T)
    ensures forall u | u in c.reachable && u !in c.vertices :: Clique2.Members(c) + {u} in Clique2.MemberSets(next)
  {
    next := next0;
    for j := 0 to |c.reachable|
      invariant forall x | x in next :: Grown(N, L + 1, x)
      invariant Clique2.UniqueSets(next)
      invariant Clique2.MemberSets(next0) <= Clique2.MemberSets(next)
      invariant forall T | T in Clique2.MemberSets(next) :: T in Clique2.MemberSets(next0) || LClique(N, L + 1, T)
      invariant forall u | u in c.reachable[..j] && u !in c.vertices ::
        Clique2.Members(c) + {u} in Clique2.MemberSets(next)
    {
      var vertex := c.reachable[j];
      assert c.reachable[..j + 1] == c.reachable[..j] + [vertex];
      if vertex in c.vertices {
        continue;
      }
      assert vertex in c.reachable;
      assert vertex in N[c.vertices[0]];
      SymmetricIn(N, c.vertices[0], vertex);
      var neighbors := N[vertex];
      var grown: Candidate := Clique2.Clique(c.vertices + [vertex], Within(c.reachable, neighbors));
      GrowOne(N, L, c, vertex);
      GrownClique(N, L + 1, grown);
      assert Clique2.Members(grown) == Clique2.Members(c) + {vertex};
      var out := Clique2.Add(next, grown);
      Clique2.AddSets(next, grown, out);
      next := out;
    }
  }

  /** Growing a candidate by a reachable non-member gives a candidate one level up. */
  lemma GrowOne(N: map<int, seq<int>>, L: nat, c: Candidate, u: int)
    requires Symmetric(N) && Grown(N, L, c) && u in N && u in c.reachable && u !in c.vertices
    ensures Grown(N, L + 1, Clique2.Clique(c.vertices + [u], Within(c.reachable, N[u])))
  {
    var vs := c.vertices + [u];
    assert vs[..L] == c.vertices;
    forall i, j | 0 <= i < L + 1 && 0 <= j < L + 1 && i != j ensures vs[i] in N[vs[j]] {
      if i < L && j < L {
        assert vs[i] == c.vertices[i] && vs[j] == c.vertices[j];
      } else if i == L {
        assert u in N[c.vertices[j]];
      } else {
        assert vs[j] == u && vs[i] == c.vertices[i];
        assert u in N[c.vertices[i]];
      }
    }
    assert Distinct(vs) by {
      DistinctConcat(c.vertices, [u]);
    }
    forall x ensures x in Within(c.reachable, N[u]) <==> forall i | 0 <= i < L + 1 :: x in N[vs[i]] {
      if forall i | 0 <= i < L + 1 :: x in N[vs[i]] {
        assert forall i | 0 <= i < L :: x in N[c.vertices[i]] by {
          forall i | 0 <= i < L ensures x in N[c.vertices[i]] {
            assert vs[i] == c.vertices[i];
          }
        }
        assert x in N[vs[L]];
      }
    }
  }

  /** Every (L+1)-clique is some L-clique candidate grown by one reachable vertex. */
  lemma ExtendComplete(N: map<int, seq<int>>, L: nat, cliques: seq<Candidate>, next: seq<Candidate>)
    requires Level(N, L, cliques) && L >= 1
    requires Covered(cliques, |cliques|, next)
    requires forall T | T in Clique2.MemberSets(next) :: LClique(N, L + 1, T)
    ensures forall T :: T in Clique2.MemberSets(next) <==> LClique(N, L + 1, T)
  {
    var L1 := L + 1;
    forall T | LClique(N, L1, T) ensures T in Clique2.MemberSets(next) {
      var u := Pick(T);
      var T0 := T - {u};
      assert LClique(N, L, T0);
      var i :| 0 <= i < |cliques| && Clique2.Members(cliques[i]) == T0;
      var c := cliques[i];
      assert c in cliques;
      forall j | 0 <= j < L ensures u in N[c.vertices[j]] {
        assert c.vertices[j] in Clique2.Members(c);
        assert c.vertices[j] in T && c.vertices[j] != u;
      }
      assert u !in Clique2.Members(c);
      assert T == Clique2.Members(c) + {u};
    }
  }

  /** A clique of the graph with k vertices. */
  ghost predicate GraphClique(vertices: seq<int>, edges: seq<(int, int)>, k: int, T: set<int>) {
    |T| == k && (forall x | x in T :: x in vertices) &&
    forall x, y | x in T && y in T && x != y :: Linked(edges, x, y)
  }

  lemma LCliqueIff(vertices: seq<int>, edges: seq<(int, int)>, L: nat, T: set<int>)
    ensures LClique(NbrMap(vertices, edges), L, T) <==> GraphClique(vertices, edges, L, T)
  {
    var N := NbrMap(vertices, edges);
    assert N.Keys == set v | v in vertices;
    if LClique(N, L, T) {
      forall x, y | x in T && y in T && x != y ensures Linked(edges, x, y) {
        OpenNbrsIff(edges, y, x);
      }
    }
    if GraphClique(vertices, edges, L, T) {
      forall x, y | x in T && y in T && x != y ensures x in N[y] {
        OpenNbrsIff(edges, y, x);
      }
    }
  }

  /** `clique`: the neighbour lists, every vertex seeded, k - 1 levels of
      growth, then the whole set. Its candidates have k distinct vertices (one
      when k <= 1), no vertex set appears twice, and the vertex sets are
      exactly the cliques of that size in the graph. */
  method FindCliques(vertices: seq<int>, edges: seq<(int, int)>, k: int) returns (r: Result<seq<Candidate>>)
    ensures r.Err? <==> !EndpointsIn(vertices, edges)
    ensures r.Err? ==> r.error == KeyError
    ensures r.Ok? ==> forall c | c in r.value :: |c.vertices| == (if k > 1 then k else 1) && Distinct(c.vertices)
    ensures r.Ok? ==> Clique2.UniqueSets(r.value)
    ensures r.Ok? ==> forall T ::
      T in Clique2.MemberSets(r.value) <==> GraphClique(vertices, edges, if k > 1 then k else 1, T)
  {
    var nbrs := Neighbors(vertices, edges);
    if nbrs.Err? {
      return Err(nbrs.error);
    }
    var N := nbrs.value;
    NbrMapSymmetric(vertices, edges);
    var cliques := Seeds(N, vertices);
    var i := 1;
    while i < k
      invariant 1 <= i <= (if k > 1 then k else 1)
      invariant Level(N, i, cliques)
    {
      cliques := Extend(N, i, cliques);
      i := i + 1;
    }
    forall T ensures T in Clique2.MemberSets(cliques) <==> GraphClique(vertices, edges, i, T) {
      LCliqueIff(vertices, edges, i, T);
    }
    return Ok(cliques);
  }
}
