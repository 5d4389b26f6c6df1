/** src/util/graphs.py: weighted undirected graphs. The `Graph` object with its
    neighbour lists and weight table, the uniform-cost search `dfs`, the
    weighted file format and `add_clique`. */
module Graphs {
  import opened Wrappers
  import opened Text
  import opened FileIO
  import opened LineParse
  import GraphUtil

  /** (v0, v1, weight). */
  type Edge = (int, int, int)

  /** Neighbour lists: vertex -> [(neighbour, weight)]. */
  type Table = map<int, seq<(int, int)>>

  predicate EndpointsIn(vertices: seq<int>, edges: seq<Edge>) {
    forall k | 0 <= k < |edges| :: edges[k].0 in vertices && edges[k].1 in vertices
  }

  // ========================================================= neighbour lists

  /** What `m_neighbors[v]` holds after the first |edges| edges: for each edge
      (v0, v1, w) in order, (v1, w) when v == v0, then (v0, w) when v == v1. */
  function Incident(edges: seq<Edge>, v: int): seq<(int, int)> {
    if edges == [] then []
    else
      var e := edges[|edges| - 1];
      Incident(edges[..|edges| - 1], v) +
        (if e.0 == v then [(e.1, e.2)] else []) + (if e.1 == v then [(e.0, e.2)] else [])
  }

  /** The neighbour table the constructor builds. */
  function NeighborTable(vertices: seq<int>, edges: seq<Edge>): Table {
    map v | v in vertices :: Incident(edges, v)
  }

  /** How many edge ends sit at v (a self-loop counts twice). */
  function Ends(edges: seq<Edge>, v: int): nat {
    if edges == [] then 0
    else
      var e := edges[|edges| - 1];
      Ends(edges[..|edges| - 1], v) + (if e.0 == v then 1 else 0) + (if e.1 == v then 1 else 0)
  }

  /** Adjacency is symmetric, with the same weight both ways, and each list
      has one entry per edge end at its vertex. */
  lemma {:induction false} IncidentSymmetric(edges: seq<Edge>, a: int, b: int, w: int)
    ensures (b, w) in Incident(edges, a) <==> (a, w) in Incident(edges, b)
    ensures |Incident(edges, a)| == Ends(edges, a)
  {
    if edges != [] {
      IncidentSymmetric(edges[..|edges| - 1], a, b, w);
    }
  }

  /** Every listed neighbour is an endpoint of some edge, hence a vertex. */
  lemma {:induction false} IncidentEndpoints(vertices: seq<int>, edges: seq<Edge>, v: int)
    requires EndpointsIn(vertices, edges)
    ensures forall k | 0 <= k < |Incident(edges, v)| :: Incident(edges, v)[k].0 in vertices
  {
    if edges != [] {
      var init := edges[..|edges| - 1];
      assert EndpointsIn(vertices, init) by {
        forall k | 0 <= k < |init| ensures init[k] == edges[k] { }
      }
      IncidentEndpoints(vertices, init, v);
      var e := edges[|edges| - 1];
      var extra := (if e.0 == v then [(e.1, e.2)] else []) + (if e.1 == v then [(e.0, e.2)] else []);
      assert Incident(edges, v) == Incident(init, v) + extra;
      assert forall k | 0 <= k < |extra| :: extra[k].0 in vertices;
    }
  }

  // ============================================================ weight table

  /** `setdefault(a, {})[b] = w`. */
  function SetWeight(t: map<int, map<int, int>>, a: int, b: int, w: int): map<int, map<int, int>> {
    t[a := (if a in t then t[a] else map[])[b := w]]
  }

  /** What `m_m_edges` holds after the first |edges| edges. */
  function WeightTable(edges: seq<Edge>): map<int, map<int, int>> {
    if edges == [] then map[]
    else
      var e := edges[|edges| - 1];
      SetWeight(SetWeight(WeightTable(edges[..|edges| - 1]), e.0, e.1, e.2), e.1, e.0, e.2)
  }

  /** The weight of the last listed edge joining a and b, in either direction. */
  function LastWeight(edges: seq<Edge>, a: int, b: int): Option<int> {
    if edges == [] then None
    else
      var e := edges[|edges| - 1];
      if (e.0 == a && e.1 == b) || (e.0 == b && e.1 == a) then Some(e.2)
      else LastWeight(edges[..|edges| - 1], a, b)
  }

  /** The weight table has an entry for a and b exactly when some edge joins
      them, the entry is the weight of the last such edge, and the table is
      symmetric. */
  lemma {:induction false} WeightTableSpec(edges: seq<Edge>, a: int, b: int)
    ensures (a in WeightTable(edges) && b in WeightTable(edges)[a]) <==> LastWeight(edges, a, b).Some?
    ensures a in WeightTable(edges) && b in WeightTable(edges)[a] ==>
      WeightTable(edges)[a][b] == LastWeight(edges, a, b).value
    ensures LastWeight(edges, a, b) == LastWeight(edges, b, a)
  {
    if edges != [] {
      WeightTableSpec(edges[..|edges| - 1], a, b);
    }
  }

  /** Some edge joins a and b exactly when LastWeight finds one. */
  lemma {:induction false} LastWeightSome(edges: seq<Edge>, a: int, b: int)
    ensures LastWeight(edges, a, b).Some? <==>
      exists j | 0 <= j < |edges| :: (edges[j].0 == a && edges[j].1 == b) || (edges[j].0 == b && edges[j].1 == a)
  {
    if edges != [] {
      var init := edges[..|edges| - 1];
      LastWeightSome(init, a, b);
      if exists j | 0 <= j < |edges| :: (edges[j].0 == a && edges[j].1 == b) || (edges[j].0 == b && edges[j].1 == a) {
        var j :| 0 <= j < |edges| && ((edges[j].0 == a && edges[j].1 == b) || (edges[j].0 == b && edges[j].1 == a));
        if j < |init| {
          assert init[j] == edges[j];
        }
      }
      if exists j | 0 <= j < |init| :: (init[j].0 == a && init[j].1 == b) || (init[j].0 == b && init[j].1 == a) {
        var j :| 0 <= j < |init| && ((init[j].0 == a && init[j].1 == b) || (init[j].0 == b && init[j].1 == a));
        assert init[j] == edges[j];
      }
    }
  }

  /** The constructor's step keeps every list equal to the incident pairs of
      the edges so far: the first end's list gets the second end, then the
      second end's list gets the first. */
  lemma TableStep(t: Table, es: seq<Edge>, e: Edge)
    requires e.0 in t && e.1 in t && forall v | v in t :: t[v] == Incident(es, v)
    ensures var t1 := t[e.0 := t[e.0] + [(e.1, e.2)]];
      var t2 := t1[e.1 := t1[e.1] + [(e.0, e.2)]];
      t2.Keys == t.Keys && forall v | v in t2 :: t2[v] == Incident(es + [e], v)
  {
    var t1 := t[e.0 := t[e.0] + [(e.1, e.2)]];
    var t2 := t1[e.1 := t1[e.1] + [(e.0, e.2)]];
    assert (es + [e])[..|es|] == es;
    forall v | v in t2 ensures t2[v] == Incident(es + [e], v) {
      IncidentStep(t[v], e, v);
    }
  }

  /** One vertex's list after the step. */
  lemma IncidentStep(before: seq<(int, int)>, e: Edge, v: int)
    ensures (if v == e.1 then (if v == e.0 then before + [(e.1, e.2)] else before) + [(e.0, e.2)]
             else if v == e.0 then before + [(e.1, e.2)] else before) ==
      before + (if e.0 == v then [(e.1, e.2)] else []) + (if e.1 == v then [(e.0, e.2)] else [])
  {
  }

  // =================================================================== Graph

  class Graph {
    var vertices: seq<int>
    var edges: seq<Edge>
    var mNeighbors: Table
    var mmEdges: map<int, map<int, int>>

    /** Every listed neighbour has a list of its own. */
    predicate Valid()
      reads this
    {
      Closed(mNeighbors)
    }

    /** `Graph(vertices, edges)`: build the neighbour lists edge by edge, then
        the weight table edge by edge. */
    constructor (vertices: seq<int>, edges: seq<Edge>)
      requires EndpointsIn(vertices, edges)
      ensures this.vertices == vertices && this.edges == edges
      ensures mNeighbors == NeighborTable(vertices, edges)
      ensures mmEdges == WeightTable(edges)
      ensures Valid()
    {
      var nbrs: Table := map v | v in vertices :: [];
      var i := 0;
      while i < |edges|
        invariant 0 <= i <= |edges|
        invariant nbrs.Keys == set v | v in vertices
        invariant forall v | v in nbrs :: nbrs[v] == Incident(edges[..i], v)
      {
        var v0, v1, weight := edges[i].0, edges[i].1, edges[i].2;
        assert edges[..i + 1] == edges[..i] + [edges[i]];
        ghost var before := nbrs;
        nbrs := nbrs[v0 := nbrs[v0] + [(v1, weight)]];
        nbrs := nbrs[v1 := nbrs[v1] + [(v0, weight)]];
        TableStep(before, edges[..i], edges[i]);
        i := i + 1;
      }
      assert edges[..|edges|] == edges;
      assert nbrs == NeighborTable(vertices, edges);
      var table: map<int, map<int, int>> := map[];
      i := 0;
      while i < |edges|
        invariant 0 <= i <= |edges|
        invariant table == WeightTable(edges[..i])
      {
        var v0, v1, weight := edges[i].0, edges[i].1, edges[i].2;
        assert edges[..i + 1][..i] == edges[..i];
        table := SetWeight(table, v0, v1, weight);
        table := SetWeight(table, v1, v0, weight);
        i := i + 1;
      }
      this.vertices := vertices;
      this.edges := edges;
      mNeighbors := nbrs;
      mmEdges := table;
      new;
      forall v, k | v in nbrs && 0 <= k < |nbrs[v]| ensures nbrs[v][k].0 in nbrs {
        IncidentEndpoints(vertices, edges, v);
      }
    }
  }

  // ============================================================== file format

  /** One edge line: "v0 v1" has weight 1, "v0 v1 w" has weight w, any other
      token count is a ValueError. */
  function ParseEdge(line: string): (r: Result<Edge>)
    ensures |Split(line)| != 2 && |Split(line)| != 3 ==> r == Err(ValueError)
    ensures r.Ok? ==>
      (ParseInt(Split(line)[0]) == Ok(r.value.0) && ParseInt(Split(line)[1]) == Ok(r.value.1) &&
       (if |Split(line)| == 2 then r.value.2 == 1 else ParseInt(Split(line)[2]) == Ok(r.value.2)))
  {
    var toks := Split(line);
    if |toks| == 2 then
      var v0 :- ParseInt(toks[0]);
      var v1 :- ParseInt(toks[1]);
      Ok((v0, v1, 1))
    else if |toks| == 3 then
      var v0 :- ParseInt(toks[0]);
      var v1 :- ParseInt(toks[1]);
      var w :- ParseInt(toks[2]);
      Ok((v0, v1, w))
    else Err(ValueError)
  }

  /** read_from_file over the lines of the file. */
  method ReadFromFile(raw: seq<string>) returns (r: Result<(seq<int>, seq<Edge>)>)
    ensures r == ParseGraph(CleanLines(raw), ParseEdge)
  {
    var lines := ReadDataLines(raw);
    r := ReadGraph(lines, ParseEdge);
  }

  /** The "v0 v1 weight" text of an edge line. */
  function EdgeText(e: Edge): string {
    IntToString(e.0) + " " + IntToString(e.1) + " " + IntToString(e.2)
  }

  /** write_to_file's lines: counts, vertices, then "v0 v1 weight" edges. */
  function WriteToFile(vertices: seq<int>, edges: seq<Edge>): (lines: seq<string>)
    ensures |lines| == 2 + |vertices| + |edges|
    ensures lines[0] == Line(IntToString(|vertices|)) && lines[1] == Line(IntToString(|edges|))
    ensures forall k | 0 <= k < |vertices| :: lines[2 + k] == Line(IntToString(vertices[k]))
    ensures forall k | 0 <= k < |edges| :: lines[2 + |vertices| + k] == Line(EdgeText(edges[k]))
  {
    Lines(GraphTexts(vertices, edges, EdgeText))
  }

  lemma EdgeTextParses(e: Edge)
    ensures EdgeText(e) != [] && '#' !in EdgeText(e) && Trimmed(EdgeText(e))
    ensures ParseEdge(EdgeText(e)) == Ok(e)
  {
    var ns := [e.0, e.1, e.2];
    JoinedInts(ns);
    var ts := seq(|ns|, k requires 0 <= k < |ns| => IntToString(ns[k]));
    assert ts == [IntToString(e.0), IntToString(e.1), IntToString(e.2)];
    assert ts[1..][1..] == [IntToString(e.2)];
    assert JoinSpace(ts[1..]) == IntToString(e.1) + " " + IntToString(e.2);
    assert JoinSpace(ts) == EdgeText(e);
    ParseIntToString(e.0);
    ParseIntToString(e.1);
    ParseIntToString(e.2);
  }

  /** Reading back what write_to_file wrote gives the same weighted graph. */
  lemma RoundTrip(vertices: seq<int>, edges: seq<Edge>)
    ensures ParseGraph(CleanLines(WriteToFile(vertices, edges)), ParseEdge) == Ok((vertices, edges))
  {
    WrittenTexts(vertices, edges);
    ReadTexts(vertices, edges);
  }

  /** Cleaning the written lines leaves the written texts. */
  lemma WrittenTexts(vertices: seq<int>, edges: seq<Edge>)
    ensures CleanLines(WriteToFile(vertices, edges)) == GraphTexts(vertices, edges, EdgeText)
  {
    forall k | 0 <= k < |edges| ensures EdgeText(edges[k]) != [] && '#' !in EdgeText(edges[k]) && Trimmed(EdgeText(edges[k])) {
      EdgeTextParses(edges[k]);
    }
    CleanWrittenGraph(vertices, edges, EdgeText);
  }

  /** The written texts parse back to the graph. */
  lemma ReadTexts(vertices: seq<int>, edges: seq<Edge>)
    ensures ParseGraph(GraphTexts(vertices, edges, EdgeText), ParseEdge) == Ok((vertices, edges))
  {
    forall k | 0 <= k < |edges| ensures ParseEdge(EdgeText(edges[k])) == Ok(edges[k]) {
      EdgeTextParses(edges[k]);
    }
    ReadGraphTexts(vertices, edges, EdgeText, ParseEdge);
  }

  // ============================================================= add_clique

  /** `add_clique(vertices, edges, k)` with the draws of `random.choices` given
      as `idx`: every pair of chosen vertices (i < j) is joined by a weight-1
      edge, appended only when that exact tuple is absent. The list the source
      extends in place is returned; vertices are left as they are. */
  method AddClique(vertices: seq<int>, edges: seq<Edge>, k: int, idx: seq<nat>)
    returns (r: Result<seq<Edge>>)
    requires GraphUtil.ValidPicks(vertices, k, idx)
    ensures r.Err? <==> k > 0 && vertices == []
    ensures r.Err? ==> r.error == IndexError
    ensures r.Ok? ==> var c := GraphUtil.Choices(vertices, k, idx).value;
      r.value == GraphUtil.AppendAbsent(edges, GraphUtil.CliquePairs(c, (a, b) => (a, b, 1)))
    ensures r.Ok? ==> edges <= r.value
    ensures r.Ok? ==> var c := GraphUtil.Choices(vertices, k, idx).value;
      forall i, j | 0 <= i < j < |c| :: (c[i], c[j], 1) in r.value
    ensures r.Ok? ==> forall p | |edges| <= p < |r.value| :: r.value[p] !in r.value[..p]
  {
    var chosen := GraphUtil.Choices(vertices, k, idx);
    if chosen.Err? {
      return Err(chosen.error);
    }
    var out := GraphUtil.AddCliqueEdges(edges, chosen.value, (a, b) => (a, b, 1));
    GraphUtil.AddCliqueEdgesSpec(edges, chosen.value, (a, b) => (a, b, 1));
    return Ok(out);
  }

  // ==================================================================== dfs

  /** A walk from s is a list of (node, weight) steps, each taken from the
      neighbour list of the node reached so far. */
  function End(s: int, steps: seq<(int, int)>): int {
    if steps == [] then s else steps[|steps| - 1].0
  }

  function Cost(steps: seq<(int, int)>): int {
    if steps == [] then 0 else Cost(steps[..|steps| - 1]) + steps[|steps| - 1].1
  }

  predicate IsWalk(N: Table, s: int, steps: seq<(int, int)>) {
    steps == [] ||
    (var init := steps[..|steps| - 1];
     IsWalk(N, s, init) && End(s, init) in N && steps[|steps| - 1] in N[End(s, init)])
  }

  /** Some walk from s reaches x at cost d. */
  ghost predicate WalkTo(N: Table, s: int, x: int, d: int) {
    exists steps :: IsWalk(N, s, steps) && End(s, steps) == x && Cost(steps) == d
  }

  /** No walk from s is cheaper than the recorded distance of its end. */
  ghost predicate Minimal(N: Table, s: int, dist: map<int, int>) {
    forall steps | IsWalk(N, s, steps) && End(s, steps) in dist :: dist[End(s, steps)] <= Cost(steps)
  }

  predicate NonNeg(N: Table) {
    forall v, k | v in N && 0 <= k < |N[v]| :: N[v][k].1 >= 0
  }

  /** Every settled node that has a neighbour list has had it pushed: each
      neighbour is settled or queued at the distance through that node. */
  ghost predicate Expanded(N: Table, dist: map<int, int>, q: multiset<(int, int)>) {
    forall x, k | x in dist && x in N && 0 <= k < |N[x]| ::
      N[x][k].0 in dist || (N[x][k].1 + dist[x], N[x][k].0) in q
  }

  /** The order PriorityQueue pops (distance, node) tuples in. */
  predicate LexLeq(a: (int, int), b: (int, int)) {
    a.0 < b.0 || (a.0 == b.0 && a.1 <= b.1)
  }

  lemma {:induction false} MinEntry(q: multiset<(int, int)>) returns (m: (int, int))
    requires |q| > 0
    ensures IsFirst(q, m)
    decreases |q|
  {
    var x :| x in q;
    var rest := q - multiset{x};
    if |rest| == 0 {
      m := x;
      assert q == multiset{x};
    } else {
      var m' := MinEntry(rest);
      m := if LexLeq(x, m') then x else m';
      forall y | y in q ensures LexLeq(m, y) {
        if y != x {
          assert y in rest;
        }
      }
    }
  }

  lemma WalkExtend(N: Table, s: int, steps: seq<(int, int)>, k: nat)
    requires IsWalk(N, s, steps) && End(s, steps) in N && k < |N[End(s, steps)]|
    ensures var more := steps + [N[End(s, steps)][k]];
      IsWalk(N, s, more) && End(s, more) == N[End(s, steps)][k].0 &&
      Cost(more) == Cost(steps) + N[End(s, steps)][k].1
  {
    var more := steps + [N[End(s, steps)][k]];
    assert more[..|more| - 1] == steps;
  }

  /** Following one more neighbour entry of x extends a walk to x. */
  lemma WalkToExtend(N: Table, s: int, x: int, d: int, k: nat)
    requires WalkTo(N, s, x, d) && x in N && k < |N[x]|
    ensures WalkTo(N, s, N[x][k].0, N[x][k].1 + d)
  {
    var steps :| IsWalk(N, s, steps) && End(s, steps) == x && Cost(steps) == d;
    WalkExtend(N, s, steps, k);
  }

  lemma {:induction false} CostNonNeg(N: Table, s: int, steps: seq<(int, int)>)
    requires NonNeg(N) && IsWalk(N, s, steps)
    ensures Cost(steps) >= 0
  {
    if steps != [] {
      var init := steps[..|steps| - 1];
      CostNonNeg(N, s, init);
      var k :| 0 <= k < |N[End(s, init)]| && N[End(s, init)][k] == steps[|steps| - 1];
    }
  }

  /** A walk from a settled start to an unsettled node leaves the settled set
      somewhere; the queue holds the entry for that first unsettled node, at a
      distance no greater than the walk's cost when weights are nonnegative. */
  lemma {:induction false} FirstUnsettled(N: Table, s: int, dist: map<int, int>, q: multiset<(int, int)>,
                                          steps: seq<(int, int)>) returns (f: (int, int))
    requires s in dist && Expanded(N, dist, q) && (NonNeg(N) ==> Minimal(N, s, dist))
    requires IsWalk(N, s, steps) && End(s, steps) !in dist
    ensures f in q && (NonNeg(N) ==> f.0 <= Cost(steps))
  {
    var init := steps[..|steps| - 1];
    var y := End(s, init);
    var last := steps[|steps| - 1];
    var k :| 0 <= k < |N[y]| && N[y][k] == last;
    if y in dist {
      f := (last.1 + dist[y], last.0);
    } else {
      f := FirstUnsettled(N, s, dist, q, init);
    }
  }

  /** The neighbour entries pushed when `node` is settled at `cur`. */
  function Pushed(nbrs: seq<(int, int)>, cur: int, dist: map<int, int>): multiset<(int, int)> {
    if nbrs == [] then multiset{}
    else
      var n := nbrs[|nbrs| - 1];
      Pushed(nbrs[..|nbrs| - 1], cur, dist) + PushOne(n, cur, dist)
  }

  lemma {:induction false} PushedHas(nbrs: seq<(int, int)>, cur: int, dist: map<int, int>, k: nat)
    requires k < |nbrs| && nbrs[k].0 !in dist
    ensures (nbrs[k].1 + cur, nbrs[k].0) in Pushed(nbrs, cur, dist)
  {
    if k < |nbrs| - 1 {
      var init := nbrs[..|nbrs| - 1];
      assert init[k] == nbrs[k];
      PushedHas(init, cur, dist, k);
    }
  }

  lemma {:induction false} PushedFrom(nbrs: seq<(int, int)>, cur: int, dist: map<int, int>, e: (int, int))
    returns (k: nat)
    requires e in Pushed(nbrs, cur, dist)
    ensures k < |nbrs| && nbrs[k].0 !in dist && e == (nbrs[k].1 + cur, nbrs[k].0)
  {
    var init := nbrs[..|nbrs| - 1];
    var n := nbrs[|nbrs| - 1];
    if e in Pushed(init, cur, dist) {
      k := PushedFrom(init, cur, dist, e);
      assert init[k] == nbrs[k];
    } else {
      k := |nbrs| - 1;
    }
  }

  /** The entry the inner loop queues for one neighbour, if any. */
  function PushOne(n: (int, int), cur: int, dist: map<int, int>): multiset<(int, int)> {
    if n.0 !in dist then multiset{(n.1 + cur, n.0)} else multiset{}
  }

  lemma PushedStep(nbrs: seq<(int, int)>, i: nat, cur: int, dist: map<int, int>)
    requires i < |nbrs|
    ensures Pushed(nbrs[..i + 1], cur, dist) == Pushed(nbrs[..i], cur, dist) + PushOne(nbrs[i], cur, dist)
  {
    assert nbrs[..i + 1][..i] == nbrs[..i];
  }

  lemma MultisetAssoc(a: multiset<(int, int)>, b: multiset<(int, int)>, c: multiset<(int, int)>)
    ensures a + b + c == a + (b + c)
  {
  }

  /** The inner loop of dfs: queue every neighbour not yet settled. */
  method PushNeighbors(nbrs: seq<(int, int)>, cur: int, dist: map<int, int>, q: multiset<(int, int)>)
    returns (q': multiset<(int, int)>)
    ensures q' == q + Pushed(nbrs, cur, dist)
  {
    q' := q;
    for i := 0 to |nbrs|
      invariant q' == q + Pushed(nbrs[..i], cur, dist)
    {
      PushedStep(nbrs, i, cur, dist);
      MultisetAssoc(q, Pushed(nbrs[..i], cur, dist), PushOne(nbrs[i], cur, dist));
      var node, weight := nbrs[i].0, nbrs[i].1;
      ghost var before := q';
      if node !in dist {
        q' := q' + multiset{(weight + cur, node)};
      } else {
        assert PushOne(nbrs[i], cur, dist) == multiset{};
      }
      assert q' == before + PushOne(nbrs[i], cur, dist);
    }
    assert nbrs[..|nbrs|] == nbrs;
  }

  /** Every listed neighbour has a list of its own. */
  predicate Closed(N: Table) {
    forall v, k | v in N && 0 <= k < |N[v]| :: N[v][k].0 in N
  }

  /** e is an entry the queue may pop: no entry orders before it. */
  predicate IsFirst(q: multiset<(int, int)>, e: (int, int)) {
    e in q && forall x | x in q :: LexLeq(e, x)
  }

  /** Every queued entry is the cost of a walk to its node, which has a
      neighbour list or is the start. */
  ghost predicate QueueOk(N: Table, start: int, q: multiset<(int, int)>) {
    (forall e | e in q :: e.1 in N || e.1 == start) &&
    (forall e | e in q :: WalkTo(N, start, e.1, e.0))
  }

  /** Every settled node has a neighbour list and its distance is the cost of
      a walk to it; the target is not settled yet. */
  ghost predicate DistOk(N: Table, start: int, target: Option<int>, dist: map<int, int>) {
    (forall x | x in dist :: x in N) &&
    (target.Some? ==> target.value !in dist) &&
    (forall x | x in dist :: WalkTo(N, start, x, dist[x]))
  }

  /** With nonnegative weights, nothing settled lies above top and nothing
      queued below it. */
  ghost predicate Ordered(N: Table, dist: map<int, int>, q: multiset<(int, int)>, top: int) {
    NonNeg(N) ==> (forall x | x in dist :: dist[x] <= top) && (forall e | e in q :: top <= e.0)
  }

  /** What holds between iterations of the search loop, with `top` the last
      distance settled. */
  ghost predicate SearchInv(N: Table, start: int, target: Option<int>, dist: map<int, int>,
                            q: multiset<(int, int)>, top: int) {
    DistOk(N, start, target, dist) && QueueOk(N, start, q) &&
    (dist == map[] ==> q == multiset{(0, start)}) &&
    (dist != map[] ==> start in dist && dist[start] == 0) &&
    Expanded(N, dist, q) && Ordered(N, dist, q, top) &&
    (NonNeg(N) ==> Minimal(N, start, dist))
  }

  /** Settling the first entry's node keeps no walk cheaper than its distance. */
  lemma SettleMinimal(N: Table, start: int, dist: map<int, int>, q: multiset<(int, int)>, e: (int, int))
    requires dist == map[] ==> q == multiset{(0, start)}
    requires dist != map[] ==> start in dist
    requires Expanded(N, dist, q) && (NonNeg(N) ==> Minimal(N, start, dist))
    requires IsFirst(q, e) && e.1 !in dist
    ensures NonNeg(N) ==> Minimal(N, start, dist[e.1 := e.0])
  {
    var d' := dist[e.1 := e.0];
    if NonNeg(N) {
      forall steps | IsWalk(N, start, steps) && End(start, steps) in d'
        ensures d'[End(start, steps)] <= Cost(steps)
      {
        if End(start, steps) == e.1 {
          if dist == map[] {
            assert e == (0, start);
            CostNonNeg(N, start, steps);
          } else {
            var f := FirstUnsettled(N, start, dist, q, steps);
            assert LexLeq(e, f);
          }
        }
      }
    }
  }

  /** Settling the first entry's node leaves every settled node expanded once
      its neighbours are queued. */
  lemma SettleExpanded(N: Table, dist: map<int, int>, q: multiset<(int, int)>, e: (int, int),
                       pushed: multiset<(int, int)>)
    requires Expanded(N, dist, q) && e in q && e.1 !in dist && e.1 in N
    requires PushedAll(N[e.1], e.0, dist[e.1 := e.0], pushed)
    ensures Expanded(N, dist[e.1 := e.0], q - multiset{e} + pushed)
  {
    var node, cur := e.1, e.0;
    var d' := dist[node := cur];
    var q' := q - multiset{e} + pushed;
    forall x, k | x in d' && x in N && 0 <= k < |N[x]|
      ensures N[x][k].0 in d' || (N[x][k].1 + d'[x], N[x][k].0) in q'
    {
      var n := N[x][k];
      if n.0 !in d' && x != node {
        var f := (n.1 + dist[x], n.0);
        assert f in q && f != e;
        assert f in q - multiset{e};
      }
    }
  }

  /** Settling the first entry's node keeps every queued entry the cost of a
      walk, at a node with a neighbour list (or the start), and no cheaper
      than the new top. */
  lemma SettleQueue(N: Table, start: int, q: multiset<(int, int)>, e: (int, int), pushed: multiset<(int, int)>)
    requires Closed(N) && QueueOk(N, start, q) && IsFirst(q, e) && e.1 in N
    requires PushedOnly(N[e.1], e.0, pushed)
    ensures QueueOk(N, start, q - multiset{e} + pushed)
    ensures NonNeg(N) ==> forall f | f in q - multiset{e} + pushed :: e.0 <= f.0
  {
    var q' := q - multiset{e} + pushed;
    forall f | f in q'
      ensures (f.1 in N || f.1 == start) && WalkTo(N, start, f.1, f.0) && (NonNeg(N) ==> e.0 <= f.0)
    {
      if f in q - multiset{e} {
        assert f in q && LexLeq(e, f);
      } else {
        PushedEntry(N, start, e, pushed, f);
      }
    }
  }

  /** An entry pushed from the settled node is the cost of a walk through it
      to a node with a neighbour list, no cheaper than the node itself when
      weights are nonnegative. */
  lemma PushedEntry(N: Table, start: int, e: (int, int), pushed: multiset<(int, int)>, f: (int, int))
    requires Closed(N) && e.1 in N && WalkTo(N, start, e.1, e.0)
    requires PushedOnly(N[e.1], e.0, pushed) && f in pushed
    ensures f.1 in N && WalkTo(N, start, f.1, f.0) && (NonNeg(N) ==> e.0 <= f.0)
  {
    var k :| 0 <= k < |N[e.1]| && f == (N[e.1][k].1 + e.0, N[e.1][k].0);
    WalkToExtend(N, start, e.1, e.0, k);
  }

  /** Settling the first entry's node keeps the settled distances in order
      below the queue, with the new node's distance as the new top. */
  lemma SettleOrdered(N: Table, dist: map<int, int>, q: multiset<(int, int)>, top: int, e: (int, int),
                      pushed: multiset<(int, int)>)
    requires Ordered(N, dist, q, top) && e in q
    requires NonNeg(N) ==> forall f | f in q - multiset{e} + pushed :: e.0 <= f.0
    ensures Ordered(N, dist[e.1 := e.0], q - multiset{e} + pushed, e.0)
  {
  }

  /** Settling the first entry's node, which is not the target, keeps every
      settled distance the cost of a walk and the start settled at 0. */
  lemma SettleDist(N: Table, start: int, target: Option<int>, dist: map<int, int>,
                   q: multiset<(int, int)>, e: (int, int))
    requires DistOk(N, start, target, dist) && QueueOk(N, start, q)
    requires dist == map[] ==> q == multiset{(0, start)}
    requires dist != map[] ==> start in dist && dist[start] == 0
    requires e in q && e.1 !in dist && e.1 in N && target != Some(e.1)
    ensures DistOk(N, start, target, dist[e.1 := e.0])
    ensures start in dist[e.1 := e.0] && dist[e.1 := e.0][start] == 0
  {
    if dist == map[] {
      assert e == (0, start);
    }
  }

  /** Every entry in pushed is one of the neighbour entries, at the distance
      through the node being settled. */
  ghost predicate PushedOnly(nbrs: seq<(int, int)>, cur: int, pushed: multiset<(int, int)>) {
    forall f | f in pushed :: exists k | 0 <= k < |nbrs| :: f == (nbrs[k].1 + cur, nbrs[k].0)
  }

  /** Every unsettled neighbour entry is in pushed. */
  ghost predicate PushedAll(nbrs: seq<(int, int)>, cur: int, d: map<int, int>, pushed: multiset<(int, int)>) {
    forall k | 0 <= k < |nbrs| && nbrs[k].0 !in d :: (nbrs[k].1 + cur, nbrs[k].0) in pushed
  }

  /** The multiset the inner loop pushes is exactly the unsettled neighbour entries. */
  lemma PushedExactly(nbrs: seq<(int, int)>, cur: int, d: map<int, int>)
    ensures PushedOnly(nbrs, cur, Pushed(nbrs, cur, d)) && PushedAll(nbrs, cur, d, Pushed(nbrs, cur, d))
  {
    forall f | f in Pushed(nbrs, cur, d) ensures exists k | 0 <= k < |nbrs| :: f == (nbrs[k].1 + cur, nbrs[k].0) {
      var k := PushedFrom(nbrs, cur, d, f);
    }
    forall k | 0 <= k < |nbrs| && nbrs[k].0 !in d ensures (nbrs[k].1 + cur, nbrs[k].0) in Pushed(nbrs, cur, d) {
      PushedHas(nbrs, cur, d, k);
    }
  }

  /** One settling iteration of the search loop preserves its invariant. */
  lemma Settle(N: Table, start: int, target: Option<int>, dist: map<int, int>,
               q: multiset<(int, int)>, top: int, e: (int, int), pushed: multiset<(int, int)>)
    requires Closed(N)
    requires SearchInv(N, start, target, dist, q, top) && IsFirst(q, e) && e.1 !in dist && e.1 in N
    requires target != Some(e.1)
    requires PushedOnly(N[e.1], e.0, pushed) && PushedAll(N[e.1], e.0, dist[e.1 := e.0], pushed)
    ensures SearchInv(N, start, target, dist[e.1 := e.0], q - multiset{e} + pushed, e.0)
  {
    SettleMinimal(N, start, dist, q, e);
    SettleExpanded(N, dist, q, e, pushed);
    SettleQueue(N, start, q, e, pushed);
    SettleOrdered(N, dist, q, top, e, pushed);
    SettleDist(N, start, target, dist, q, e);
  }

  /** Popping an entry whose node is already settled preserves the invariant. */
  lemma Skip(N: Table, start: int, target: Option<int>, dist: map<int, int>,
             q: multiset<(int, int)>, top: int, e: (int, int))
    requires SearchInv(N, start, target, dist, q, top) && e in q && e.1 in dist
    ensures SearchInv(N, start, target, dist, q - multiset{e}, top)
  {
    var q1 := q - multiset{e};
    forall x, k | x in dist && x in N && 0 <= k < |N[x]| && N[x][k].0 !in dist
      ensures (N[x][k].1 + dist[x], N[x][k].0) in q1
    {
      assert (N[x][k].1 + dist[x], N[x][k].0) in q;
    }
  }

  /** What dfs promises about its result r for neighbour lists N. */
  ghost predicate SearchResult(N: Table, start: int, target: Option<int>, r: Result<map<int, int>>) {
    // only looking up the neighbours of a start node that is not a vertex fails
    (r.Err? <==> start !in N && target != Some(start)) &&
    (r.Err? ==> r.error == KeyError) &&
    (target == Some(start) ==> r == Ok(map[start := 0])) &&
    (r.Ok? ==> start in r.value && r.value[start] == 0) &&
    // every distance is the cost of some walk to its node
    (r.Ok? ==> forall x | x in r.value :: WalkTo(N, start, x, r.value[x])) &&
    // with nonnegative weights, every distance is a shortest one
    (r.Ok? && NonNeg(N) ==> Minimal(N, start, r.value)) &&
    // without a target, or when the target is never reached, every reachable node is settled
    (r.Ok? && (target.None? || target.value !in r.value) ==>
      forall steps | IsWalk(N, start, steps) :: End(start, steps) in r.value) &&
    // the target is settled last, at the greatest distance
    (r.Ok? && target.Some? && target.value in r.value && NonNeg(N) ==>
      forall x | x in r.value :: r.value[x] <= r.value[target.value])
  }

  /** Once the queue is empty every node some walk reaches is settled. */
  lemma Exhausted(N: Table, start: int, target: Option<int>, dist: map<int, int>, top: int)
    requires SearchInv(N, start, target, dist, multiset{}, top)
    ensures SearchResult(N, start, target, Ok(dist))
  {
    assert dist != map[];
    forall steps | IsWalk(N, start, steps) ensures End(start, steps) in dist {
      if End(start, steps) !in dist {
        var f := FirstUnsettled(N, start, dist, multiset{}, steps);
        assert false;
      }
    }
  }

  /** Settling the target ends the search with a complete result. */
  lemma AtTarget(N: Table, start: int, target: Option<int>, dist: map<int, int>,
                 q: multiset<(int, int)>, top: int, e: (int, int))
    requires SearchInv(N, start, target, dist, q, top) && IsFirst(q, e) && e.1 !in dist
    requires target == Some(e.1)
    ensures SearchResult(N, start, target, Ok(dist[e.1 := e.0]))
  {
    var d' := dist[e.1 := e.0];
    SettleMinimal(N, start, dist, q, e);
    if dist == map[] {
      assert e == (0, start);
      assert d' == map[start := 0];
    } else {
      assert start in dist && start != e.1;
    }
    assert start in d' && d'[start] == 0;
    assert forall x | x in d' :: WalkTo(N, start, x, d'[x]) by {
      assert WalkTo(N, start, e.1, e.0);
    }
    if NonNeg(N) {
      forall x | x in d' ensures d'[x] <= d'[e.1] {
        if x != e.1 {
          assert dist[x] <= top && top <= e.0;
        }
      }
    }
  }

  /** A settled node without a neighbour list can only be the start. */
  lemma AtMissing(N: Table, start: int, target: Option<int>, dist: map<int, int>,
                  q: multiset<(int, int)>, top: int, e: (int, int))
    requires SearchInv(N, start, target, dist, q, top) && e in q && e.1 !in dist
    requires target != Some(e.1) && e.1 !in N
    ensures SearchResult(N, start, target, Err(KeyError))
  {
  }

  /** The nodes the search may still settle. */
  function Unsettled(N: Table, start: int, dist: map<int, int>): set<int> {
    (N.Keys + {start}) - dist.Keys
  }

  lemma Fewer(N: Table, start: int, dist: map<int, int>, node: int, d: int)
    requires node in N && node !in dist
    ensures Unsettled(N, start, dist[node := d]) < Unsettled(N, start, dist)
  {
    assert node in Unsettled(N, start, dist);
  }

  /** One pass of dfs's while loop: pop the first entry, then skip it when
      its node is settled, stop when its node is the target or has no
      neighbour list, and otherwise settle the node and queue its neighbours. */
  method Visit(N: Table, start: int, target: Option<int>, dist: map<int, int>, q: multiset<(int, int)>,
               ghost top: int)
    returns (dist': map<int, int>, q': multiset<(int, int)>, ghost top': int, stop: Option<Result<map<int, int>>>)
    requires Closed(N) && SearchInv(N, start, target, dist, q, top) && |q| > 0
    ensures stop.Some? ==> SearchResult(N, start, target, stop.value)
    ensures stop.None? ==> SearchInv(N, start, target, dist', q', top')
    ensures stop.None? ==> (dist' == dist && |q'| < |q|) || Unsettled(N, start, dist') < Unsettled(N, start, dist)
  {
    ghost var m := MinEntry(q);
    var e :| e in q && IsFirst(q, e);
    var cur, node := e.0, e.1;
    if node in dist {
      Skip(N, start, target, dist, q, top, e);
      return dist, q - multiset{e}, top, None;
    }
    if Some(node) == target {
      AtTarget(N, start, target, dist, q, top, e);
      return dist, q, top, Some(Ok(dist[node := cur]));
    }
    if node !in N {
      AtMissing(N, start, target, dist, q, top, e);
      return dist, q, top, Some(Err(KeyError));
    }
    dist' := dist[node := cur];
    q' := PushNeighbors(N[node], cur, dist', q - multiset{e});
    PushedExactly(N[node], cur, dist');
    Settle(N, start, target, dist, q, top, e, Pushed(N[node], cur, dist'));
    Fewer(N, start, dist, node, cur);
    return dist', q', cur, None;
  }

  // ============================================================ symmetry

  /** Every listed neighbour has a list of its own that lists the node back,
      at the same weight. */
  predicate Symmetric(N: Table) {
    forall u, k | u in N && 0 <= k < |N[u]| :: N[u][k].0 in N && (u, N[u][k].1) in N[N[u][k].0]
  }

  /** The constructor's neighbour lists are symmetric. */
  lemma NeighborTableSymmetric(vertices: seq<int>, edges: seq<Edge>)
    requires EndpointsIn(vertices, edges)
    ensures Symmetric(NeighborTable(vertices, edges))
  {
    var N: Table := NeighborTable(vertices, edges);
    forall u, k | u in N && 0 <= k < |N[u]| ensures N[u][k].0 in N && (u, N[u][k].1) in N[N[u][k].0] {
      IncidentEndpoints(vertices, edges, u);
      IncidentSymmetric(edges, u, N[u][k].0, N[u][k].1);
      assert N[u][k] in Incident(edges, u);
    }
  }

  /** A step from x to u in front of a walk from u is a walk from x. */
  lemma {:induction false} WalkPrepend(N: Table, x: int, u: int, w: int, steps: seq<(int, int)>)
    requires x in N && (u, w) in N[x] && IsWalk(N, u, steps)
    ensures IsWalk(N, x, [(u, w)] + steps) && End(x, [(u, w)] + steps) == End(u, steps)
    ensures Cost([(u, w)] + steps) == w + Cost(steps)
  {
    if steps != [] {
      var init := steps[..|steps| - 1];
      WalkPrepend(N, x, u, w, init);
      var more := [(u, w)] + steps;
      assert more[..|more| - 1] == [(u, w)] + init;
      assert more[|more| - 1] == steps[|steps| - 1];
      assert IsWalk(N, x, more);
    } else {
      var one := [(u, w)] + steps;
      assert one[..0] == [] && one[0] == (u, w);
      assert IsWalk(N, x, one);
    }
  }

  /** Over symmetric lists every walk can be walked back, at the same cost. */
  lemma {:induction false} WalkReverse(N: Table, s: int, steps: seq<(int, int)>) returns (back: seq<(int, int)>)
    requires Symmetric(N) && IsWalk(N, s, steps)
    ensures IsWalk(N, End(s, steps), back) && End(End(s, steps), back) == s && Cost(back) == Cost(steps)
  {
    if steps == [] {
      back := [];
    } else {
      var init := steps[..|steps| - 1];
      var u := End(s, init);
      var last := steps[|steps| - 1];
      var rest := WalkReverse(N, s, init);
      var k :| 0 <= k < |N[u]| && N[u][k] == last;
      WalkPrepend(N, last.0, u, last.1, rest);
      back := [(u, last.1)] + rest;
    }
  }

  /** Over symmetric lists, x is reachable from y at cost d exactly when y is
      reachable from x at cost d. */
  lemma WalkToSymmetric(N: Table, x: int, y: int, d: int)
    requires Symmetric(N) && WalkTo(N, x, y, d)
    ensures WalkTo(N, y, x, d)
  {
    var steps :| IsWalk(N, x, steps) && End(x, steps) == y && Cost(steps) == d;
    var back := WalkReverse(N, x, steps);
  }

  /** Complete searches from a and from b over symmetric lists with
      nonnegative weights agree: b is reached from a exactly when a is reached
      from b, at the same distance. */
  lemma DfsSymmetric(N: Table, a: int, b: int, da: map<int, int>, db: map<int, int>)
    requires Symmetric(N) && NonNeg(N)
    requires SearchResult(N, a, None, Ok(da)) && SearchResult(N, b, None, Ok(db))
    ensures b in da <==> a in db
    ensures b in da ==> da[b] == db[a]
  {
    if b in da {
      WalkToSymmetric(N, a, b, da[b]);
      var steps :| IsWalk(N, b, steps) && End(b, steps) == a && Cost(steps) == da[b];
      assert a in db;
    }
    if a in db {
      WalkToSymmetric(N, b, a, db[a]);
      var steps :| IsWalk(N, a, steps) && End(a, steps) == b && Cost(steps) == db[a];
      assert b in da;
    }
  }

  /** `dfs(graph, start_node, target_node)`: a uniform-cost search that
      settles the queued (distance, node) entry popped first, skips nodes
      already settled, stops once the target is settled and otherwise queues
      the unsettled neighbours. */
  method Dfs(g: Graph, start: int, target: Option<int>) returns (r: Result<map<int, int>>)
    requires g.Valid()
    ensures SearchResult(g.mNeighbors, start, target, r)
  {
    var N := g.mNeighbors;
    var dist: map<int, int> := map[];
    var q: multiset<(int, int)> := multiset{(0, start)};
    ghost var top := 0;
    assert WalkTo(N, start, start, 0) by {
      assert IsWalk(N, start, []) && End(start, []) == start && Cost([]) == 0;
    }
    while |q| > 0
      invariant SearchInv(N, start, target, dist, q, top)
      decreases Unsettled(N, start, dist), |q|
    {
      var stop;
      dist, q, top, stop := Visit(N, start, target, dist, q, top);
      if stop.Some? {
        return stop.value;
      }
    }
    Exhausted(N, start, target, dist, top);
    return Ok(dist);
  }
}
