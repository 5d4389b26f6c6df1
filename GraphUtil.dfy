/** graph_util.py: random unweighted graphs and `add_clique`, with the random
    picks supplied by the caller. The generic pieces (`random.choices`, the
    pairs of a vertex list, appending only absent edges) are shared with the
    weighted versions in src/util/graphs.py. */
module GraphUtil {
  import opened Wrappers
  import opened LineParse

  // ------------------------------------------------------- random.choices

  /** The picks `idx` index into the population. */
  function Pick<T>(pop: seq<T>, idx: seq<nat>): (r: seq<T>)
    requires forall i | 0 <= i < |idx| :: idx[i] < |pop|
    ensures |r| == |idx| && forall i | 0 <= i < |idx| :: r[i] == pop[idx[i]]
  {
    if idx == [] then [] else Pick(pop, idx[..|idx| - 1]) + [pop[idx[|idx| - 1]]]
  }

  /** The picks a caller may supply for `random.choices(pop, k=k)`: one index
      per pick, each inside the population when there is one. */
  predicate ValidPicks<T>(pop: seq<T>, k: int, idx: seq<nat>) {
    |idx| == Times(k) && (|pop| > 0 ==> forall i | 0 <= i < |idx| :: idx[i] < |pop|)
  }

  /** `random.choices(pop, k=k)`: k draws with replacement; no draws for
      k <= 0, and an IndexError when a draw is made from an empty population. */
  function Choices<T>(pop: seq<T>, k: int, idx: seq<nat>): (r: Result<seq<T>>)
    requires ValidPicks(pop, k, idx)
    ensures r.Err? <==> k > 0 && pop == []
    ensures r.Err? ==> r.error == IndexError
    ensures r.Ok? ==> |r.value| == Times(k) && forall i | 0 <= i < |r.value| :: r.value[i] in pop
  {
    if k > 0 && pop == [] then Err(IndexError) else Ok(Pick(pop, idx))
  }

  // ------------------------------------------------ generate_random_graph

  /** `[i for i in range(n)]`. */
  function Range(n: int): (r: seq<int>)
    ensures |r| == Times(n) && forall i | 0 <= i < |r| :: r[i] == i
  {
    if n <= 0 then [] else Range(n - 1) + [n - 1]
  }

  /** `[(i, j) for j in vertices[i + 1:]]` for vertices `range(v)`. */
  function Row(i: int, v: int): seq<(int, int)>
    decreases v - i
  {
    if v <= i + 1 then [] else Row(i, v - 1) + [(i, v - 1)]
  }

  /** The rows from `i` up to `v - 1`, in that order. */
  function Rows(i: int, v: int): seq<(int, int)>
    decreases v - i
  {
    if i >= v then [] else Row(i, v) + Rows(i + 1, v)
  }

  /** `all_possible_edges` for `v` vertices. */
  function Pool(v: int): seq<(int, int)> {
    Rows(0, v)
  }

  predicate LexLess(a: (int, int), b: (int, int)) {
    a.0 < b.0 || (a.0 == b.0 && a.1 < b.1)
  }

  lemma {:induction false} RowShape(i: int, v: int)
    ensures |Row(i, v)| == if v <= i + 1 then 0 else v - i - 1
    ensures forall p | 0 <= p < |Row(i, v)| :: Row(i, v)[p] == (i, i + 1 + p)
    decreases v - i
  {
    if v > i + 1 {
      RowShape(i, v - 1);
    }
  }

  /** Row i-onwards holds exactly the pairs a < b < v with a >= i. */
  lemma {:induction false} RowsMembers(i: int, v: int)
    ensures forall a, b :: (a, b) in Rows(i, v) <==> i <= a < b < v
    decreases v - i
  {
    if i < v {
      RowShape(i, v);
      RowsMembers(i + 1, v);
      var r, rest := Row(i, v), Rows(i + 1, v);
      assert Rows(i, v) == r + rest;
      forall a, b ensures (a, b) in r + rest <==> i <= a < b < v {
        if i + 1 <= a < b < v {
          assert (a, b) in rest;
        } else if a == i && i < b < v {
          assert r[b - i - 1] == (a, b);
        }
      }
    }
  }

  /** Row i-onwards is in strictly increasing lexicographic order. */
  lemma {:induction false} RowsSorted(i: int, v: int)
    ensures forall p, q | 0 <= p < q < |Rows(i, v)| :: LexLess(Rows(i, v)[p], Rows(i, v)[q])
    decreases v - i
  {
    if i < v {
      RowShape(i, v);
      RowsMembers(i + 1, v);
      RowsSorted(i + 1, v);
      var r, rest := Row(i, v), Rows(i + 1, v);
      var all := r + rest;
      assert Rows(i, v) == all;
      forall p, q | 0 <= p < q < |all| ensures LexLess(all[p], all[q]) {
        if q < |r| {
          assert all[p] == (i, i + 1 + p) && all[q] == (i, i + 1 + q);
        } else if p < |r| {
          var x := rest[q - |r|];
          assert all[q] == x;
          assert (x.0, x.1) in rest;
          assert all[p].0 == i && x.0 > i;
        } else {
          assert all[p] == rest[p - |r|] && all[q] == rest[q - |r|];
        }
      }
    }
  }

  /** The pool holds every pair (i, j) with 0 <= i < j < v, each exactly
      once, in increasing order. */
  lemma PoolMembers(v: int)
    ensures forall a, b :: (a, b) in Pool(v) <==> 0 <= a < b < v
    ensures forall p, q | 0 <= p < q < |Pool(v)| :: Pool(v)[p] != Pool(v)[q]
  {
    RowsMembers(0, v);
    RowsSorted(0, v);
  }

  /** Number of pairs in the rows from i onwards. */
  lemma {:induction false} RowsSize(i: nat, v: int)
    requires i <= v
    ensures 2 * |Rows(i, v)| == (v - i) * (v - i - 1)
    decreases v - i
  {
    if i < v {
      RowShape(i, v);
      RowsSize(i + 1, v);
    }
  }

  /** The pool has v(v-1)/2 pairs; it is empty exactly when v <= 1. */
  lemma PoolSize(v: int)
    ensures v >= 0 ==> 2 * |Pool(v)| == v * (v - 1)
    ensures Pool(v) == [] <==> v <= 1
  {
    if v >= 0 {
      RowsSize(0, v);
    } else {
      assert Pool(v) == [];
    }
    if v > 1 {
      PoolMembers(v);
      assert (0, 1) in Pool(v);
    }
  }

  /** `generate_random_graph(v, e)`: vertices `0..v-1` and `e` picks from the
      pool, `idx` being the draws of `random.choices`. */
  function GenerateRandomGraph(v: int, e: int, idx: seq<nat>): (r: Result<(seq<int>, seq<(int, int)>)>)
    requires ValidPicks(Pool(v), e, idx)
    ensures r.Err? <==> e > 0 && v <= 1
    ensures r.Err? ==> r.error == IndexError
    ensures r.Ok? ==> r.value.0 == Range(v) && |r.value.1| == Times(e)
    ensures r.Ok? ==> forall k | 0 <= k < |r.value.1| :: 0 <= r.value.1[k].0 < r.value.1[k].1 < v
  {
    PoolSize(v);
    PoolMembers(v);
    var edges :- Choices(Pool(v), e, idx);
    Ok((Range(v), edges))
  }

  // ------------------------------------------------------------ add_clique

  /** `edge not in edges` then `edges.append(edge)`. */
  function AddAbsent<E(==)>(es: seq<E>, x: E): seq<E> {
    if x in es then es else es + [x]
  }

  /** The list after offering each of xs in turn to AddAbsent. */
  function AppendAbsent<E(==)>(es: seq<E>, xs: seq<E>): seq<E> {
    if xs == [] then es else AddAbsent(AppendAbsent(es, xs[..|xs| - 1]), xs[|xs| - 1])
  }

  /** `mk(c[i], c[j])` for `j` from `i + 1` up to `j - 1`. */
  function PairRow<E>(c: seq<int>, i: nat, j: nat, mk: (int, int) -> E): seq<E>
    requires i < |c| && j <= |c|
    decreases j
  {
    if j <= i + 1 then [] else PairRow(c, i, j - 1, mk) + [mk(c[i], c[j - 1])]
  }

  /** The rows 0 .. i-1 of the nested `for i / for j in range(i + 1, len(c))`. */
  function PairRows<E>(c: seq<int>, i: nat, mk: (int, int) -> E): seq<E>
    requires i <= |c|
  {
    if i == 0 then [] else PairRows(c, i - 1, mk) + PairRow(c, i - 1, |c|, mk)
  }

  /** Every edge the nested loops of add_clique offer, in their order. */
  function CliquePairs<E>(c: seq<int>, mk: (int, int) -> E): seq<E> {
    PairRows(c, |c|, mk)
  }

  lemma {:induction false} PairRowShape<E>(c: seq<int>, i: nat, j: nat, mk: (int, int) -> E)
    requires i < |c| && j <= |c|
    ensures |PairRow(c, i, j, mk)| == if j <= i + 1 then 0 else j - i - 1
    ensures forall p | 0 <= p < |PairRow(c, i, j, mk)| :: i + 1 + p < |c| && PairRow(c, i, j, mk)[p] == mk(c[i], c[i + 1 + p])
    decreases j
  {
    if j > i + 1 {
      PairRowShape(c, i, j - 1, mk);
    }
  }

  lemma {:induction false} PairRowsHas<E>(c: seq<int>, i: nat, mk: (int, int) -> E)
    requires i <= |c|
    ensures forall i', j' | 0 <= i' < i && i' < j' < |c| :: mk(c[i'], c[j']) in PairRows(c, i, mk)
  {
    if i > 0 {
      PairRowsHas(c, i - 1, mk);
      PairRowShape(c, i - 1, |c|, mk);
      var before, row := PairRows(c, i - 1, mk), PairRow(c, i - 1, |c|, mk);
      forall i', j' | 0 <= i' < i && i' < j' < |c| ensures mk(c[i'], c[j']) in before + row {
        if i' < i - 1 {
          assert mk(c[i'], c[j']) in before;
        } else {
          assert row[j' - i] == mk(c[i'], c[j']);
        }
      }
    }
  }

  /** Where the p-th offered edge of the first i rows comes from. */
  lemma {:induction false} PairRowsFrom<E>(c: seq<int>, i: nat, mk: (int, int) -> E, p: nat)
    returns (a: nat, b: nat)
    requires i <= |c| && p < |PairRows(c, i, mk)|
    ensures a < b < |c| && a < i && PairRows(c, i, mk)[p] == mk(c[a], c[b])
  {
    var before, row := PairRows(c, i - 1, mk), PairRow(c, i - 1, |c|, mk);
    if p < |before| {
      a, b := PairRowsFrom(c, i - 1, mk, p);
    } else {
      PairRowShape(c, i - 1, |c|, mk);
      a, b := i - 1, i + p - |before|;
      assert PairRows(c, i, mk)[p] == row[p - |before|];
    }
  }

  /** Every `mk(c[i], c[j])` with i < j is offered, and nothing else is. */
  lemma CliquePairsMembers<E>(c: seq<int>, mk: (int, int) -> E)
    ensures forall i, j | 0 <= i < j < |c| :: mk(c[i], c[j]) in CliquePairs(c, mk)
  {
    PairRowsHas(c, |c|, mk);
  }

  /** The p-th offered edge is `mk(c[a], c[b])` for some a < b. */
  lemma CliquePairsFrom<E>(c: seq<int>, mk: (int, int) -> E, p: nat) returns (a: nat, b: nat)
    requires p < |CliquePairs(c, mk)|
    ensures a < b < |c| && CliquePairs(c, mk)[p] == mk(c[a], c[b])
  {
    a, b := PairRowsFrom(c, |c|, mk, p);
  }

  /** Appending only absent items keeps the old list as a prefix, loses and
      invents nothing, and never appends an item already present. */
  lemma {:induction false} AppendAbsentSpec<E>(es: seq<E>, xs: seq<E>)
    ensures es <= AppendAbsent(es, xs)
    ensures forall y :: y in AppendAbsent(es, xs) <==> y in es || y in xs
    ensures forall p | |es| <= p < |AppendAbsent(es, xs)| :: AppendAbsent(es, xs)[p] !in AppendAbsent(es, xs)[..p]
  {
    if xs != [] {
      var xs', x := xs[..|xs| - 1], xs[|xs| - 1];
      AppendAbsentSpec(es, xs');
      var r := AppendAbsent(es, xs');
      assert xs == xs' + [x];
      if x !in r {
        var r' := r + [x];
        assert r'[..|r|] == r;
        forall p | |es| <= p < |r'| ensures r'[p] !in r'[..p] {
          if p < |r| {
            assert r'[..p] == r[..p];
          }
        }
      }
    }
  }

  /** Duplicate-free lists stay duplicate-free. */
  lemma {:induction false} AppendAbsentDistinct<E>(es: seq<E>, xs: seq<E>)
    requires forall p, q | 0 <= p < q < |es| :: es[p] != es[q]
    ensures forall p, q | 0 <= p < q < |AppendAbsent(es, xs)| :: AppendAbsent(es, xs)[p] != AppendAbsent(es, xs)[q]
  {
    AppendAbsentSpec(es, xs);
    var r := AppendAbsent(es, xs);
    forall p, q | 0 <= p < q < |r| ensures r[p] != r[q] {
      if q >= |es| {
        assert r[p] in r[..q];
      } else {
        assert r[p] == es[p] && r[q] == es[q];
      }
    }
  }

  /** The nested loops of add_clique: offer `mk(c[i], c[j])` for every i < j,
      appending it when it is not in the list yet. */
  method AddCliqueEdges<E(==)>(edges: seq<E>, c: seq<int>, mk: (int, int) -> E) returns (out: seq<E>)
    ensures out == AppendAbsent(edges, CliquePairs(c, mk))
  {
    out := edges;
    for i := 0 to |c|
      invariant out == AppendAbsent(edges, PairRows(c, i, mk))
    {
      out := OfferRow(edges, PairRows(c, i, mk), out, c, i, mk);
    }
  }

  /** The inner `for j in range(i + 1, len(c))` loop of add_clique, appending the edges of row `i`. */
  method OfferRow<E(==)>(edges: seq<E>, done: seq<E>, acc: seq<E>, c: seq<int>, i: nat, mk: (int, int) -> E)
    returns (out: seq<E>)
    requires i < |c|
    requires acc == AppendAbsent(edges, done)
    ensures out == AppendAbsent(edges, done + PairRow(c, i, |c|, mk))
  {
    out := acc;
    assert done + PairRow(c, i, i + 1, mk) == done;
    for j := i + 1 to |c|
      invariant out == AppendAbsent(edges, done + PairRow(c, i, j, mk))
    {
      var edge := mk(c[i], c[j]);
      OfferStep(edges, done, c, i, j, mk);
      if edge !in out {
        out := out + [edge];
      }
    }
  }

  /** Offering `mk(c[i], c[j])` appends it when absent. */
  lemma OfferStep<E>(edges: seq<E>, done: seq<E>, c: seq<int>, i: nat, j: nat, mk: (int, int) -> E)
    requires i < j < |c|
    ensures var r := AppendAbsent(edges, done + PairRow(c, i, j, mk));
      var x := mk(c[i], c[j]);
      AppendAbsent(edges, done + PairRow(c, i, j + 1, mk)) == if x in r then r else r + [x]
  {
    var xs := done + PairRow(c, i, j + 1, mk);
    assert xs == (done + PairRow(c, i, j, mk)) + [mk(c[i], c[j])];
    assert xs[..|xs| - 1] == done + PairRow(c, i, j, mk);
  }

  /** What the list after the nested loops of add_clique holds. */
  lemma AddCliqueEdgesSpec<E>(edges: seq<E>, c: seq<int>, mk: (int, int) -> E)
    ensures edges <= AppendAbsent(edges, CliquePairs(c, mk))
    ensures forall i, j | 0 <= i < j < |c| :: mk(c[i], c[j]) in AppendAbsent(edges, CliquePairs(c, mk))
    ensures var out := AppendAbsent(edges, CliquePairs(c, mk));
      forall p | |edges| <= p < |out| :: out[p] !in out[..p]
  {
    var out := AppendAbsent(edges, CliquePairs(c, mk));
    CliquePairsMembers(c, mk);
    AppendAbsentSpec(edges, CliquePairs(c, mk));
    forall i, j | 0 <= i < j < |c| ensures mk(c[i], c[j]) in out {
      assert mk(c[i], c[j]) in CliquePairs(c, mk);
    }
  }

  /** `add_clique(vertices, edges, k)` with the draws of `random.choices`
      given as `idx`; the list the source extends in place is returned. */
  method AddClique(vertices: seq<int>, edges: seq<(int, int)>, k: int, idx: seq<nat>)
    returns (r: Result<seq<(int, int)>>)
    requires ValidPicks(vertices, k, idx)
    ensures r.Err? <==> k > 0 && vertices == []
    ensures r.Err? ==> r.error == IndexError
    ensures r.Ok? ==> r.value == AppendAbsent(edges, CliquePairs(Choices(vertices, k, idx).value, (a, b) => (a, b)))
    ensures r.Ok? ==> edges <= r.value
    ensures r.Ok? ==> var c := Choices(vertices, k, idx).value;
      forall i, j | 0 <= i < j < |c| :: (c[i], c[j]) in r.value
  {
    var chosen := Choices(vertices, k, idx);
    if chosen.Err? {
      return Err(chosen.error);
    }
    var c := chosen.value;
    var out := AddCliqueEdges(edges, c, (a, b) => (a, b));
    AddCliqueEdgesSpec(edges, c, (a, b) => (a, b));
    return Ok(out);
  }
}
