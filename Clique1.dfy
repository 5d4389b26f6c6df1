/** src/algos/clique1.py: the prime-encoding clique finder. Every vertex gets
    its own prime, and its signature `m[p]` is p times the primes at the far
    ends of its edges, so a product of distinct primes divides a signature
    exactly when the vertex is joined to all of them. The finder counts, for
    every divisor of every signature, how many signatures it divides, then
    picks the first divisor that at least k signatures share and at least k
    of its own primes see. */
module Clique1 {
  import opened Wrappers
  import opened Arith
  import opened PrimeUtil
  import Graphs
  import Clique2
  import CliqueUnpruned

  // ============================================================ renaming

  /** `{keys[i]: values[i] for i in range(len(keys))}`. */
  function Zip(keys: seq<int>, values: seq<int>): map<int, int>
    requires |keys| == |values|
  {
    if keys == [] then map[]
    else Zip(keys[..|keys| - 1], values[..|values| - 1])[keys[|keys| - 1] := values[|values| - 1]]
  }

  lemma {:induction false} ZipSpec(keys: seq<int>, values: seq<int>)
    requires |keys| == |values| && Distinct(keys)
    ensures Zip(keys, values).Keys == set k | k in keys
    ensures forall i | 0 <= i < |keys| :: Zip(keys, values)[keys[i]] == values[i]
  {
    if keys != [] {
      var n := |keys| - 1;
      assert Distinct(keys[..n]);
      ZipSpec(keys[..n], values[..n]);
      assert keys == keys[..n] + [keys[n]];
    }
  }

  /** `v2p` and `p2v` are mutual inverses. */
  lemma ZipInverse(vs: seq<int>, ps: seq<int>)
    requires |vs| == |ps| && Distinct(vs) && Distinct(ps)
    ensures forall v | v in vs ::
      v in Zip(vs, ps) && Zip(vs, ps)[v] in Zip(ps, vs) && Zip(ps, vs)[Zip(vs, ps)[v]] == v
    ensures forall p | p in ps ::
      p in Zip(ps, vs) && Zip(ps, vs)[p] in Zip(vs, ps) && Zip(vs, ps)[Zip(ps, vs)[p]] == p
  {
    ZipSpec(vs, ps);
    ZipSpec(ps, vs);
    forall v | v in vs
      ensures v in Zip(vs, ps) && Zip(vs, ps)[v] in Zip(ps, vs) && Zip(ps, vs)[Zip(vs, ps)[v]] == v
    {
      var i :| 0 <= i < |vs| && vs[i] == v;
    }
    forall p | p in ps
      ensures p in Zip(ps, vs) && Zip(ps, vs)[p] in Zip(vs, ps) && Zip(vs, ps)[Zip(ps, vs)[p]] == p
    {
      var i :| 0 <= i < |ps| && ps[i] == p;
    }
  }

  /** `[f[x] for x in s]`. */
  function MapAll(f: map<int, int>, s: seq<int>): (r: seq<int>)
    requires forall i | 0 <= i < |s| :: s[i] in f
    ensures |r| == |s| && forall i | 0 <= i < |s| :: r[i] == f[s[i]]
  {
    if s == [] then [] else [f[s[0]]] + MapAll(f, s[1..])
  }

  /** `[(v2p[v0], v2p[v1]) for v0, v1, _ in edges]`. */
  function PrimeEdges(v2p: map<int, int>, edges: seq<Graphs.Edge>): (r: seq<(int, int)>)
    requires forall j | 0 <= j < |edges| :: edges[j].0 in v2p && edges[j].1 in v2p
    ensures |r| == |edges| && forall j | 0 <= j < |edges| :: r[j] == (v2p[edges[j].0], v2p[edges[j].1])
  {
    if edges == [] then [] else [(v2p[edges[0].0], v2p[edges[0].1])] + PrimeEdges(v2p, edges[1..])
  }

  /** What the constructor works from: distinct vertex ids, as many distinct
      primes, and edges between the vertices. */
  predicate Setup(vertices: seq<int>, primes: seq<int>, edges: seq<Graphs.Edge>) {
    |primes| == |vertices| && Distinct(vertices) && Distinct(primes) && AllPrime(primes) &&
    Graphs.EndpointsIn(vertices, edges)
  }

  lemma SetupKeys(vertices: seq<int>, primes: seq<int>, edges: seq<Graphs.Edge>)
    requires Setup(vertices, primes, edges)
    ensures forall i | 0 <= i < |vertices| ::
      vertices[i] in Zip(vertices, primes) && Zip(vertices, primes)[vertices[i]] == primes[i]
    ensures forall i | 0 <= i < |primes| ::
      primes[i] in Zip(primes, vertices) && Zip(primes, vertices)[primes[i]] == vertices[i]
    ensures forall j | 0 <= j < |edges| ::
      edges[j].0 in Zip(vertices, primes) && edges[j].1 in Zip(vertices, primes)
  {
    ZipSpec(vertices, primes);
    ZipSpec(primes, vertices);
  }

  /** `pedges` of the graph built from these vertices, primes and edges. */
  function PEdges(vertices: seq<int>, primes: seq<int>, edges: seq<Graphs.Edge>): seq<(int, int)>
    requires Setup(vertices, primes, edges)
  {
    SetupKeys(vertices, primes, edges);
    PrimeEdges(Zip(vertices, primes), edges)
  }

  /** Renaming is faithful: two primes are joined exactly when their vertices are. */
  lemma LinkedRenamed(vertices: seq<int>, primes: seq<int>, edges: seq<Graphs.Edge>, i: nat, j: nat)
    requires Setup(vertices, primes, edges) && i < |vertices| && j < |vertices|
    ensures CliqueUnpruned.Linked(PEdges(vertices, primes, edges), primes[i], primes[j]) <==>
      Clique2.Linked(edges, vertices[i], vertices[j])
  {
    var v2p := Zip(vertices, primes);
    SetupKeys(vertices, primes, edges);
    var pe := PEdges(vertices, primes, edges);
    if CliqueUnpruned.Linked(pe, primes[i], primes[j]) {
      var t :| 0 <= t < |pe| &&
        ((pe[t].0 == primes[i] && pe[t].1 == primes[j]) || (pe[t].0 == primes[j] && pe[t].1 == primes[i]));
      var a :| 0 <= a < |vertices| && vertices[a] == edges[t].0;
      var b :| 0 <= b < |vertices| && vertices[b] == edges[t].1;
      assert pe[t] == (primes[a], primes[b]);
      assert Clique2.Linked(edges, vertices[i], vertices[j]);
    }
    if Clique2.Linked(edges, vertices[i], vertices[j]) {
      var t :| 0 <= t < |edges| &&
        ((edges[t].0 == vertices[i] && edges[t].1 == vertices[j]) ||
         (edges[t].0 == vertices[j] && edges[t].1 == vertices[i]));
      assert pe[t] == (v2p[edges[t].0], v2p[edges[t].1]);
    }
  }

  // ========================================================== signatures

  /** `m[p]` after the edge loop: p times the far end of each edge end at p. */
  function Sig(pedges: seq<(int, int)>, p: int): int {
    p * Prod(CliqueUnpruned.OpenNbrs(pedges, p))
  }

  /** `m`: every prime vertex mapped to its signature. */
  function SigMap(pvs: seq<int>, pedges: seq<(int, int)>): map<int, int> {
    map p | p in pvs :: Sig(pedges, p)
  }

  /** `m_neighbors[p]` with p appended, as the counting loop leaves it. */
  function Factors(pedges: seq<(int, int)>, p: int): seq<int> {
    CliqueUnpruned.OpenNbrs(pedges, p) + [p]
  }

  lemma ProdEnds(e: (int, int), p: int)
    ensures Prod(CliqueUnpruned.Ends(e, p)) == (if e.0 == p then e.1 else 1) * (if e.1 == p then e.0 else 1)
  {
    var a: seq<int> := if e.0 == p then [e.1] else [];
    var b: seq<int> := if e.1 == p then [e.0] else [];
    ProdAppend(a, b);
  }

  /** One more edge multiplies the signature by the far end at each end it has at p. */
  lemma SigAppend(pedges: seq<(int, int)>, e: (int, int), p: int)
    ensures Sig(pedges + [e], p) ==
      Sig(pedges, p) * (if e.0 == p then e.1 else 1) * (if e.1 == p then e.0 else 1)
  {
    CliqueUnpruned.OpenNbrsAppend(pedges, e, p);
    ProdAppend(CliqueUnpruned.OpenNbrs(pedges, p), CliqueUnpruned.Ends(e, p));
    ProdEnds(e, p);
    var x := Prod(CliqueUnpruned.OpenNbrs(pedges, p));
    var a := if e.0 == p then e.1 else 1;
    var b := if e.1 == p then e.0 else 1;
    MulAssoc(p, x, a * b);
    MulAssoc(p * x, a, b);
  }

  /** The assertion of the counting loop holds: the factors multiply to the signature. */
  lemma SigFactors(pedges: seq<(int, int)>, p: int)
    ensures Prod(Factors(pedges, p)) == Sig(pedges, p)
  {
    ProdSnoc(CliqueUnpruned.OpenNbrs(pedges, p), p);
  }

  lemma ProdSnoc(s: seq<int>, p: int)
    ensures Prod(s + [p]) == p * Prod(s)
  {
    ProdAppend(s, [p]);
    assert Prod([p]) == p by {
      assert [p][1..] == [];
    }
    var x := Prod(s);
    assert Prod(s + [p]) == x * p;
    assert x * p == p * x;
  }

  /** Vertices selected among the prime vertices have signatures, and their
      product is positive. */
  lemma SelectedIn(pvertices: seq<int>, pedges: seq<(int, int)>, m: map<int, int>, pvs: seq<int>)
    requires PrimeGraphShape(pvertices, pedges) && m == SigMap(pvertices, pedges)
    requires forall i | 0 <= i < |pvs| :: pvs[i] in pvertices
    ensures forall i | 0 <= i < |pvs| :: pvs[i] in m
    ensures Prod(pvs) > 0
  {
    assert AllPrime(pvs) by {
      forall i | 0 <= i < |pvs| ensures IsPrime(pvs[i]) {
        PrimeIn(pvertices, pvs[i]);
      }
    }
    PrimeProdPositive(pvs);
  }

  /** The prime graph's shape: distinct prime vertices, edges between them. */
  predicate PrimeGraphShape(pvs: seq<int>, pedges: seq<(int, int)>) {
    AllPrime(pvs) && Distinct(pvs) &&
    forall j | 0 <= j < |pedges| :: pedges[j].0 in pvs && pedges[j].1 in pvs
  }

  lemma SetupShape(vertices: seq<int>, primes: seq<int>, edges: seq<Graphs.Edge>)
    requires Setup(vertices, primes, edges)
    ensures PrimeGraphShape(primes, PEdges(vertices, primes, edges))
    ensures CliqueUnpruned.EndpointsIn(primes, PEdges(vertices, primes, edges))
  {
    SetupKeys(vertices, primes, edges);
    var pe := PEdges(vertices, primes, edges);
    forall j | 0 <= j < |pe| ensures pe[j].0 in primes && pe[j].1 in primes {
      var a :| 0 <= a < |vertices| && vertices[a] == edges[j].0;
      var b :| 0 <= b < |vertices| && vertices[b] == edges[j].1;
    }
  }

  lemma FactorsPrime(pvs: seq<int>, pedges: seq<(int, int)>, p: int)
    requires PrimeGraphShape(pvs, pedges) && p in pvs
    ensures AllPrime(Factors(pedges, p))
  {
    var f := Factors(pedges, p);
    forall i | 0 <= i < |f| ensures IsPrime(f[i]) {
      if i < |f| - 1 {
        var x := f[i];
        assert x in CliqueUnpruned.OpenNbrs(pedges, p);
        CliqueUnpruned.OpenNbrsIff(pedges, p, x);
        var t :| 0 <= t < |pedges| &&
          ((pedges[t].0 == x && pedges[t].1 == p) || (pedges[t].0 == p && pedges[t].1 == x));
        assert x in pvs;
      }
    }
  }

  /** A signature is at least its own prime. */
  lemma SigPositive(pvs: seq<int>, pedges: seq<(int, int)>, p: int)
    requires PrimeGraphShape(pvs, pedges) && p in pvs
    ensures Sig(pedges, p) >= 1
  {
    SigFactors(pedges, p);
    FactorsPrime(pvs, pedges, p);
    PrimeProdPositive(Factors(pedges, p));
  }

  lemma PrimeIn(s: seq<int>, x: int)
    requires AllPrime(s) && x in s
    ensures IsPrime(x)
  {
    var t :| 0 <= t < |s| && s[t] == x;
  }

  lemma ElemDividesProd(s: seq<int>, i: nat)
    requires i < |s| && s[i] > 0
    ensures Divides(s[i], Prod(s))
  {
    ProdRemove(s, i);
    DividesMultiple(s[i], Prod(s[..i] + s[i + 1..]));
  }

  /** A signature is divisible by its own prime, and by another prime vertex
      exactly when an edge joins the two. */
  lemma SeesIff(pvs: seq<int>, pedges: seq<(int, int)>, p: int, w: int)
    requires PrimeGraphShape(pvs, pedges) && p in pvs && w in pvs
    ensures w == p ==> Divides(w, Sig(pedges, p))
    ensures w != p ==> (Divides(w, Sig(pedges, p)) <==> CliqueUnpruned.Linked(pedges, w, p))
  {
    var nb := CliqueUnpruned.OpenNbrs(pedges, p);
    var f := Factors(pedges, p);
    SigFactors(pedges, p);
    FactorsPrime(pvs, pedges, p);
    CliqueUnpruned.OpenNbrsIff(pedges, p, w);
    if w == p {
      ElemDividesProd(f, |f| - 1);
    } else {
      if Divides(w, Sig(pedges, p)) {
        PrimeDividesProdOfPrimes(w, f);
      }
      if w in nb {
        var i :| 0 <= i < |nb| && nb[i] == w;
        assert f[i] == w;
        ElemDividesProd(f, i);
      }
    }
  }

  // ======================================================== clique test

  /** `is_clique`: the product of all the given vertices divides every one
      of their signatures. */
  predicate CliqueTest(m: map<int, int>, pvs: seq<int>)
    requires forall i | 0 <= i < |pvs| :: pvs[i] in m
  {
    forall i | 0 <= i < |pvs| :: Divides(Prod(pvs), m[pvs[i]])
  }

  /** On distinct prime vertices the test is exactly pairwise adjacency. */
  lemma CliqueTestIff(pvs: seq<int>, pedges: seq<(int, int)>, sel: seq<int>)
    requires PrimeGraphShape(pvs, pedges) && Distinct(sel) && forall i | 0 <= i < |sel| :: sel[i] in pvs
    ensures forall i | 0 <= i < |sel| :: sel[i] in SigMap(pvs, pedges)
    ensures CliqueTest(SigMap(pvs, pedges), sel) <==>
      forall i, j | 0 <= i < |sel| && 0 <= j < |sel| && i != j :: CliqueUnpruned.Linked(pedges, sel[i], sel[j])
  {
    var m := SigMap(pvs, pedges);
    assert AllPrime(sel);
    PrimeProdPositive(sel);
    if CliqueTest(m, sel) {
      forall i, j | 0 <= i < |sel| && 0 <= j < |sel| && i != j
        ensures CliqueUnpruned.Linked(pedges, sel[i], sel[j])
      {
        ElemDividesProd(sel, i);
        DividesTransitive(sel[i], Prod(sel), m[sel[j]]);
        SeesIff(pvs, pedges, sel[j], sel[i]);
      }
    }
    if forall i, j | 0 <= i < |sel| && 0 <= j < |sel| && i != j :: CliqueUnpruned.Linked(pedges, sel[i], sel[j]) {
      forall i | 0 <= i < |sel| ensures Divides(Prod(sel), m[sel[i]]) {
        forall t | 0 <= t < |sel| ensures Divides(sel[t], m[sel[i]]) {
          SeesIff(pvs, pedges, sel[i], sel[t]);
        }
        SigPositive(pvs, pedges, sel[i]);
        DistinctPrimesDivide(sel, m[sel[i]]);
      }
    }
  }

  // ================================================== counting divisors

  /** The divisor lists of the prime vertices in order, as the counting loop
      visits them. */
  function DivLists(pvs: seq<int>, pedges: seq<(int, int)>): seq<int> {
    if pvs == [] then [] else Divs(Tally(Factors(pedges, pvs[0])), 1) + DivLists(pvs[1..], pedges)
  }

  lemma {:induction false} DivListsAppend(pvs: seq<int>, pedges: seq<(int, int)>, p: int)
    ensures DivLists(pvs + [p], pedges) == DivLists(pvs, pedges) + Divs(Tally(Factors(pedges, p)), 1)
  {
    if pvs != [] {
      assert (pvs + [p])[1..] == pvs[1..] + [p];
      DivListsAppend(pvs[1..], pedges, p);
    } else {
      assert [p][1..] == [];
    }
  }

  lemma {:induction false} DivListsHas(pvs: seq<int>, pedges: seq<(int, int)>, p: int, x: int)
    requires p in pvs && x in Divs(Tally(Factors(pedges, p)), 1)
    ensures x in DivLists(pvs, pedges)
  {
    if pvs[0] != p {
      DivListsHas(pvs[1..], pedges, p, x);
    }
  }

  /** Every counted value is positive. */
  lemma {:induction false} DivListsPositive(pvs: seq<int>, pedges: seq<(int, int)>, all: seq<int>)
    requires PrimeGraphShape(all, pedges) && forall v | v in pvs :: v in all
    ensures forall x | x in DivLists(pvs, pedges) :: x > 0
  {
    if pvs != [] {
      assert pvs[0] in pvs;
      DivListsPositive(pvs[1..], pedges, all);
      FactorsPrime(all, pedges, pvs[0]);
      DivisorsOfPrimes(Factors(pedges, pvs[0]));
    }
  }

  /** `m_divisor_count` after the counting loop, in insertion order. */
  function Counts(pvs: seq<int>, pedges: seq<(int, int)>): seq<(int, nat)> {
    Tally(DivLists(pvs, pedges))
  }

  /** The dict's keys are distinct positive divisors. */
  lemma CountsKeys(pvs: seq<int>, pedges: seq<(int, int)>)
    requires PrimeGraphShape(pvs, pedges)
    ensures Distinct(Keys(Counts(pvs, pedges)))
    ensures forall i | 0 <= i < |Counts(pvs, pedges)| :: Counts(pvs, pedges)[i].0 > 0
    ensures forall x :: x in Keys(Counts(pvs, pedges)) <==> x in DivLists(pvs, pedges)
  {
    var L := DivLists(pvs, pedges);
    TallySpec(L);
    DedupSpec(L);
    DivListsPositive(pvs, pedges, pvs);
    forall i | 0 <= i < |Counts(pvs, pedges)| ensures Counts(pvs, pedges)[i].0 > 0 {
      assert Keys(Counts(pvs, pedges))[i] in L;
    }
  }

  /** `[v for v in pvs if m[v] % d == 0]`: the vertices whose signature d divides. */
  function Seeing(m: map<int, int>, pvs: seq<int>, d: int): seq<int>
    requires forall i | 0 <= i < |pvs| :: pvs[i] in m
  {
    if pvs == [] then []
    else (if Divides(d, m[pvs[0]]) then [pvs[0]] else []) + Seeing(m, pvs[1..], d)
  }

  /** The vertices the scan counts for d: d divides their signature and
      their own prime divides d. */
  function Members(m: map<int, int>, pvs: seq<int>, d: int): seq<int>
    requires forall i | 0 <= i < |pvs| :: pvs[i] in m
  {
    if pvs == [] then []
    else (if Divides(d, m[pvs[0]]) && Divides(pvs[0], d) then [pvs[0]] else []) + Members(m, pvs[1..], d)
  }

  lemma {:induction false} SeeingSpec(m: map<int, int>, pvs: seq<int>, d: int)
    requires forall i | 0 <= i < |pvs| :: pvs[i] in m
    ensures forall v | v in Seeing(m, pvs, d) :: v in pvs && Divides(d, m[v])
    ensures forall v | v in pvs && Divides(d, m[v]) :: v in Seeing(m, pvs, d)
    ensures Distinct(pvs) ==> Distinct(Seeing(m, pvs, d))
  {
    if pvs != [] {
      SeeingSpec(m, pvs[1..], d);
      assert forall v | v in Seeing(m, pvs[1..], d) :: v in pvs[1..];
      if Distinct(pvs) {
        assert Distinct(pvs[1..]);
        HeadNotInTail(pvs);
        assert pvs[0] !in pvs[1..];
        assert pvs[0] !in Seeing(m, pvs[1..], d);
        DistinctConcat(if Divides(d, m[pvs[0]]) then [pvs[0]] else [], Seeing(m, pvs[1..], d));
      }
    }
  }

  lemma {:induction false} MembersSpec(m: map<int, int>, pvs: seq<int>, d: int)
    requires forall i | 0 <= i < |pvs| :: pvs[i] in m
    ensures forall v :: v in Members(m, pvs, d) <==> v in pvs && Divides(d, m[v]) && Divides(v, d)
    ensures Distinct(pvs) ==> Distinct(Members(m, pvs, d))
  {
    if pvs != [] {
      MembersSpec(m, pvs[1..], d);
      if Distinct(pvs) {
        assert Distinct(pvs[1..]);
        HeadNotInTail(pvs);
        assert pvs[0] !in Members(m, pvs[1..], d);
        DistinctConcat(if Divides(d, m[pvs[0]]) && Divides(pvs[0], d) then [pvs[0]] else [],
          Members(m, pvs[1..], d));
      }
    }
  }

  lemma {:induction false} MembersAppend(m: map<int, int>, pvs: seq<int>, v: int, d: int)
    requires forall i | 0 <= i < |pvs| :: pvs[i] in m
    requires v in m
    ensures Members(m, pvs + [v], d) ==
      Members(m, pvs, d) + (if Divides(d, m[v]) && Divides(v, d) then [v] else [])
  {
    var last: seq<int> := if Divides(d, m[v]) && Divides(v, d) then [v] else [];
    if pvs != [] {
      var pv := pvs + [v];
      assert pv[0] == pvs[0] && pv[1..] == pvs[1..] + [v];
      var head: seq<int> := if Divides(d, m[pvs[0]]) && Divides(pvs[0], d) then [pvs[0]] else [];
      MembersAppend(m, pvs[1..], v, d);
      calc {
        Members(m, pv, d);
        head + Members(m, pvs[1..] + [v], d);
        head + (Members(m, pvs[1..], d) + last);
        (head + Members(m, pvs[1..], d)) + last;
        Members(m, pvs, d) + last;
      }
    } else {
      assert [v][1..] == [];
    }
  }

  lemma {:induction false} DistinctMultiset(s: seq<int>, x: int)
    requires Distinct(s)
    ensures multiset(s)[x] == if x in s then 1 else 0
  {
    if s != [] {
      assert s == [s[0]] + s[1..];
      assert Distinct(s[1..]);
      DistinctMultiset(s[1..], x);
    }
  }

  lemma {:induction false} DivListsSeeing(pvs: seq<int>, pedges: seq<(int, int)>, all: seq<int>, d: int)
    requires PrimeGraphShape(all, pedges) && forall i | 0 <= i < |pvs| :: pvs[i] in all
    ensures forall i | 0 <= i < |pvs| :: pvs[i] in SigMap(all, pedges)
    ensures multiset(DivLists(pvs, pedges))[d] == |Seeing(SigMap(all, pedges), pvs, d)|
  {
    if pvs != [] {
      var m := SigMap(all, pedges);
      var p := pvs[0];
      var f := Factors(pedges, p);
      DivListsSeeing(pvs[1..], pedges, all, d);
      FactorsPrime(all, pedges, p);
      DivisorsOfPrimes(f);
      SigFactors(pedges, p);
      DistinctMultiset(Divs(Tally(f), 1), d);
    }
  }

  /** The counting loop's tally: the count recorded for d is the number of
      signatures d divides. */
  lemma CountIsSeeing(pvs: seq<int>, pedges: seq<(int, int)>, d: int)
    requires PrimeGraphShape(pvs, pedges)
    ensures Count(Counts(pvs, pedges), d) == |Seeing(SigMap(pvs, pedges), pvs, d)|
  {
    TallySpec(DivLists(pvs, pedges));
    DivListsSeeing(pvs, pedges, pvs, d);
  }

  // ================================================= choosing the divisor

  /** An entry of `m_divisor_count` that the scan accepts: count at least k,
      and at least k of its vertices counted. */
  predicate Qualifies(m: map<int, int>, pvs: seq<int>, k: int, entry: (int, nat))
    requires forall i | 0 <= i < |pvs| :: pvs[i] in m
  {
    entry.1 >= k && |Members(m, pvs, entry.0)| >= k
  }

  /** `best_divisor` after the scan with its `break`: the first accepted key, or -1. */
  function FirstQualifying(items: seq<(int, nat)>, m: map<int, int>, pvs: seq<int>, k: int): int
    requires forall i | 0 <= i < |pvs| :: pvs[i] in m
  {
    if items == [] then -1
    else if Qualifies(m, pvs, k, items[0]) then items[0].0
    else FirstQualifying(items[1..], m, pvs, k)
  }

  /** The scan finds a divisor exactly when some entry qualifies, and the one
      it finds is the key of the first such entry. */
  lemma {:induction false} FirstQualifyingSpec(items: seq<(int, nat)>, m: map<int, int>, pvs: seq<int>, k: int)
    requires forall i | 0 <= i < |pvs| :: pvs[i] in m
    requires forall i | 0 <= i < |items| :: items[i].0 != -1
    ensures FirstQualifying(items, m, pvs, k) == -1 <==>
      forall i | 0 <= i < |items| :: !Qualifies(m, pvs, k, items[i])
    ensures FirstQualifying(items, m, pvs, k) != -1 ==>
      exists i | 0 <= i < |items| :: items[i].0 == FirstQualifying(items, m, pvs, k) &&
        Qualifies(m, pvs, k, items[i]) && forall j | 0 <= j < i :: !Qualifies(m, pvs, k, items[j])
  {
    if items != [] {
      var rest := items[1..];
      FirstQualifyingSpec(rest, m, pvs, k);
      if !Qualifies(m, pvs, k, items[0]) {
        if FirstQualifying(rest, m, pvs, k) != -1 {
          var i :| 0 <= i < |rest| && rest[i].0 == FirstQualifying(rest, m, pvs, k) &&
            Qualifies(m, pvs, k, rest[i]) && forall j | 0 <= j < i :: !Qualifies(m, pvs, k, rest[j]);
          assert items[i + 1] == rest[i];
          forall j | 0 <= j < i + 1 ensures !Qualifies(m, pvs, k, items[j]) {
            if j > 0 {
              assert items[j] == rest[j - 1];
            }
          }
        } else {
          forall i | 0 <= i < |items| ensures !Qualifies(m, pvs, k, items[i]) {
            if i > 0 {
              assert items[i] == rest[i - 1];
            }
          }
        }
      }
    }
  }

  /** Python's `s[:k]`, a negative k counting from the end. */
  function Take(s: seq<int>, k: int): (r: seq<int>)
    ensures r <= s
    ensures 0 <= k <= |s| ==> |r| == k
    ensures k > |s| ==> r == s
  {
    if k >= 0 then (if k <= |s| then s[..k] else s)
    else if |s| + k >= 0 then s[..|s| + k] else []
  }

  // ============================================================ the class

  /** `PrimeGraph`: the renaming to primes, the signatures and the neighbour lists. */
  class PrimeGraph {
    var vertices: seq<int>
    var edges: seq<Graphs.Edge>
    var primes: seq<int>
    var v2p: map<int, int>
    var p2v: map<int, int>
    var pvertices: seq<int>
    var pedges: seq<(int, int)>
    var m: map<int, int>
    var mNeighbors: map<int, seq<int>>

    /** The fields as the constructor leaves them; the neighbour lists are
        left out, since `solve` extends them. */
    ghost predicate Valid()
      reads this
    {
      Setup(vertices, primes, edges) &&
      v2p == Zip(vertices, primes) && p2v == Zip(primes, vertices) &&
      pvertices == primes && pedges == PEdges(vertices, primes, edges) &&
      m == SigMap(primes, pedges)
    }

    /** What the methods of `solve` rely on: prime vertices, edges between
        them, and the signatures. */
    ghost predicate Shaped()
      reads this
    {
      PrimeGraphShape(pvertices, pedges) && m == SigMap(pvertices, pedges)
    }

    lemma ValidShaped()
      requires Valid()
      ensures Shaped()
    {
      SetupShape(vertices, primes, edges);
    }

    /** `__init__`, given the list of primes: the two renaming dicts, the
        renamed vertices and edges, then the signatures and the neighbour
        lists, each built by a loop over the renamed edges. */
    constructor (vertices: seq<int>, edges: seq<Graphs.Edge>, primes: seq<int>)
      requires Setup(vertices, primes, edges)
      ensures Valid()
      ensures this.vertices == vertices && this.edges == edges && this.primes == primes
      ensures mNeighbors == CliqueUnpruned.NbrMap(primes, PEdges(vertices, primes, edges))
    {
      SetupKeys(vertices, primes, edges);
      SetupShape(vertices, primes, edges);
      var v2p := Zip(vertices, primes);
      var p2v := Zip(primes, vertices);
      var pvertices := MapAll(v2p, vertices);
      assert pvertices == primes;
      var pedges := PrimeEdges(v2p, edges);
      var m := Signatures(pvertices, pedges);
      var nbrs := CliqueUnpruned.Neighbors(pvertices, pedges);
      this.vertices := vertices;
      this.edges := edges;
      this.primes := primes;
      this.v2p := v2p;
      this.p2v := p2v;
      this.pvertices := pvertices;
      this.pedges := pedges;
      this.m := m;
      this.mNeighbors := nbrs.value;
    }

    /** `is_clique(pvertices)`: a loop returning False at the first vertex
        whose signature the product of all the given vertices does not divide.
        The given vertices must have signatures and, being primes, a positive
        product (SelectedIn). */
    method IsClique(pvs: seq<int>) returns (b: bool)
      requires forall i | 0 <= i < |pvs| :: pvs[i] in m
      requires Prod(pvs) > 0
      ensures b <==> CliqueTest(m, pvs)
    {
      var product := Prod(pvs);
      for i := 0 to |pvs|
        invariant forall j | 0 <= j < i :: Divides(product, m[pvs[j]])
      {
        if m[pvs[i]] % product != 0 {
          return false;
        }
      }
      return true;
    }

    /** The neighbour lists once the first i vertices have had themselves
        appended. */
    ghost predicate NbrsAfter(i: nat)
      reads this
      requires i <= |pvertices|
    {
      (forall p :: p in mNeighbors <==> p in pvertices) &&
      forall p | p in mNeighbors ::
        (mNeighbors[p] == CliqueUnpruned.OpenNbrs(pedges, p) + (if p in pvertices[..i] then [p] else []))
    }

    /** The counting loop of `solve`: each vertex's neighbour list gets the
        vertex appended, the list's divisors are enumerated, and each divisor
        is counted into the ordered dict. */
    method CountDivisors() returns (counts: seq<(int, nat)>)
      requires Shaped() && mNeighbors == CliqueUnpruned.NbrMap(pvertices, pedges)
      modifies this
      ensures Shaped()
      ensures unchanged(this`vertices, this`edges, this`primes, this`v2p, this`p2v)
      ensures unchanged(this`pvertices, this`pedges, this`m)
      ensures counts == Counts(pvertices, pedges)
      ensures mNeighbors == map p | p in pvertices :: Factors(pedges, p)
    {
      counts := [];
      assert pvertices[..0] == [];
      for i := 0 to |pvertices|
        invariant unchanged(this`vertices, this`edges, this`primes, this`v2p, this`p2v)
        invariant unchanged(this`pvertices, this`pedges, this`m)
        invariant counts == Tally(DivLists(pvertices[..i], pedges))
        invariant NbrsAfter(i)
      {
        counts := CountStep(i, counts);
      }
      assert pvertices[..|pvertices|] == pvertices;
      NbrsDone(mNeighbors, pvertices, pedges);
    }

    /** One pass of the counting loop, for the i-th vertex. */
    method CountStep(i: nat, counts: seq<(int, nat)>) returns (out: seq<(int, nat)>)
      requires Shaped() && i < |pvertices| && NbrsAfter(i)
      requires counts == Tally(DivLists(pvertices[..i], pedges))
      modifies this
      ensures unchanged(this`vertices, this`edges, this`primes, this`v2p, this`p2v)
      ensures unchanged(this`pvertices, this`pedges, this`m)
      ensures NbrsAfter(i + 1)
      ensures out == Tally(DivLists(pvertices[..i + 1], pedges))
    {
      AppendSelf(i);
      out := CountOwn(i, counts);
    }

    /** The divisors of the i-th vertex's list, counted in. */
    method CountOwn(i: nat, counts: seq<(int, nat)>) returns (out: seq<(int, nat)>)
      requires Shaped() && i < |pvertices| && NbrsAfter(i + 1)
      requires counts == Tally(DivLists(pvertices[..i], pedges))
      ensures out == Tally(DivLists(pvertices[..i + 1], pedges))
    {
      var v := pvertices[i];
      OwnStep(pvertices, pedges, m, i);
      var value := m[v];
      var primeFactors := mNeighbors[v];
      assert primeFactors == Factors(pedges, v) by {
        assert v in pvertices[..i + 1];
      }
      assert Prod(primeFactors) == value;
      out := CountVertex(counts, DivLists(pvertices[..i], pedges), primeFactors);
    }

    /** `m_neighbors[v].append(v)` for the i-th vertex. */
    method AppendSelf(i: nat)
      requires i < |pvertices| && Distinct(pvertices) && NbrsAfter(i)
      modifies this
      ensures unchanged(this`vertices, this`edges, this`primes, this`v2p, this`p2v)
      ensures unchanged(this`pvertices, this`pedges, this`m)
      ensures NbrsAfter(i + 1)
    {
      var v := pvertices[i];
      assert v !in pvertices[..i];
      assert pvertices[..i + 1] == pvertices[..i] + [v];
      mNeighbors := mNeighbors[v := mNeighbors[v] + [v]];
    }

    /** The scan over `m_divisor_count.items()`, with its inner count of
        members and its `break`. */
    method BestDivisor(counts: seq<(int, nat)>, k: int) returns (best: int)
      requires Shaped() && counts == Counts(pvertices, pedges)
      ensures forall i | 0 <= i < |pvertices| :: pvertices[i] in m
      ensures best == FirstQualifying(counts, m, pvertices, k)
    {
      CountsKeys(pvertices, pedges);
      best := -1;
      for i := 0 to |counts|
        invariant FirstQualifying(counts, m, pvertices, k) == FirstQualifying(counts[i..], m, pvertices, k)
      {
        assert counts[i..][1..] == counts[i + 1..];
        var divisor, count := counts[i].0, counts[i].1;
        if count >= k {
          var numCliqueMembers := MemberCount(divisor);
          if numCliqueMembers >= k {
            best := divisor;
            return;
          }
        }
      }
    }

    /** The inner loop of the scan: how many vertices have a signature that
        d divides and a prime that divides d. */
    method MemberCount(d: int) returns (n: int)
      requires forall i | 0 <= i < |pvertices| :: pvertices[i] in m && pvertices[i] > 0
      requires d > 0
      ensures n == |Members(m, pvertices, d)|
    {
      n := 0;
      for t := 0 to |pvertices|
        invariant n == |Members(m, pvertices[..t], d)|
      {
        var v := pvertices[t];
        MembersAppend(m, pvertices[..t], v, d);
        assert pvertices[..t + 1] == pvertices[..t] + [v];
        if m[v] % d == 0 && d % v == 0 {
          n := n + 1;
        }
      }
      assert pvertices[..|pvertices|] == pvertices;
    }
  }

  /** Once every vertex has been appended, each list is the vertex's factors. */
  lemma NbrsDone(nbrs: map<int, seq<int>>, pvs: seq<int>, pedges: seq<(int, int)>)
    requires forall p :: p in nbrs <==> p in pvs
    requires forall p | p in nbrs ::
      nbrs[p] == CliqueUnpruned.OpenNbrs(pedges, p) + (if p in pvs then [p] else [])
    ensures nbrs == map p | p in pvs :: Factors(pedges, p)
  {
    var want := map p | p in pvs :: Factors(pedges, p);
    assert nbrs.Keys == want.Keys;
    forall p | p in nbrs ensures nbrs[p] == want[p] {
      assert p in pvs;
    }
  }

  /** One pass of the counting loop: the divisors of one vertex's factors,
      each counted into the ordered dict. */
  /** The i-th vertex's factors multiply to its signature, and its divisors
      follow those of the vertices before it. */
  lemma OwnStep(pvs: seq<int>, pedges: seq<(int, int)>, m: map<int, int>, i: nat)
    requires i < |pvs| && m == SigMap(pvs, pedges)
    ensures pvs[i] in m && Prod(Factors(pedges, pvs[i])) == m[pvs[i]]
    ensures DivLists(pvs[..i + 1], pedges) == DivLists(pvs[..i], pedges) + Divs(Tally(Factors(pedges, pvs[i])), 1)
  {
    var v := pvs[i];
    assert v in pvs;
    SigFactors(pedges, v);
    assert pvs[..i + 1] == pvs[..i] + [v];
    DivListsAppend(pvs[..i], pedges, v);
  }

  method CountVertex(counts: seq<(int, nat)>, ghost before: seq<int>, factors: seq<int>)
    returns (out: seq<(int, nat)>)
    requires counts == Tally(before)
    ensures out == Tally(before + Divs(Tally(factors), 1))
  {
    var divisors := DivisorsFromPrimeFactors(factors);
    out := CountAll(counts, before, divisors);
  }

  /** `for divisor in l_divisors: m_divisor_count[divisor] = ... + 1`. */
  method CountAll(counts: seq<(int, nat)>, ghost before: seq<int>, divisors: seq<int>)
    returns (out: seq<(int, nat)>)
    requires counts == Tally(before)
    ensures out == Tally(before + divisors)
  {
    out := counts;
    assert before + divisors[..0] == before;
    for j := 0 to |divisors|
      invariant out == Tally(before + divisors[..j])
    {
      TallyStep(before, divisors, j);
      out := Bump(out, divisors[j]);
    }
    assert divisors[..|divisors|] == divisors;
  }

  /** Counting one more divisor bumps its entry. */
  lemma TallyStep(before: seq<int>, divisors: seq<int>, j: nat)
    requires j < |divisors|
    ensures Tally(before + divisors[..j + 1]) == Bump(Tally(before + divisors[..j]), divisors[j])
  {
    var s := before + divisors[..j + 1];
    assert s[..|s| - 1] == before + divisors[..j];
  }

  /** `m = {vert: vert for vert in pvertices}`, then the edge loop
      multiplying each end's signature by the other end. */
  method Signatures(pvs: seq<int>, pedges: seq<(int, int)>) returns (m: map<int, int>)
    requires forall j | 0 <= j < |pedges| :: pedges[j].0 in pvs && pedges[j].1 in pvs
    ensures m == SigMap(pvs, pedges)
  {
    m := map[];
    for i := 0 to |pvs|
      invariant m.Keys == set p | p in pvs[..i]
      invariant forall p | p in m :: m[p] == p
    {
      m := m[pvs[i] := pvs[i]];
      assert pvs[..i + 1] == pvs[..i] + [pvs[i]];
    }
    NoEdgesYet(pvs, pedges, m);
    for j := 0 to |pedges|
      invariant m.Keys == set p | p in pvs
      invariant forall p | p in m :: m[p] == Sig(pedges[..j], p)
    {
      var v0, v1 := pedges[j].0, pedges[j].1;
      ghost var m0 := m;
      m := m[v0 := m[v0] * v1];
      ghost var m1 := m;
      m := m[v1 := m[v1] * v0];
      SigStep(pedges, j, m0, m1, m);
    }
    assert pedges[..|pedges|] == pedges;
  }

  /** Before any edge every vertex's signature is the vertex itself. */
  lemma NoEdgesYet(pvs: seq<int>, pedges: seq<(int, int)>, m: map<int, int>)
    requires m.Keys == (set p | p in pvs[..|pvs|]) && forall p | p in m :: m[p] == p
    ensures m.Keys == set p | p in pvs
    ensures forall p | p in m :: m[p] == Sig(pedges[..0], p)
  {
    assert pvs[..|pvs|] == pvs;
    forall p | p in m ensures m[p] == Sig(pedges[..0], p) {
      assert CliqueUnpruned.OpenNbrs(pedges[..0], p) == [];
    }
  }

  /** Multiplying in both ends of edge j keeps every entry the signature over
      the edges so far. */
  lemma SigStep(pedges: seq<(int, int)>, j: nat, m: map<int, int>, m1: map<int, int>, m2: map<int, int>)
    requires j < |pedges| && pedges[j].0 in m && pedges[j].1 in m
    requires forall p | p in m :: m[p] == Sig(pedges[..j], p)
    requires m1 == m[pedges[j].0 := m[pedges[j].0] * pedges[j].1]
    requires m2 == m1[pedges[j].1 := m1[pedges[j].1] * pedges[j].0]
    ensures m2.Keys == m.Keys
    ensures forall p | p in m2 :: m2[p] == Sig(pedges[..j + 1], p)
  {
    var v0, v1 := pedges[j].0, pedges[j].1;
    assert pedges[..j + 1] == pedges[..j] + [pedges[j]];
    forall p | p in m2 ensures m2[p] == Sig(pedges[..j + 1], p) {
      SigAppend(pedges[..j], pedges[j], p);
    }
  }

  // ========================================================= completeness

  /** The vertices of vs that lie in C, in order. */
  function Keep(vs: seq<int>, C: set<int>): (r: seq<int>)
    ensures forall x :: x in r <==> x in vs && x in C
  {
    if vs == [] then [] else (if vs[0] in C then [vs[0]] else []) + Keep(vs[1..], C)
  }

  lemma {:induction false} KeepDistinct(vs: seq<int>, C: set<int>)
    requires Distinct(vs)
    ensures Distinct(Keep(vs, C))
  {
    if vs != [] {
      assert Distinct(vs[1..]);
      KeepDistinct(vs[1..], C);
      HeadNotInTail(vs);
      DistinctConcat(if vs[0] in C then [vs[0]] else [], Keep(vs[1..], C));
    }
  }

  /** A distinct list inside another distinct list is no longer. */
  lemma DistinctShorter(a: seq<int>, b: seq<int>)
    requires Distinct(a) && Distinct(b) && forall i | 0 <= i < |a| :: a[i] in b
    ensures |a| <= |b|
  {
    Clique2.DistinctCard(a);
    Clique2.DistinctCard(b);
    Clique2.SubsetCard(set x | x in a, set x | x in b);
  }

  /** The primes of a clique of k vertices: k distinct prime vertices,
      pairwise joined. */
  lemma CliquePrimes(vertices: seq<int>, primes: seq<int>, edges: seq<Graphs.Edge>, k: int, C: set<int>)
    returns (S: seq<int>)
    requires Setup(vertices, primes, edges) && Clique2.GraphClique(vertices, edges, k, C)
    ensures |S| == k && Distinct(S) && forall i | 0 <= i < |S| :: S[i] in primes
    ensures forall i, j | 0 <= i < |S| && 0 <= j < |S| && i != j ::
      CliqueUnpruned.Linked(PEdges(vertices, primes, edges), S[i], S[j])
  {
    var pe := PEdges(vertices, primes, edges);
    var V := Keep(vertices, C);
    KeepDistinct(vertices, C);
    forall x | x in C ensures x in V {
      assert x in vertices;
    }
    assert (set x | x in V) == C;
    Clique2.DistinctCard(V);
    SetupKeys(vertices, primes, edges);
    var idx := seq(|V|, i requires 0 <= i < |V| => IndexOf(vertices, V[i]));
    S := seq(|V|, i requires 0 <= i < |V| => primes[idx[i]]);
    forall i, j | 0 <= i < j < |S| ensures S[i] != S[j] {
      assert V[i] != V[j];
    }
    forall i, j | 0 <= i < |S| && 0 <= j < |S| && i != j ensures CliqueUnpruned.Linked(pe, S[i], S[j]) {
      assert V[i] != V[j] && V[i] in C && V[j] in C;
      LinkedRenamed(vertices, primes, edges, idx[i], idx[j]);
    }
  }

  /** The product of a clique's primes is one of the divisors listed, seen
      by at least k vertices, and at least k of the primes are its members. */
  lemma CliqueProduct(vertices: seq<int>, primes: seq<int>, edges: seq<Graphs.Edge>, k: int, C: set<int>)
    returns (D: int)
    requires Setup(vertices, primes, edges) && k >= 1 && Clique2.GraphClique(vertices, edges, k, C)
    ensures var pe := PEdges(vertices, primes, edges);
      PrimeGraphShape(primes, pe) && D in DivLists(primes, pe) &&
      |Members(SigMap(primes, pe), primes, D)| >= k && Count(Counts(primes, pe), D) >= k
  {
    SetupShape(vertices, primes, edges);
    var S := CliquePrimes(vertices, primes, edges, k, C);
    D := LinkedProduct(primes, PEdges(vertices, primes, edges), S);
  }

  /** The same, for k >= 1 distinct prime vertices linked pairwise. */
  lemma LinkedProduct(primes: seq<int>, pe: seq<(int, int)>, S: seq<int>) returns (D: int)
    requires PrimeGraphShape(primes, pe) && |S| >= 1 && Distinct(S)
    requires forall i | 0 <= i < |S| :: S[i] in primes
    requires forall i, j | 0 <= i < |S| && 0 <= j < |S| && i != j :: CliqueUnpruned.Linked(pe, S[i], S[j])
    ensures D in DivLists(primes, pe)
    ensures |Members(SigMap(primes, pe), primes, D)| >= |S| && Count(Counts(primes, pe), D) >= |S|
  {
    assert AllPrime(S) by {
      forall i | 0 <= i < |S| ensures IsPrime(S[i]) {
        PrimeIn(primes, S[i]);
      }
    }
    D := Prod(S);
    CliqueTestIff(primes, pe, S);
    ProductListed(primes, pe, S);
    ProductSeen(primes, pe, S);
  }

  /** A product passing the test is among the divisors of its first prime's
      signature, so it is listed. */
  lemma ProductListed(primes: seq<int>, pe: seq<(int, int)>, S: seq<int>)
    requires PrimeGraphShape(primes, pe) && |S| >= 1
    requires forall i | 0 <= i < |S| :: S[i] in primes
    requires forall i | 0 <= i < |S| :: S[i] in SigMap(primes, pe)
    requires CliqueTest(SigMap(primes, pe), S)
    ensures Prod(S) in DivLists(primes, pe)
  {
    var p0 := S[0];
    assert Divides(Prod(S), Sig(pe, p0));
    SigFactors(pe, p0);
    FactorsPrime(primes, pe, p0);
    DivisorsOfPrimes(Factors(pe, p0));
    DivListsHas(primes, pe, p0, Prod(S));
  }

  /** A product of distinct primes passing the test has each of them as a
      member. */
  lemma ProductMembers(primes: seq<int>, pe: seq<(int, int)>, S: seq<int>)
    requires PrimeGraphShape(primes, pe) && AllPrime(S) && Distinct(S)
    requires forall i | 0 <= i < |S| :: S[i] in primes
    requires forall i | 0 <= i < |S| :: S[i] in SigMap(primes, pe)
    requires CliqueTest(SigMap(primes, pe), S)
    ensures |Members(SigMap(primes, pe), primes, Prod(S))| >= |S|
  {
    var m, D := SigMap(primes, pe), Prod(S);
    PrimeProdPositive(S);
    MembersSpec(m, primes, D);
    var M := Members(m, primes, D);
    forall i | 0 <= i < |S| ensures S[i] in M {
      ElemDividesProd(S, i);
    }
    DistinctShorter(S, M);
  }

  /** ... and each member sees it, so it is counted at least |S| times. */
  lemma ProductSeen(primes: seq<int>, pe: seq<(int, int)>, S: seq<int>)
    requires PrimeGraphShape(primes, pe) && AllPrime(S) && Distinct(S)
    requires forall i | 0 <= i < |S| :: S[i] in primes
    requires forall i | 0 <= i < |S| :: S[i] in SigMap(primes, pe)
    requires CliqueTest(SigMap(primes, pe), S)
    ensures |Members(SigMap(primes, pe), primes, Prod(S))| >= |S|
    ensures Count(Counts(primes, pe), Prod(S)) >= |S|
  {
    ProductMembers(primes, pe, S);
    var m, D := SigMap(primes, pe), Prod(S);
    MembersSpec(m, primes, D);
    SeeingSpec(m, primes, D);
    var M, V := Members(m, primes, D), Seeing(m, primes, D);
    forall i | 0 <= i < |M| ensures M[i] in V {
      assert M[i] in M;
    }
    DistinctShorter(M, V);
    CountIsSeeing(primes, pe, D);
  }

  /** A clique of k >= 1 vertices makes some entry of the dict qualify: the
      entry of the product of its primes. */
  lemma CliqueQualifies(vertices: seq<int>, primes: seq<int>, edges: seq<Graphs.Edge>, k: int, C: set<int>)
    requires Setup(vertices, primes, edges) && k >= 1 && Clique2.GraphClique(vertices, edges, k, C)
    ensures var pe := PEdges(vertices, primes, edges);
      exists i | 0 <= i < |Counts(primes, pe)| :: Qualifies(SigMap(primes, pe), primes, k, Counts(primes, pe)[i])
  {
    var D := CliqueProduct(vertices, primes, edges, k, C);
    var pe := PEdges(vertices, primes, edges);
    CountsKeys(primes, pe);
    var counts := Counts(primes, pe);
    var i := IndexOf(Keys(counts), D);
    CountEntry(counts, D);
    assert Qualifies(SigMap(primes, pe), primes, k, counts[i]);
  }

  /** With at least one vertex the dict has an entry: the divisor 1 of the first. */
  lemma CountsNonEmpty(pvs: seq<int>, pedges: seq<(int, int)>)
    requires PrimeGraphShape(pvs, pedges) && pvs != []
    ensures Counts(pvs, pedges) != []
  {
    var L := DivLists(pvs, pedges);
    DivsHead(Tally(Factors(pedges, pvs[0])), 1);
    assert L[0] in L;
    CountsKeys(pvs, pedges);
  }

  /** The scan finding nothing means no clique of k vertices (for k < 1: no vertex). */
  lemma NoDivisorNoClique(vertices: seq<int>, primes: seq<int>, edges: seq<Graphs.Edge>, k: int)
    requires Setup(vertices, primes, edges)
    ensures var pe := PEdges(vertices, primes, edges);
      FirstQualifying(Counts(primes, pe), SigMap(primes, pe), primes, k) == -1 ==>
        (k >= 1 ==> !Clique2.HasClique(vertices, edges, k)) && (k < 1 ==> vertices == [])
  {
    SetupShape(vertices, primes, edges);
    var pe := PEdges(vertices, primes, edges);
    var m := SigMap(primes, pe);
    var counts := Counts(primes, pe);
    CountsKeys(primes, pe);
    FirstQualifyingSpec(counts, m, primes, k);
    if k >= 1 && Clique2.HasClique(vertices, edges, k) {
      var C :| Clique2.GraphClique(vertices, edges, k, C);
      CliqueQualifies(vertices, primes, edges, k, C);
    }
    if k < 1 && vertices != [] {
      CountsNonEmpty(primes, pe);
      assert Qualifies(m, primes, k, counts[0]);
    }
  }

  /** The renamed list of distinct, pairwise joined prime vertices is a
      clique of the original graph. */
  lemma RenamedClique(vertices: seq<int>, primes: seq<int>, edges: seq<Graphs.Edge>, sel: seq<int>)
    requires Setup(vertices, primes, edges) && Distinct(sel) && forall i | 0 <= i < |sel| :: sel[i] in primes
    requires forall i, j | 0 <= i < |sel| && 0 <= j < |sel| && i != j ::
      CliqueUnpruned.Linked(PEdges(vertices, primes, edges), sel[i], sel[j])
    ensures (SetupKeys(vertices, primes, edges);
      Clique2.IsClique(vertices, edges, MapAll(Zip(primes, vertices), sel)))
  {
    SetupKeys(vertices, primes, edges);
    var ids := MapAll(Zip(primes, vertices), sel);
    forall i, j | 0 <= i < |sel| && 0 <= j < |sel| && i != j
      ensures ids[i] != ids[j] && Clique2.Linked(edges, ids[i], ids[j])
    {
      RenamedPair(vertices, primes, edges, sel, i, j);
    }
    forall i | 0 <= i < |sel| ensures ids[i] in vertices {
      RenamedMember(vertices, primes, edges, sel, i);
    }
    CliqueFromPairs(vertices, edges, ids);
  }

  lemma CliqueFromPairs(vertices: seq<int>, edges: seq<Graphs.Edge>, ids: seq<int>)
    requires forall i | 0 <= i < |ids| :: ids[i] in vertices
    requires forall i, j | 0 <= i < |ids| && 0 <= j < |ids| && i != j ::
      ids[i] != ids[j] && Clique2.Linked(edges, ids[i], ids[j])
    ensures Clique2.IsClique(vertices, edges, ids)
  {
  }

  lemma RenamedMember(vertices: seq<int>, primes: seq<int>, edges: seq<Graphs.Edge>, sel: seq<int>, i: nat)
    requires Setup(vertices, primes, edges) && forall t | 0 <= t < |sel| :: sel[t] in primes
    requires i < |sel|
    ensures (SetupKeys(vertices, primes, edges);
      MapAll(Zip(primes, vertices), sel)[i] in vertices)
  {
    SetupKeys(vertices, primes, edges);
    var a := IndexOf(primes, sel[i]);
  }

  lemma RenamedPair(vertices: seq<int>, primes: seq<int>, edges: seq<Graphs.Edge>, sel: seq<int>, i: nat, j: nat)
    requires Setup(vertices, primes, edges) && forall t | 0 <= t < |sel| :: sel[t] in primes
    requires i < |sel| && j < |sel| && sel[i] != sel[j]
    requires CliqueUnpruned.Linked(PEdges(vertices, primes, edges), sel[i], sel[j])
    ensures (SetupKeys(vertices, primes, edges);
      var ids := MapAll(Zip(primes, vertices), sel);
      ids[i] != ids[j] && Clique2.Linked(edges, ids[i], ids[j]))
  {
    SetupKeys(vertices, primes, edges);
    var ids := MapAll(Zip(primes, vertices), sel);
    var a := IndexOf(primes, sel[i]);
    var b := IndexOf(primes, sel[j]);
    assert ids[i] == vertices[a] && ids[j] == vertices[b];
    LinkedRenamed(vertices, primes, edges, a, b);
  }

  /** A clique listed as distinct vertices witnesses a clique of that many vertices. */
  lemma ListedClique(vertices: seq<int>, edges: seq<Graphs.Edge>, ids: seq<int>)
    requires Clique2.IsClique(vertices, edges, ids)
    ensures Clique2.HasClique(vertices, edges, |ids|)
  {
    var C := set x | x in ids;
    Clique2.DistinctCard(ids);
    forall x, y | x in C && y in C && x != y ensures Clique2.Linked(edges, x, y) {
      var i := IndexOf(ids, x);
      var j := IndexOf(ids, y);
    }
    assert Clique2.GraphClique(vertices, edges, |ids|, C);
  }

  /** The first k members of any divisor (all of them when k exceeds their
      number) are distinct prime vertices joined pairwise, and pass the test. */
  lemma TakeMembersClique(pvs: seq<int>, pedges: seq<(int, int)>, d: int, k: int)
    requires PrimeGraphShape(pvs, pedges)
    ensures var m := SigMap(pvs, pedges);
      var sel := Take(Members(m, pvs, d), k);
      Distinct(sel) && (forall i | 0 <= i < |sel| :: sel[i] in pvs) &&
      (forall i, j | 0 <= i < |sel| && 0 <= j < |sel| && i != j :: CliqueUnpruned.Linked(pedges, sel[i], sel[j])) &&
      CliqueTest(m, sel)
  {
    var m := SigMap(pvs, pedges);
    var M := Members(m, pvs, d);
    MembersSpec(m, pvs, d);
    var sel := Take(M, k);
    assert forall i | 0 <= i < |sel| :: sel[i] == M[i];
    assert forall i | 0 <= i < |sel| :: sel[i] in pvs by {
      forall i | 0 <= i < |sel| ensures sel[i] in pvs {
        assert M[i] in M;
      }
    }
    forall i, j | 0 <= i < |sel| && 0 <= j < |sel| && i != j
      ensures CliqueUnpruned.Linked(pedges, sel[i], sel[j])
    {
      assert M[i] in M && M[j] in M && M[i] != M[j];
      DividesTransitive(sel[i], d, m[sel[j]]);
      SeesIff(pvs, pedges, sel[j], sel[i]);
    }
    CliqueTestIff(pvs, pedges, sel);
  }

  /** The scan's divisor is counted for at least k vertices, so the list
      gathered at line 152 always passes the length assertion at line 153. */
  lemma GatheredEnough(pvs: seq<int>, pe: seq<(int, int)>, k: int)
    requires PrimeGraphShape(pvs, pe)
    ensures var m := SigMap(pvs, pe);
      var best := FirstQualifying(Counts(pvs, pe), m, pvs, k);
      best != -1 ==> |Seeing(m, pvs, best)| >= k && |Members(m, pvs, best)| >= k
  {
    var m := SigMap(pvs, pe);
    var counts := Counts(pvs, pe);
    var best := FirstQualifying(counts, m, pvs, k);
    if best != -1 {
      CountsKeys(pvs, pe);
      FirstQualifyingSpec(counts, m, pvs, k);
      var t :| 0 <= t < |counts| && counts[t].0 == best && Qualifies(m, pvs, k, counts[t]);
      CountEntry(counts, best);
      CountIsSeeing(pvs, pe, best);
    }
  }

  /** The first k vertices whose signature d divides are distinct prime
      vertices, and they pass the test exactly when they are joined pairwise. */
  lemma GatheredClique(pvs: seq<int>, pe: seq<(int, int)>, d: int, k: int)
    requires PrimeGraphShape(pvs, pe)
    ensures var m := SigMap(pvs, pe);
      var g := Take(Seeing(m, pvs, d), k);
      Distinct(g) && (forall i | 0 <= i < |g| :: g[i] in pvs && g[i] in m) &&
      (CliqueTest(m, g) <==>
        forall i, j | 0 <= i < |g| && 0 <= j < |g| && i != j :: CliqueUnpruned.Linked(pe, g[i], g[j]))
  {
    var m := SigMap(pvs, pe);
    var S := Seeing(m, pvs, d);
    SeeingSpec(m, pvs, d);
    var g := Take(S, k);
    assert forall i | 0 <= i < |g| :: g[i] == S[i];
    forall i | 0 <= i < |g| ensures g[i] in pvs {
      assert S[i] in S;
    }
    CliqueTestIff(pvs, pe, g);
  }

  /** Lines 128-157 over the primes, as written: None when the scan finds no
      divisor; otherwise the first k vertices whose signature the divisor
      divides, with AssertionError when there are fewer than k of them
      (line 153) or when they fail the clique test (line 157). */
  function SelectAsWritten(pvs: seq<int>, pe: seq<(int, int)>, k: int): Result<Option<seq<int>>>
    requires PrimeGraphShape(pvs, pe)
  {
    var m := SigMap(pvs, pe);
    var best := FirstQualifying(Counts(pvs, pe), m, pvs, k);
    if best == -1 then Ok(None)
    else if |Seeing(m, pvs, best)| < k then Err(AssertionError)
    else
      GatheredClique(pvs, pe, best, k);
      var clique := Take(Seeing(m, pvs, best), k);
      if CliqueTest(m, clique) then Ok(Some(clique)) else Err(AssertionError)
  }

  /** The corrected selection: the list the source gathers when it passes the
      clique test, and otherwise the first k of the divisor's own members. */
  function Select(pvs: seq<int>, pe: seq<(int, int)>, k: int): Option<seq<int>>
    requires PrimeGraphShape(pvs, pe)
  {
    var m := SigMap(pvs, pe);
    var best := FirstQualifying(Counts(pvs, pe), m, pvs, k);
    if best == -1 then None
    else
      GatheredClique(pvs, pe, best, k);
      var clique := Take(Seeing(m, pvs, best), k);
      if CliqueTest(m, clique) then Some(clique) else Some(Take(Members(m, pvs, best), k))
  }

  /** The as-written selection fails only with AssertionError, exactly when
      the gathered list is not a clique; whenever it succeeds it agrees with
      the corrected selection. */
  lemma AsWrittenAgrees(pvs: seq<int>, pe: seq<(int, int)>, k: int)
    requires PrimeGraphShape(pvs, pe)
    ensures var m := SigMap(pvs, pe);
      var best := FirstQualifying(Counts(pvs, pe), m, pvs, k);
      var r := SelectAsWritten(pvs, pe, k);
      (GatheredClique(pvs, pe, best, k);
      (r.Err? <==> best != -1 && !CliqueTest(m, Take(Seeing(m, pvs, best), k))) &&
      (r.Err? ==> r.error == AssertionError) &&
      (r.Ok? ==> r.value == Select(pvs, pe, k)))
  {
    GatheredEnough(pvs, pe, k);
  }

  /** A corrected selection is a list of distinct prime vertices, joined
      pairwise, passing the test, of k entries when k >= 0. */
  lemma SelectClique(pvs: seq<int>, pe: seq<(int, int)>, k: int)
    requires PrimeGraphShape(pvs, pe)
    ensures var sel := Select(pvs, pe, k);
      sel.Some? ==>
        Distinct(sel.value) && (forall i | 0 <= i < |sel.value| :: sel.value[i] in pvs) &&
        (forall i, j | 0 <= i < |sel.value| && 0 <= j < |sel.value| && i != j ::
          CliqueUnpruned.Linked(pe, sel.value[i], sel.value[j])) &&
        (k >= 0 ==> |sel.value| == k)
  {
    var m := SigMap(pvs, pe);
    var best := FirstQualifying(Counts(pvs, pe), m, pvs, k);
    if best != -1 {
      GatheredEnough(pvs, pe, k);
      GatheredClique(pvs, pe, best, k);
      TakeMembersClique(pvs, pe, best, k);
    }
  }

  /** A selection renamed back to the original vertex ids. */
  function Renamed(vertices: seq<int>, primes: seq<int>, edges: seq<Graphs.Edge>, sel: seq<int>): seq<int>
    requires Setup(vertices, primes, edges) && forall i | 0 <= i < |sel| :: sel[i] in primes
  {
    SetupKeys(vertices, primes, edges);
    MapAll(Zip(primes, vertices), sel)
  }

  /** `solve` after the constructor, as written: the as-written selection
      renamed back, or its AssertionError. */
  function FoundAsWritten(vertices: seq<int>, primes: seq<int>, edges: seq<Graphs.Edge>, k: int): Result<Option<seq<int>>>
    requires Setup(vertices, primes, edges)
  {
    SetupShape(vertices, primes, edges);
    var pe := PEdges(vertices, primes, edges);
    AsWrittenAgrees(primes, pe, k);
    SelectClique(primes, pe, k);
    match SelectAsWritten(primes, pe, k)
    case Err(e) => Err(e)
    case Ok(None) => Ok(None)
    case Ok(Some(sel)) => Ok(Some(Renamed(vertices, primes, edges, sel)))
  }

  /** `solve` after the constructor, corrected: the corrected selection
      renamed back. */
  function Found(vertices: seq<int>, primes: seq<int>, edges: seq<Graphs.Edge>, k: int): Option<seq<int>>
    requires Setup(vertices, primes, edges)
  {
    SetupShape(vertices, primes, edges);
    var pe := PEdges(vertices, primes, edges);
    SelectClique(primes, pe, k);
    match Select(primes, pe, k)
    case None => None
    case Some(sel) => Some(Renamed(vertices, primes, edges, sel))
  }

  /** The corrected outcome is the corrected selection renamed back. */
  lemma FoundOfSelect(vertices: seq<int>, primes: seq<int>, edges: seq<Graphs.Edge>, k: int)
    requires Setup(vertices, primes, edges)
    ensures (SetupShape(vertices, primes, edges);
      SelectClique(primes, PEdges(vertices, primes, edges), k);
      var sel := Select(primes, PEdges(vertices, primes, edges), k);
      Found(vertices, primes, edges, k) == if sel.None? then None else Some(Renamed(vertices, primes, edges, sel.value)))
  {
  }

  /** Where the source returns, the correction returns the same list; the
      source's only other outcome is AssertionError. */
  lemma FoundAsWrittenAgrees(vertices: seq<int>, primes: seq<int>, edges: seq<Graphs.Edge>, k: int)
    requires Setup(vertices, primes, edges)
    ensures var r := FoundAsWritten(vertices, primes, edges, k);
      (r.Ok? ==> r.value == Found(vertices, primes, edges, k)) &&
      (r.Err? ==> r.error == AssertionError && Found(vertices, primes, edges, k).Some?)
  {
    SetupShape(vertices, primes, edges);
    AsWrittenAgrees(primes, PEdges(vertices, primes, edges), k);
  }

  /** The scan's divisor gives a clique of k vertices of the original graph. */
  lemma DivisorGivesClique(vertices: seq<int>, primes: seq<int>, edges: seq<Graphs.Edge>, k: int)
    requires Setup(vertices, primes, edges)
    ensures Found(vertices, primes, edges, k).Some? ==>
      var ids := Found(vertices, primes, edges, k).value;
      Clique2.IsClique(vertices, edges, ids) && (k >= 0 ==> |ids| == k) &&
      (k >= 1 ==> Clique2.HasClique(vertices, edges, k)) && (k < 1 ==> vertices != [])
  {
    SetupShape(vertices, primes, edges);
    var pe := PEdges(vertices, primes, edges);
    SelectClique(primes, pe, k);
    var sel := Select(primes, pe, k);
    if sel.Some? {
      RenamedClique(vertices, primes, edges, sel.value);
      var ids := Renamed(vertices, primes, edges, sel.value);
      assert Found(vertices, primes, edges, k) == Some(ids);
      if k >= 1 {
        ListedClique(vertices, edges, ids);
      }
    }
  }

  /** The outcome of the scan: None exactly when there is no clique of k
      vertices (for k < 1: when there is no vertex at all), and otherwise a
      clique of k vertices. */
  lemma FoundSpec(vertices: seq<int>, primes: seq<int>, edges: seq<Graphs.Edge>, k: int)
    requires Setup(vertices, primes, edges)
    ensures Found(vertices, primes, edges, k).Some? ==>
      Clique2.IsClique(vertices, edges, Found(vertices, primes, edges, k).value) &&
      (k >= 0 ==> |Found(vertices, primes, edges, k).value| == k)
    ensures k >= 1 ==> (Found(vertices, primes, edges, k).None? <==> !Clique2.HasClique(vertices, edges, k))
    ensures k < 1 ==> (Found(vertices, primes, edges, k).None? <==> vertices == [])
  {
    SetupShape(vertices, primes, edges);
    var pe := PEdges(vertices, primes, edges);
    assert Found(vertices, primes, edges, k).None? <==>
      FirstQualifying(Counts(primes, pe), SigMap(primes, pe), primes, k) == -1;
    NoDivisorNoClique(vertices, primes, edges, k);
    DivisorGivesClique(vertices, primes, edges, k);
  }

  // ============================================================== solve

  /** What `prime_list(len(vertices))` yields with the sieve bound max. */
  function PrimesFor(n: nat, max: nat): Result<seq<int>> {
    var all := PrimesBelow(max + 1);
    if n == 0 then Ok(all) else if n <= |all| then Ok(all[..n]) else Err(MathIsBroken)
  }

  /** The outcome of building the prime graph: the primes it uses, or the
      exception the constructor raises first. */
  function Prepared(vertices: seq<int>, edges: seq<Graphs.Edge>, max: nat): Result<seq<int>> {
    match PrimesFor(|vertices|, max)
    case Err(e) => Err(e)
    case Ok(ps) =>
      if |ps| != |vertices| then Err(AssertionError)
      else if !Graphs.EndpointsIn(vertices, edges) then Err(KeyError)
      else Ok(ps)
  }

  /** A prepared graph meets everything the constructor needs. */
  lemma PreparedSetup(vertices: seq<int>, edges: seq<Graphs.Edge>, max: nat)
    requires Distinct(vertices) && Prepared(vertices, edges, max).Ok?
    ensures Setup(vertices, Prepared(vertices, edges, max).value, edges)
  {
    var all := PrimesBelow(max + 1);
    PrimesBelowSpec(max + 1);
    var ps := Prepared(vertices, edges, max).value;
    assert ps <= all;
    forall i, j | 0 <= i < j < |ps| ensures ps[i] != ps[j] {
      assert ps[i] == all[i] && ps[j] == all[j];
    }
    forall i | 0 <= i < |ps| ensures IsPrime(ps[i]) {
      assert ps[i] == all[i];
    }
  }

  /** `PrimeGraph(vertices, edges)`: the primes from the sieve, the length
      assertion, then the renaming, which raises KeyError on an edge end that
      is not a vertex. */
  method NewPrimeGraph(vertices: seq<int>, edges: seq<Graphs.Edge>, max: nat) returns (r: Result<PrimeGraph>)
    requires Distinct(vertices)
    ensures r.Err? <==> Prepared(vertices, edges, max).Err?
    ensures r.Err? ==> r.error == Prepared(vertices, edges, max).error
    ensures r.Ok? ==> (fresh(r.value) && r.value.Valid() &&
      r.value.vertices == vertices && r.value.edges == edges &&
      r.value.primes == Prepared(vertices, edges, max).value &&
      r.value.mNeighbors == CliqueUnpruned.NbrMap(r.value.pvertices, r.value.pedges))
  {
    var primes :- PrimeList(|vertices|, max);
    if |primes| != |vertices| {
      return Err(AssertionError);
    }
    if !Graphs.EndpointsIn(vertices, edges) {
      return Err(KeyError);
    }
    PreparedSetup(vertices, edges, max);
    var g := new PrimeGraph(vertices, edges, primes);
    return Ok(g);
  }

  /** `solve` as written (lines 128-157): the errors of the constructor;
      otherwise None when the scan finds no divisor, AssertionError when the
      first k vertices whose signature the divisor divides are fewer than k
      or are not a clique, and those vertices renamed back otherwise. */
  method SolveAsWritten(vertices: seq<int>, edges: seq<Graphs.Edge>, k: int, max: nat) returns (r: Result<Option<seq<int>>>)
    requires Distinct(vertices)
    ensures Prepared(vertices, edges, max).Err? ==> r == Err(Prepared(vertices, edges, max).error)
    ensures Prepared(vertices, edges, max).Ok? ==> (PreparedSetup(vertices, edges, max);
      r == FoundAsWritten(vertices, Prepared(vertices, edges, max).value, edges, k))
  {
    var graph :- NewPrimeGraph(vertices, edges, max);
    graph.ValidShaped();
    ghost var primes := graph.primes;
    ghost var pe := graph.pedges;
    assert Setup(vertices, primes, edges) && pe == PEdges(vertices, primes, edges);
    var counts := graph.CountDivisors();
    var best := graph.BestDivisor(counts, k);
    if best == -1 {
      return Ok(None);
    }
    var clique := Seeing(graph.m, graph.pvertices, best);
    if |clique| < k {
      return Err(AssertionError);
    }
    clique := Take(clique, k);
    GatheredClique(primes, pe, best, k);
    SelectedIn(graph.pvertices, pe, graph.m, clique);
    var isClique := graph.IsClique(clique);
    if !isClique {
      return Err(AssertionError);
    }
    ZipKeys(primes, vertices, clique);
    var ids := MapAll(graph.p2v, clique);
    return Ok(Some(ids));
  }

  /** `solve`, corrected: as written, except that when the gathered vertices
      are not a clique the first k of the divisor's own members are returned
      instead of failing the assertion at line 157. */
  method Solve(vertices: seq<int>, edges: seq<Graphs.Edge>, k: int, max: nat) returns (r: Result<Option<seq<int>>>)
    requires Distinct(vertices)
    ensures r.Err? <==> Prepared(vertices, edges, max).Err?
    ensures r.Err? ==> r.error == Prepared(vertices, edges, max).error
    ensures r.Ok? ==> (PreparedSetup(vertices, edges, max);
      r.value == Found(vertices, Prepared(vertices, edges, max).value, edges, k))
  {
    var graph :- NewPrimeGraph(vertices, edges, max);
    graph.ValidShaped();
    ghost var primes := graph.primes;
    ghost var pe := graph.pedges;
    assert Setup(vertices, primes, edges) && pe == PEdges(vertices, primes, edges);
    var counts := graph.CountDivisors();
    var best := graph.BestDivisor(counts, k);
    if best == -1 {
      return Ok(None);
    }
    var clique := Seeing(graph.m, graph.pvertices, best);
    clique := Take(clique, k);
    GatheredClique(primes, pe, best, k);
    SelectedIn(graph.pvertices, pe, graph.m, clique);
    var isClique := graph.IsClique(clique);
    if !isClique {
      clique := Members(graph.m, graph.pvertices, best);
      clique := Take(clique, k);
      TakeMembersClique(primes, pe, best, k);
    }
    assert Select(primes, pe, k) == Some(clique);
    FoundOfSelect(vertices, primes, edges, k);
    ZipKeys(primes, vertices, clique);
    var ids := MapAll(graph.p2v, clique);
    return Ok(Some(ids));
  }

  lemma ZipKeys(keys: seq<int>, values: seq<int>, sel: seq<int>)
    requires |keys| == |values| && Distinct(keys) && forall i | 0 <= i < |sel| :: sel[i] in keys
    ensures forall i | 0 <= i < |sel| :: sel[i] in Zip(keys, values)
  {
    ZipSpec(keys, values);
  }

  /** `solve`'s promise: the constructor's errors, otherwise None exactly when
      there is no clique of k vertices (for k < 1: when there is no vertex),
      and a found list is a clique of k vertices. */
  lemma SolveSpec(vertices: seq<int>, edges: seq<Graphs.Edge>, k: int, max: nat)
    requires Distinct(vertices) && Prepared(vertices, edges, max).Ok?
    ensures (PreparedSetup(vertices, edges, max);
      var found := Found(vertices, Prepared(vertices, edges, max).value, edges, k);
      (found.Some? ==> Clique2.IsClique(vertices, edges, found.value) && (k >= 0 ==> |found.value| == k)) &&
      (k >= 1 ==> (found.None? <==> !Clique2.HasClique(vertices, edges, k))) &&
      (k < 1 ==> (found.None? <==> vertices == [])))
  {
    PreparedSetup(vertices, edges, max);
    FoundSpec(vertices, Prepared(vertices, edges, max).value, edges, k);
  }
}
