/** A worked instance of the final selection of clique1's `solve`
    (src/algos/clique1.py lines 152-157): on the complete graph on five
    vertices without one edge, the divisor the scan picks also divides the
    signatures of vertices outside the clique, so the first k vertices the
    source gathers are not a clique, while the divisor's own members are.

    The graph is taken as parameters described entry by entry (ExampleGraph)
    rather than as constants, so that the verifier unfolds the counting loop
    only as far as the lemmas below ask. */
module Clique1Example {
  import opened Wrappers
  import opened Arith
  import opened PrimeUtil
  import opened Clique1
  import CliqueUnpruned

  /** Vertices 0..4 renamed to the first five primes, and every pair joined
      except 1 and 2 (primes 3 and 5), in the order the edge list gives them. */
  predicate ExampleGraph(pvs: seq<int>, pe: seq<(int, int)>) {
    |pvs| == 5 && pvs[0] == 2 && pvs[1] == 3 && pvs[2] == 5 && pvs[3] == 7 && pvs[4] == 11 &&
    |pe| == 9 && pe[0] == (2, 3) && pe[1] == (2, 5) && pe[2] == (2, 7) && pe[3] == (2, 11) &&
    pe[4] == (3, 7) && pe[5] == (3, 11) && pe[6] == (5, 7) && pe[7] == (5, 11) && pe[8] == (7, 11)
  }

  /** The signatures of the five prime vertices. */
  const Sigs: map<int, int> := map[2 := 2310, 3 := 462, 5 := 770, 7 := 2310, 11 := 2310]

  /** The first eight divisors the counting loop records, those of vertex 2's
      factors [3, 5, 7, 11, 2] up to 154 = 2 * 7 * 11. */
  const Head: seq<int> := [1, 2, 11, 22, 7, 14, 77, 154]

  lemma ExampleExists()
    ensures ExampleGraph([2, 3, 5, 7, 11],
      [(2, 3), (2, 5), (2, 7), (2, 11), (3, 7), (3, 11), (5, 7), (5, 11), (7, 11)])
  {
  }

  lemma SmallPrimes(pvs: seq<int>, pe: seq<(int, int)>)
    requires ExampleGraph(pvs, pe)
    ensures AllPrime(pvs)
  {
    forall d | 2 <= d < 11 ensures 11 % d != 0 {
      assert d == 2 || d == 3 || d == 4 || d == 5 || d == 6 || d == 7 || d == 8 || d == 9 || d == 10;
    }
    forall d | 2 <= d < 7 ensures 7 % d != 0 {
      assert d == 2 || d == 3 || d == 4 || d == 5 || d == 6;
    }
    forall d | 2 <= d < 5 ensures 5 % d != 0 {
      assert d == 2 || d == 3 || d == 4;
    }
    forall d | 2 <= d < 3 ensures 3 % d != 0 {
      assert d == 2;
    }
    assert IsPrime(pvs[0]) && IsPrime(pvs[1]) && IsPrime(pvs[2]) && IsPrime(pvs[3]) && IsPrime(pvs[4]);
  }

  // ========================================================= signatures

  /** What one edge multiplies into `m[p]`. */
  function EdgeFactor(e: (int, int), p: int): int {
    (if e.0 == p then e.1 else 1) * (if e.1 == p then e.0 else 1)
  }

  /** The product the constructor's edge loop multiplies into `m[p]`. */
  function EdgeProd(pedges: seq<(int, int)>, p: int): int {
    if pedges == [] then 1 else EdgeFactor(pedges[0], p) * EdgeProd(pedges[1..], p)
  }

  lemma {:induction false} EdgeProdIsProd(pedges: seq<(int, int)>, p: int)
    ensures Prod(CliqueUnpruned.OpenNbrs(pedges, p)) == EdgeProd(pedges, p)
  {
    if pedges != [] {
      EdgeProdIsProd(pedges[1..], p);
      ProdAppend(CliqueUnpruned.Ends(pedges[0], p), CliqueUnpruned.OpenNbrs(pedges[1..], p));
      ProdEnds(pedges[0], p);
    }
  }

  lemma EdgeProdStep(pedges: seq<(int, int)>, i: nat, p: int)
    requires i < |pedges|
    ensures EdgeProd(pedges[i..], p) == EdgeFactor(pedges[i], p) * EdgeProd(pedges[i + 1..], p)
  {
    assert pedges[i..][1..] == pedges[i + 1..];
  }

  /** The signature of p in the example, edge by edge. */
  lemma SigNine(pvs: seq<int>, pe: seq<(int, int)>, p: int)
    requires ExampleGraph(pvs, pe)
    ensures Sig(pe, p) == p * EdgeFactor(pe[0], p) * EdgeFactor(pe[1], p) * EdgeFactor(pe[2], p) *
      EdgeFactor(pe[3], p) * EdgeFactor(pe[4], p) * EdgeFactor(pe[5], p) * EdgeFactor(pe[6], p) *
      EdgeFactor(pe[7], p) * EdgeFactor(pe[8], p)
  {
    EdgeProdIsProd(pe, p);
    assert pe[0..] == pe;
    assert pe[9..] == [];
    EdgeProdStep(pe, 0, p);
    EdgeProdStep(pe, 1, p);
    EdgeProdStep(pe, 2, p);
    EdgeProdStep(pe, 3, p);
    EdgeProdStep(pe, 4, p);
    EdgeProdStep(pe, 5, p);
    EdgeProdStep(pe, 6, p);
    EdgeProdStep(pe, 7, p);
    EdgeProdStep(pe, 8, p);
  }

  lemma SigMapFrom(pvs: seq<int>, pedges: seq<(int, int)>, sigs: map<int, int>)
    requires forall p :: p in sigs <==> p in pvs
    requires forall p | p in sigs :: Sig(pedges, p) == sigs[p]
    ensures SigMap(pvs, pedges) == sigs
  {
    assert SigMap(pvs, pedges).Keys == sigs.Keys;
  }

  /** The example is a prime graph, and its signatures are those of Sigs. */
  lemma ExampleShape(pvs: seq<int>, pe: seq<(int, int)>)
    requires ExampleGraph(pvs, pe)
    ensures PrimeGraphShape(pvs, pe) && SigMap(pvs, pe) == Sigs
  {
    SmallPrimes(pvs, pe);
    ExampleEnds(pvs, pe);
    forall p | p in Sigs ensures Sig(pe, p) == Sigs[p] {
      SigNine(pvs, pe, p);
    }
    SigMapFrom(pvs, pe, Sigs);
  }

  /** The example's vertices are distinct, its edges join vertices, and its
      vertices are the keys of Sigs. */
  lemma ExampleEnds(pvs: seq<int>, pe: seq<(int, int)>)
    requires ExampleGraph(pvs, pe)
    ensures Distinct(pvs)
    ensures forall j | 0 <= j < |pe| :: pe[j].0 in pvs && pe[j].1 in pvs
    ensures forall p :: p in Sigs <==> p in pvs
  {
    assert pvs[0] in pvs && pvs[1] in pvs && pvs[2] in pvs && pvs[3] in pvs && pvs[4] in pvs;
    forall p | p in pvs ensures p in Sigs {
      var i :| 0 <= i < 5 && pvs[i] == p;
    }
  }

  // ======================================================== the divisors

  lemma OpenNbrsStep(pedges: seq<(int, int)>, i: nat, v: int)
    requires i < |pedges|
    ensures CliqueUnpruned.OpenNbrs(pedges[i..], v) ==
      CliqueUnpruned.Ends(pedges[i], v) + CliqueUnpruned.OpenNbrs(pedges[i + 1..], v)
  {
    assert pedges[i..][1..] == pedges[i + 1..];
  }

  lemma {:induction false} OpenNbrsAbsent(es: seq<(int, int)>, v: int)
    requires forall j | 0 <= j < |es| :: es[j].0 != v && es[j].1 != v
    ensures CliqueUnpruned.OpenNbrs(es, v) == []
  {
    if es != [] {
      OpenNbrsAbsent(es[1..], v);
    }
  }

  /** Vertex 2's list once it has itself appended. */
  lemma Factors2(pvs: seq<int>, pe: seq<(int, int)>)
    requires ExampleGraph(pvs, pe)
    ensures var f := Factors(pe, 2);
      |f| == 5 && f[0] == 3 && f[1] == 5 && f[2] == 7 && f[3] == 11 && f[4] == 2
  {
    OpenNbrsAbsent(pe[4..], 2);
    assert pe[0..] == pe;
    OpenNbrsStep(pe, 0, 2);
    OpenNbrsStep(pe, 1, 2);
    OpenNbrsStep(pe, 2, 2);
    OpenNbrsStep(pe, 3, 2);
  }

  /** A prime counted once doubles the list of divisors: those without it,
      then those with it. */
  lemma DivsOnce(pc: seq<(int, nat)>, d: int)
    requires |pc| > 0 && pc[0].1 == 1
    ensures Divs(pc, d) == Divs(pc[1..], d) + Divs(pc[1..], d * pc[0].0)
  {
    var p, rest := pc[0].0, pc[1..];
    assert Pow(p, 1) == p * Pow(p, 0);
    assert Blocks(rest, p, d, 1) == Blocks(rest, p, d, 0) + Divs(rest, d * Pow(p, 0));
  }

  /** The divisors of 7 * 11 * 2, each prime counted once. */
  lemma DivsOf154(r2: seq<(int, nat)>)
    requires |r2| == 3 && r2[0] == (7, 1) && r2[1] == (11, 1) && r2[2] == (2, 1)
    ensures Divs(r2, 1) == Head
  {
    var r3 := r2[1..];
    var r4 := r3[1..];
    assert r4[1..] == [];
    DivsOnce(r2, 1);
    DivsOnce(r3, 1);
    DivsOnce(r3, 7);
    DivsOnce(r4, 1);
    DivsOnce(r4, 11);
    DivsOnce(r4, 7);
    DivsOnce(r4, 77);
  }

  /** Vertex 2's divisors begin with Head: the primes 3 and 5 are left out
      of the first block. */
  lemma HeadOfDivs(pc: seq<(int, nat)>)
    requires |pc| == 5 && pc[0] == (3, 1) && pc[1] == (5, 1) && pc[2] == (7, 1) &&
      pc[3] == (11, 1) && pc[4] == (2, 1)
    ensures |Divs(pc, 1)| >= 8 && Divs(pc, 1)[..8] == Head
  {
    var r1 := pc[1..];
    var r2 := r1[1..];
    DivsOnce(pc, 1);
    DivsOnce(r1, 1);
    DivsOf154(r2);
    assert Divs(pc, 1) == Head + (Divs(r2, 5) + Divs(r1, 3));
  }

  /** Counting five distinct factors gives each of them once, in order. */
  lemma TallyFive(f: seq<int>)
    requires |f| == 5 && f[0] == 3 && f[1] == 5 && f[2] == 7 && f[3] == 11 && f[4] == 2
    ensures var pc := Tally(f);
      |pc| == 5 && pc[0] == (3, 1) && pc[1] == (5, 1) && pc[2] == (7, 1) &&
      pc[3] == (11, 1) && pc[4] == (2, 1)
  {
    assert Distinct(f);
    TallyDistinct(f);
  }

  /** The divisor lists begin with Head once the first vertex's factors are
      3, 5, 7, 11 and 2. */
  lemma HeadFromFactors(pvs: seq<int>, pe: seq<(int, int)>)
    requires |pvs| > 0
    requires var f := Factors(pe, pvs[0]);
      |f| == 5 && f[0] == 3 && f[1] == 5 && f[2] == 7 && f[3] == 11 && f[4] == 2
    ensures |DivLists(pvs, pe)| >= 8 && DivLists(pvs, pe)[..8] == Head
  {
    var pc := Tally(Factors(pe, pvs[0]));
    TallyFive(Factors(pe, pvs[0]));
    HeadOfDivs(pc);
    var a, rest := Divs(pc, 1), DivLists(pvs[1..], pe);
    assert DivLists(pvs, pe) == a + rest;
    assert (a + rest)[..8] == a[..8];
  }

  /** The divisor lists begin with Head, the first eight divisors of vertex
      2's factors. */
  lemma HeadOfDivLists(pvs: seq<int>, pe: seq<(int, int)>)
    requires ExampleGraph(pvs, pe)
    ensures |DivLists(pvs, pe)| >= 8 && DivLists(pvs, pe)[..8] == Head
  {
    Factors2(pvs, pe);
    HeadFromFactors(pvs, pe);
  }

  /** Distinct values counted first come first among the keys. */
  lemma DistinctKeysFirst(h: seq<int>, tail: seq<int>)
    requires Distinct(h)
    ensures |Tally(h + tail)| >= |h| && forall i | 0 <= i < |h| :: Tally(h + tail)[i].0 == h[i]
  {
    TallyKeysPrefix(h, tail);
    TallyDistinct(h);
    assert Keys(Tally(h)) == h;
    forall i | 0 <= i < |h| ensures Tally(h + tail)[i].0 == h[i] {
      assert Keys(Tally(h + tail))[i] == h[i];
    }
  }

  /** A list that begins with Head is counted with Head's values first. */
  lemma HeadCounted(L: seq<int>)
    requires |L| >= 8 && L[..8] == Head
    ensures |Tally(L)| >= 8 && forall i | 0 <= i < 8 :: Tally(L)[i].0 == Head[i]
  {
    assert L == Head + L[8..];
    assert Distinct(Head);
    DistinctKeysFirst(Head, L[8..]);
  }

  /** The counting loop records Head first, in this order. */
  lemma HeadOfCounts(pvs: seq<int>, pe: seq<(int, int)>)
    requires ExampleGraph(pvs, pe)
    ensures |Counts(pvs, pe)| >= 8 && forall i | 0 <= i < 8 :: Counts(pvs, pe)[i].0 == Head[i]
  {
    HeadOfDivLists(pvs, pe);
    HeadCounted(DivLists(pvs, pe));
  }

  // ============================================================ the scan

  /** A divisor with at most two prime divisors among the vertices has at
      most two members. */
  lemma FewMembers(pvs: seq<int>, pe: seq<(int, int)>, d: int, a: int, b: int)
    requires ExampleGraph(pvs, pe)
    requires forall i | 0 <= i < 5 :: Divides(pvs[i], d) ==> pvs[i] == a || pvs[i] == b
    ensures |Members(Sigs, pvs, d)| < 3
  {
    var M := Members(Sigs, pvs, d);
    MembersSpec(Sigs, pvs, d);
    assert Distinct(pvs);
    forall i | 0 <= i < |M| ensures M[i] in [a, b] {
      assert M[i] in M;
      var j :| 0 <= j < |pvs| && pvs[j] == M[i];
      assert Divides(pvs[j], d);
    }
    if a != b {
      DistinctShorter(M, [a, b]);
    } else {
      DistinctShorter(M, [a]);
    }
  }

  /** 154 is counted for all five signatures and has the members 2, 7 and 11. */
  lemma Members154(pvs: seq<int>, pe: seq<(int, int)>)
    requires ExampleGraph(pvs, pe)
    ensures |Seeing(Sigs, pvs, 154)| >= 3 && Seeing(Sigs, pvs, 154)[..3] == [2, 3, 5]
    ensures |Members(Sigs, pvs, 154)| >= 3 && Members(Sigs, pvs, 154)[..3] == [2, 7, 11]
  {
    assert pvs[1..][0] == 3 && pvs[1..][1..][0] == 5;
    var S := Seeing(Sigs, pvs, 154);
    assert S == [2] + Seeing(Sigs, pvs[1..], 154);
    assert Seeing(Sigs, pvs[1..], 154) == [3] + Seeing(Sigs, pvs[1..][1..], 154);
    assert Seeing(Sigs, pvs[1..][1..], 154) == [5] + Seeing(Sigs, pvs[1..][1..][1..], 154);
    var t3 := pvs[1..][1..][1..];
    assert t3[0] == 7 && t3[1..][0] == 11 && t3[1..][1..] == [];
    assert Members(Sigs, pvs, 154) == [2] + Members(Sigs, pvs[1..], 154);
    assert Members(Sigs, pvs[1..], 154) == Members(Sigs, pvs[1..][1..], 154);
    assert Members(Sigs, pvs[1..][1..], 154) == Members(Sigs, t3, 154);
    assert Members(Sigs, t3, 154) == [7] + Members(Sigs, t3[1..], 154);
    assert Members(Sigs, t3[1..], 154) == [11];
  }

  /** The scan returns the key of an entry that qualifies when every earlier
      entry does not. */
  lemma FirstQualifyingAt(items: seq<(int, nat)>, m: map<int, int>, pvs: seq<int>, k: int, i: nat)
    requires forall t | 0 <= t < |pvs| :: pvs[t] in m
    requires i < |items| && Qualifies(m, pvs, k, items[i]) && forall j | 0 <= j < i :: !Qualifies(m, pvs, k, items[j])
    ensures FirstQualifying(items, m, pvs, k) == items[i].0
    decreases i
  {
    if i > 0 {
      assert items[1..][i - 1] == items[i];
      FirstQualifyingAt(items[1..], m, pvs, k, i - 1);
    }
  }

  /** The seven keys before 154 have fewer than three members each. */
  lemma EarlyKeysFail(pvs: seq<int>, pe: seq<(int, int)>)
    requires ExampleGraph(pvs, pe)
    ensures |Counts(pvs, pe)| >= 8
    ensures forall j | 0 <= j < 7 :: !Qualifies(Sigs, pvs, 3, Counts(pvs, pe)[j])
  {
    HeadOfCounts(pvs, pe);
    ExampleEnds(pvs, pe);
    forall j | 0 <= j < 7 ensures !Qualifies(Sigs, pvs, 3, Counts(pvs, pe)[j]) {
      var d := Counts(pvs, pe)[j].0;
      assert d == Head[j];
      if j == 0 {
        FewMembers(pvs, pe, 1, 0, 0);
      } else if j == 1 {
        FewMembers(pvs, pe, 2, 2, 2);
      } else if j == 2 {
        FewMembers(pvs, pe, 11, 11, 11);
      } else if j == 3 {
        FewMembers(pvs, pe, 22, 2, 11);
      } else if j == 4 {
        FewMembers(pvs, pe, 7, 7, 7);
      } else if j == 5 {
        FewMembers(pvs, pe, 14, 2, 7);
      } else {
        FewMembers(pvs, pe, 77, 7, 11);
      }
    }
  }

  /** The eighth key, 154, is counted five times and has three members. */
  lemma Key154Qualifies(pvs: seq<int>, pe: seq<(int, int)>)
    requires ExampleGraph(pvs, pe)
    ensures |Counts(pvs, pe)| >= 8 && Counts(pvs, pe)[7].0 == 154
    ensures Qualifies(Sigs, pvs, 3, Counts(pvs, pe)[7])
  {
    ExampleShape(pvs, pe);
    HeadOfCounts(pvs, pe);
    var counts := Counts(pvs, pe);
    CountsKeys(pvs, pe);
    CountEntry(counts, 154);
    CountIsSeeing(pvs, pe, 154);
    Members154(pvs, pe);
  }

  /** With k = 3 the scan settles on the divisor 154 = 2 * 7 * 11, the eighth
      key: the seven before it have fewer than three members. */
  lemma ScanPicks154(pvs: seq<int>, pe: seq<(int, int)>)
    requires ExampleGraph(pvs, pe)
    ensures PrimeGraphShape(pvs, pe) && SigMap(pvs, pe) == Sigs
    ensures forall i | 0 <= i < |pvs| :: pvs[i] in Sigs
    ensures FirstQualifying(Counts(pvs, pe), Sigs, pvs, 3) == 154
  {
    ExampleShape(pvs, pe);
    EarlyKeysFail(pvs, pe);
    Key154Qualifies(pvs, pe);
    FirstQualifyingAt(Counts(pvs, pe), Sigs, pvs, 3, 7);
  }

  /** Lines 152-157 as written keep the first k vertices whose signature the
      divisor 154 divides, [2, 3, 5], which fail the clique test (3 and 5 are
      not joined), so the assertion at line 157 fails although 2, 7 and 11
      (vertices 0, 3 and 4) form a clique; the first k of the divisor's own
      members, which the corrected Clique1.Select falls back to, pass the test. */
  lemma AsWrittenSelectsNonClique(pvs: seq<int>, pe: seq<(int, int)>)
    requires ExampleGraph(pvs, pe)
    ensures PrimeGraphShape(pvs, pe) && SigMap(pvs, pe) == Sigs
    ensures forall i | 0 <= i < |pvs| :: pvs[i] in Sigs
    ensures FirstQualifying(Counts(pvs, pe), Sigs, pvs, 3) == 154
    ensures Take(Seeing(Sigs, pvs, 154), 3) == [2, 3, 5] && !CliqueTest(Sigs, [2, 3, 5])
    ensures Take(Members(Sigs, pvs, 154), 3) == [2, 7, 11] && CliqueTest(Sigs, [2, 7, 11])
  {
    ScanPicks154(pvs, pe);
    Members154(pvs, pe);
    AsWrittenTests();
  }

  /** On this graph with k = 3 the as-written selection fails the assertion
      at line 157, and the corrected selection returns the clique 2, 7, 11. */
  lemma AsWrittenFails(pvs: seq<int>, pe: seq<(int, int)>)
    requires ExampleGraph(pvs, pe)
    ensures PrimeGraphShape(pvs, pe)
    ensures SelectAsWritten(pvs, pe, 3) == Err(AssertionError)
    ensures Select(pvs, pe, 3) == Some([2, 7, 11])
  {
    AsWrittenSelectsNonClique(pvs, pe);
    GatheredEnough(pvs, pe, 3);
  }

  /** The source's clique test on the two selections. */
  lemma AsWrittenTests()
    ensures !CliqueTest(Sigs, [2, 3, 5]) && CliqueTest(Sigs, [2, 7, 11])
  {
    assert Prod([2, 3, 5]) == 30;
    assert !Divides(30, Sigs[[2, 3, 5][1]]);
    assert Prod([2, 7, 11]) == 154;
  }
}
