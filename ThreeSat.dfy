/** src/algos/three_sat.py: the incremental 3-SAT solver. `expression_combos`
    lists every assignment of a clause's own variables that satisfies it; the
    solver keeps a list of answer keys that satisfy the clauses seen so far and,
    clause by clause, merges each of them with each compatible local
    assignment. src/algos/three_sat1.py and src/algos/three_sat2.py carry
    identical copies of `expression_combos` and of this merge loop; their
    modules import the ones here. */
module ThreeSat {
  import opened Arith
  import opened Sats

  // ============================================================ name sets

  /** `set(var.name for var in expression)`. */
  function NameSet(e: Expression): set<string> {
    set i | 0 <= i < |e| :: e[i].name
  }

  /** The variable names of every clause of a problem. */
  function Vars(ps: Problem): set<string> {
    if ps == [] then {} else Vars(ps[..|ps| - 1]) + NameSet(ps[|ps| - 1])
  }

  lemma {:induction false} VarsContains(ps: Problem, j: nat)
    requires j < |ps|
    ensures NameSet(ps[j]) <= Vars(ps)
  {
    if j < |ps| - 1 {
      VarsContains(ps[..|ps| - 1], j);
    }
  }

  lemma {:induction false} VarsPrefix(ps: Problem, j: nat)
    requires j <= |ps|
    ensures Vars(ps[..j]) <= Vars(ps)
  {
    if j < |ps| {
      assert ps[..|ps| - 1][..j] == ps[..j];
      VarsPrefix(ps[..|ps| - 1], j);
    } else {
      assert ps[..j] == ps;
    }
  }

  /** Every name of the problem is the name of some literal of some clause. */
  lemma {:induction false} VarsWitness(ps: Problem, x: string) returns (j: nat)
    requires x in Vars(ps)
    ensures j < |ps| && x in NameSet(ps[j])
  {
    if x in NameSet(ps[|ps| - 1]) {
      j := |ps| - 1;
    } else {
      j := VarsWitness(ps[..|ps| - 1], x);
    }
  }

  // ====================================================== keys and clauses

  /** `big` holds every answer of `small`, unchanged. */
  predicate Extends(big: AnswerKey, small: AnswerKey) {
    forall x | x in small :: x in big && big[x] == small[x]
  }

  /** Two keys give the same answer, or none, for every name in `s`. */
  predicate AgreeOn(s: set<string>, k1: AnswerKey, k2: AnswerKey) {
    forall x | x in s :: (x in k1 <==> x in k2) && (x in k1 ==> k1[x] == k2[x])
  }

  /** The answers of `a` for the names in `s`. */
  function Restrict(a: AnswerKey, s: set<string>): (r: AnswerKey)
    ensures r.Keys == a.Keys * s
  {
    map x | x in a && x in s :: a[x]
  }

  /** A key for exactly the names in `s`: the answer of `a`, False where it has none. */
  function Fill(a: AnswerKey, s: set<string>): (r: AnswerKey)
    ensures r.Keys == s
  {
    map x | x in s :: if x in a then a[x] else false
  }

  /** Some key satisfies every clause of the problem. */
  ghost predicate Satisfiable(ps: Problem) {
    exists key: AnswerKey :: AllSatisfied(ps, key)
  }

  /** A clause's value depends only on the answers for its own names. */
  lemma SatisfiedAgree(e: Expression, k1: AnswerKey, k2: AnswerKey)
    requires AgreeOn(NameSet(e), k1, k2)
    ensures Satisfied(e, k1) <==> Satisfied(e, k2)
  {
    if Satisfied(e, k1) {
      var i :| 0 <= i < |e| && e[i].name in k1 && Eval(e[i], k1[e[i].name]);
      assert e[i].name in NameSet(e);
    }
    if Satisfied(e, k2) {
      var i :| 0 <= i < |e| && e[i].name in k2 && Eval(e[i], k2[e[i].name]);
      assert e[i].name in NameSet(e);
    }
  }

  /** A problem's value depends only on the answers for its own names. */
  lemma AllSatisfiedAgree(ps: Problem, k1: AnswerKey, k2: AnswerKey)
    requires AgreeOn(Vars(ps), k1, k2)
    ensures AllSatisfied(ps, k1) <==> AllSatisfied(ps, k2)
  {
    forall j | 0 <= j < |ps| ensures Satisfied(ps[j], k1) <==> Satisfied(ps[j], k2) {
      VarsContains(ps, j);
      SatisfiedAgree(ps[j], k1, k2);
    }
  }

  /** Adding answers never falsifies a satisfied clause. */
  lemma SatisfiedMonotone(e: Expression, small: AnswerKey, big: AnswerKey)
    requires Extends(big, small) && Satisfied(e, small)
    ensures Satisfied(e, big)
  {
    var i :| 0 <= i < |e| && e[i].name in small && Eval(e[i], small[e[i].name]);
    assert e[i].name in big && Eval(e[i], big[e[i].name]);
  }

  lemma AllSatisfiedMonotone(ps: Problem, small: AnswerKey, big: AnswerKey)
    requires Extends(big, small) && AllSatisfied(ps, small)
    ensures AllSatisfied(ps, big)
  {
    forall j | 0 <= j < |ps| ensures Satisfied(ps[j], big) {
      SatisfiedMonotone(ps[j], small, big);
    }
  }

  /** A satisfying key, cut down to the problem's names and completed with
      False, still satisfies the problem. */
  lemma FillSatisfies(ps: Problem, key: AnswerKey)
    requires AllSatisfied(ps, key)
    ensures AllSatisfied(ps, Fill(key, Vars(ps)))
  {
    var r := Restrict(key, Vars(ps));
    AllSatisfiedAgree(ps, key, r);
    AllSatisfiedMonotone(ps, r, Fill(key, Vars(ps)));
  }

  lemma AllSatisfiedAppend(ps: Problem, e: Expression, key: AnswerKey)
    ensures AllSatisfied(ps + [e], key) <==> AllSatisfied(ps, key) && Satisfied(e, key)
  {
    if AllSatisfied(ps, key) && Satisfied(e, key) {
      forall j | 0 <= j < |ps + [e]| ensures Satisfied((ps + [e])[j], key) {
        if j < |ps| {
          assert (ps + [e])[j] == ps[j];
        }
      }
    }
    if AllSatisfied(ps + [e], key) {
      forall j | 0 <= j < |ps| ensures Satisfied(ps[j], key) {
        assert (ps + [e])[j] == ps[j];
      }
      assert (ps + [e])[|ps|] == e;
    }
  }

  // ============================================= one clause's assignments

  /** `2**n`. */
  function Pow2(n: nat): (r: nat)
    ensures r > 0
  {
    if n == 0 then 1 else 2 * Pow2(n - 1)
  }

  /** The bit `(num >> i) & 1 == 1` of a natural number. */
  function Bit(num: nat, i: nat): bool {
    if i == 0 then num % 2 == 1 else Bit(num / 2, i - 1)
  }

  /** The key `{var: ((num >> i) & 1 == 1) for i, var in enumerate(names)}`. */
  function KeyOf(names: seq<string>, num: nat): (key: AnswerKey)
    ensures key.Keys == set x | x in names
  {
    if names == [] then map[] else KeyOf(names[1..], num / 2)[names[0] := num % 2 == 1]
  }

  /** Name i of a list of distinct names gets bit i of the number. */
  lemma {:induction false} KeyOfBit(names: seq<string>, num: nat, i: nat)
    requires Distinct(names) && i < |names|
    ensures KeyOf(names, num)[names[i]] == Bit(num, i)
  {
    if i > 0 {
      assert names[1..][i - 1] == names[i];
      KeyOfBit(names[1..], num / 2, i - 1);
    }
  }

  /** The number whose bits are the answers of `a` for `names`. */
  function Encode(names: seq<string>, a: AnswerKey): nat
    requires forall x | x in names :: x in a
  {
    if names == [] then 0 else (if a[names[0]] then 1 else 0) + 2 * Encode(names[1..], a)
  }

  lemma {:induction false} EncodeBound(names: seq<string>, a: AnswerKey)
    requires forall x | x in names :: x in a
    ensures Encode(names, a) < Pow2(|names|)
  {
    if names != [] {
      EncodeBound(names[1..], a);
    }
  }

  lemma {:induction false} EncodeAgree(names: seq<string>, a: AnswerKey, b: AnswerKey)
    requires forall x | x in names :: x in a && x in b && a[x] == b[x]
    ensures Encode(names, a) == Encode(names, b)
  {
    if names != [] {
      EncodeAgree(names[1..], a, b);
    }
  }

  /** Reading a key's answers as bits and building the key back gives the
      key's answers for those names. */
  lemma {:induction false} KeyOfEncode(names: seq<string>, a: AnswerKey)
    requires forall x | x in names :: x in a
    ensures KeyOf(names, Encode(names, a)) == Restrict(a, set x | x in names)
  {
    if names != [] {
      var n := Encode(names, a);
      var t := Encode(names[1..], a);
      assert n % 2 == (if a[names[0]] then 1 else 0) && n / 2 == t;
      KeyOfEncode(names[1..], a);
      var lhs := KeyOf(names, n);
      var rhs := Restrict(a, set x | x in names);
      assert lhs.Keys == rhs.Keys;
      forall x | x in lhs ensures lhs[x] == rhs[x] {
        if x != names[0] {
          assert x in names[1..];
        }
      }
    }
  }

  /** A key over exactly the names is the key of its own number. */
  lemma KeyOfEncodeSelf(names: seq<string>, a: AnswerKey)
    requires a.Keys == set x | x in names
    ensures KeyOf(names, Encode(names, a)) == a
  {
    KeyOfEncode(names, a);
    assert Restrict(a, set x | x in names) == a;
  }

  /** Building the key of a number below 2^|names| and reading it back gives
      the number: distinct numbers give distinct keys. */
  lemma {:induction false} EncodeKeyOf(names: seq<string>, num: nat)
    requires Distinct(names) && num < Pow2(|names|)
    ensures Encode(names, KeyOf(names, num)) == num
  {
    if names != [] {
      var tail := names[1..];
      assert Distinct(tail);
      EncodeKeyOf(tail, num / 2);
      HeadNotInTail(names);
      EncodeAgree(tail, KeyOf(names, num), KeyOf(tail, num / 2));
    }
  }

  /** The keys the bitmask loop yields for the numbers below n, in order. */
  function CombosUpTo(e: Expression, names: seq<string>, n: nat): seq<AnswerKey> {
    if n == 0 then []
    else
      var k := KeyOf(names, n - 1);
      CombosUpTo(e, names, n - 1) + (if Satisfied(e, k) then [k] else [])
  }

  /** Every yielded key is over exactly the names, satisfies the clause and
      has a number below n. */
  lemma {:induction false} CombosUpToSound(e: Expression, names: seq<string>, n: nat, a: AnswerKey)
    requires Distinct(names) && n <= Pow2(|names|) && a in CombosUpTo(e, names, n)
    ensures a.Keys == (set x | x in names) && Satisfied(e, a) && Encode(names, a) < n
  {
    assert n > 0;
    var prev := CombosUpTo(e, names, n - 1);
    var k := KeyOf(names, n - 1);
    if a in prev {
      CombosUpToSound(e, names, n - 1, a);
    } else {
      assert Satisfied(e, k) && CombosUpTo(e, names, n) == prev + [k];
      assert a == k;
      EncodeKeyOf(names, n - 1);
    }
  }

  /** Every key over the names that satisfies the clause and has a number
      below n is yielded. */
  lemma {:induction false} CombosUpToComplete(e: Expression, names: seq<string>, n: nat, a: AnswerKey)
    requires a.Keys == (set x | x in names) && Satisfied(e, a) && Encode(names, a) < n
    ensures a in CombosUpTo(e, names, n)
  {
    if Encode(names, a) == n - 1 {
      KeyOfEncodeSelf(names, a);
    } else {
      CombosUpToComplete(e, names, n - 1, a);
    }
  }

  /** The key of number n is not among those yielded for smaller numbers. */
  lemma KeyOfNotEarlier(e: Expression, names: seq<string>, n: nat)
    requires Distinct(names) && n < Pow2(|names|)
    ensures KeyOf(names, n) !in CombosUpTo(e, names, n)
  {
    if KeyOf(names, n) in CombosUpTo(e, names, n) {
      CombosUpToSound(e, names, n, KeyOf(names, n));
      EncodeKeyOf(names, n);
      assert false;
    }
  }

  /** No key is yielded twice. */
  lemma {:induction false} CombosUpToDistinct(e: Expression, names: seq<string>, n: nat)
    requires Distinct(names) && n <= Pow2(|names|)
    ensures Distinct(CombosUpTo(e, names, n))
  {
    if n > 0 {
      CombosUpToDistinct(e, names, n - 1);
      CombosStepDistinct(e, names, n - 1, CombosUpTo(e, names, n - 1));
    }
  }

  lemma CombosStepDistinct(e: Expression, names: seq<string>, n: nat, prev: seq<AnswerKey>)
    requires Distinct(names) && n < Pow2(|names|)
    requires prev == CombosUpTo(e, names, n) && Distinct(prev)
    ensures Distinct(CombosUpTo(e, names, n + 1))
  {
    var k := KeyOf(names, n);
    if Satisfied(e, k) {
      KeyOfNotEarlier(e, names, n);
      DistinctConcat(prev, [k]);
    }
  }

  /** `sorted`-free listing of a set: Python's iteration over a set, whose
      order is unspecified. */
  method SetOrder<T>(s: set<T>) returns (order: seq<T>)
    ensures Distinct(order) && (set x | x in order) == s
  {
    order := [];
    var rest := s;
    while rest != {}
      invariant rest !! (set x | x in order) && rest + (set x | x in order) == s
      invariant Distinct(order)
      decreases |rest|
    {
      var x :| x in rest;
      DistinctConcat(order, [x]);
      order := order + [x];
      rest := rest - {x};
    }
  }

  /** `expression_combos`: every assignment of exactly the clause's names that
      satisfies it, each once. */
  method ExpressionCombos(e: Expression) returns (combos: seq<AnswerKey>)
    ensures forall a | a in combos :: a.Keys == NameSet(e) && Satisfied(e, a)
    ensures forall a: AnswerKey | a.Keys == NameSet(e) && Satisfied(e, a) :: a in combos
    ensures Distinct(combos)
  {
    var valNames := SetOrder(NameSet(e));
    var maxVal := Pow2(|valNames|);
    combos := [];
    for num := 0 to maxVal
      invariant combos == CombosUpTo(e, valNames, num)
    {
      var key := KeyOf(valNames, num);
      var sat := EvaluateExpression(e, key);
      if sat {
        combos := combos + [key];
      }
    }
    CombosUpToDistinct(e, valNames, maxVal);
    forall a | a in combos ensures a.Keys == NameSet(e) && Satisfied(e, a) {
      CombosUpToSound(e, valNames, maxVal, a);
    }
    forall a: AnswerKey | a.Keys == NameSet(e) && Satisfied(e, a) ensures a in combos {
      EncodeBound(valNames, a);
      CombosUpToComplete(e, valNames, maxVal, a);
    }
  }

  // ============================================================== merging

  /** The existing key agrees with the local key on every name they share. */
  predicate Compatible(key: AnswerKey, local: AnswerKey) {
    forall x | x in local && x in key :: key[x] == local[x]
  }

  /** The `valid` loop: stops at the first name the two keys disagree on. */
  method CheckCompatible(key: AnswerKey, local: AnswerKey) returns (valid: bool)
    ensures valid <==> Compatible(key, local)
  {
    valid := true;
    var rest := local.Keys;
    while rest != {}
      invariant rest <= local.Keys
      invariant forall x | x in local && x !in rest && x in key :: key[x] == local[x]
      decreases |rest|
    {
      var x :| x in rest;
      if x in key && key[x] != local[x] {
        valid := false;
        break;
      }
      rest := rest - {x};
    }
  }

  /** `ak = key.copy()` and one `ak[var] = value` per local answer. */
  method MergeKey(key: AnswerKey, local: AnswerKey) returns (ak: AnswerKey)
    ensures ak == key + local
  {
    ak := key;
    var rest := local.Keys;
    while rest != {}
      invariant rest <= local.Keys
      invariant ak.Keys == key.Keys + (local.Keys - rest)
      invariant forall x | x in ak :: ak[x] == if x in local && x !in rest then local[x] else key[x]
      decreases |rest|
    {
      var x :| x in rest;
      ak := ak[x := local[x]];
      rest := rest - {x};
    }
    MergeDone(key, local, ak, rest);
  }

  /** Once no local answer is left, the copy holds the merge. */
  lemma MergeDone(key: AnswerKey, local: AnswerKey, ak: AnswerKey, rest: set<string>)
    requires rest == {}
    requires ak.Keys == key.Keys + (local.Keys - rest)
    requires forall x | x in ak :: ak[x] == if x in local && x !in rest then local[x] else key[x]
    ensures ak == key + local
  {
    assert ak.Keys == (key + local).Keys;
  }

  /** The merges of one local key into every compatible existing key, in list order. */
  function Row(local: AnswerKey, keys: seq<AnswerKey>): seq<AnswerKey> {
    if keys == [] then []
    else
      var k := keys[|keys| - 1];
      Row(local, keys[..|keys| - 1]) + (if Compatible(k, local) then [k + local] else [])
  }

  /** The new key list after one clause: the rows of every local key, in order. */
  function Step(combos: seq<AnswerKey>, keys: seq<AnswerKey>): seq<AnswerKey> {
    if combos == [] then [] else Step(combos[..|combos| - 1], keys) + Row(combos[|combos| - 1], keys)
  }

  lemma {:induction false} RowSound(local: AnswerKey, keys: seq<AnswerKey>, x: AnswerKey) returns (k: AnswerKey)
    requires x in Row(local, keys)
    ensures k in keys && Compatible(k, local) && x == k + local
  {
    var n := |keys| - 1;
    if x in Row(local, keys[..n]) {
      k := RowSound(local, keys[..n], x);
    } else {
      k := keys[n];
    }
  }

  lemma {:induction false} RowComplete(local: AnswerKey, keys: seq<AnswerKey>, k: AnswerKey)
    requires k in keys && Compatible(k, local)
    ensures k + local in Row(local, keys)
  {
    var n := |keys| - 1;
    if k != keys[n] {
      assert k in keys[..n];
      RowComplete(local, keys[..n], k);
    }
  }

  /** Every key of the step is the merge of a local key with a compatible old key. */
  lemma {:induction false} StepSound(combos: seq<AnswerKey>, keys: seq<AnswerKey>, x: AnswerKey)
    returns (l: AnswerKey, k: AnswerKey)
    requires x in Step(combos, keys)
    ensures l in combos && k in keys && Compatible(k, l) && x == k + l
  {
    var n := |combos| - 1;
    if x in Step(combos[..n], keys) {
      l, k := StepSound(combos[..n], keys, x);
    } else {
      l := combos[n];
      k := RowSound(l, keys, x);
    }
  }

  /** Every merge of a local key with a compatible old key is in the step. */
  lemma {:induction false} StepComplete(combos: seq<AnswerKey>, keys: seq<AnswerKey>, l: AnswerKey, k: AnswerKey)
    requires l in combos && k in keys && Compatible(k, l)
    ensures k + l in Step(combos, keys)
  {
    var n := |combos| - 1;
    if l == combos[n] {
      RowComplete(l, keys, k);
    } else {
      assert l in combos[..n];
      StepComplete(combos[..n], keys, l, k);
    }
  }

  /** An empty key list stays empty. */
  lemma {:induction false} StepEmpty(combos: seq<AnswerKey>)
    ensures Step(combos, []) == []
  {
    if combos != [] {
      StepEmpty(combos[..|combos| - 1]);
    }
  }

  /** The two nested loops over local keys and existing keys. */
  method MergeAll(combos: seq<AnswerKey>, keys: seq<AnswerKey>) returns (newKeys: seq<AnswerKey>)
    ensures newKeys == Step(combos, keys)
  {
    newKeys := [];
    for c := 0 to |combos|
      invariant newKeys == Step(combos[..c], keys)
    {
      assert combos[..c + 1][..c] == combos[..c];
      newKeys := MergeRow(newKeys, combos[c], keys);
    }
    assert combos[..|combos|] == combos;
  }

  /** The inner loop: each existing key compatible with `local`, merged with it, appended to `acc`. */
  method MergeRow(acc: seq<AnswerKey>, local: AnswerKey, keys: seq<AnswerKey>) returns (out: seq<AnswerKey>)
    ensures out == acc + Row(local, keys)
  {
    out := acc;
    for j := 0 to |keys|
      invariant out == acc + Row(local, keys[..j])
    {
      assert keys[..j + 1][..j] == keys[..j];
      var valid := CheckCompatible(keys[j], local);
      if valid {
        var ak := MergeKey(keys[j], local);
        out := out + [ak];
      }
    }
    assert keys[..|keys|] == keys;
  }

  // =========================================================== the search

  /** A key the search may hold after the clauses `ps`: it extends the seed,
      answers exactly the seed's names and the clauses' names, and satisfies
      every clause. */
  predicate Good(seed: AnswerKey, ps: Problem, k: AnswerKey) {
    Extends(k, seed) && k.Keys == seed.Keys + Vars(ps) && AllSatisfied(ps, k)
  }

  /** Merging a compatible satisfying local key into a good key gives a good
      key for one more clause. */
  lemma MergeGood(seed: AnswerKey, ps: Problem, e: Expression, k: AnswerKey, l: AnswerKey)
    requires Good(seed, ps, k) && l.Keys == NameSet(e) && Satisfied(e, l) && Compatible(k, l)
    ensures Good(seed, ps + [e], k + l)
  {
    assert Extends(k + l, k);
    assert Extends(k + l, l);
    AllSatisfiedMonotone(ps, k, k + l);
    SatisfiedMonotone(e, l, k + l);
    AllSatisfiedAppend(ps, e, k + l);
    assert (ps + [e])[..|ps|] == ps;
  }

  lemma VarsAppend(ps: Problem, e: Expression)
    ensures Vars(ps + [e]) == Vars(ps) + NameSet(e)
  {
    assert (ps + [e])[..|ps|] == ps;
  }

  /** Cutting an assignment down to some names keeps the clauses over those names satisfied. */
  lemma RestrictSatisfies(ps: Problem, e: Expression, a: AnswerKey)
    requires a.Keys == Vars(ps + [e]) && AllSatisfied(ps + [e], a)
    ensures Restrict(a, Vars(ps)).Keys == Vars(ps) && AllSatisfied(ps, Restrict(a, Vars(ps)))
    ensures Restrict(a, NameSet(e)).Keys == NameSet(e) && Satisfied(e, Restrict(a, NameSet(e)))
  {
    VarsAppend(ps, e);
    AllSatisfiedAppend(ps, e, a);
    AllSatisfiedAgree(ps, a, Restrict(a, Vars(ps)));
    SatisfiedAgree(e, a, Restrict(a, NameSet(e)));
  }

  /** The two halves of an assignment, with a seed that shares no name, merge
      back into the seeded assignment. */
  lemma MergeHalves(seed: AnswerKey, ps: Problem, e: Expression, a: AnswerKey)
    requires seed.Keys !! Vars(ps + [e]) && a.Keys == Vars(ps + [e])
    ensures Compatible(seed + Restrict(a, Vars(ps)), Restrict(a, NameSet(e)))
    ensures (seed + Restrict(a, Vars(ps))) + Restrict(a, NameSet(e)) == seed + a
  {
    VarsAppend(ps, e);
  }

  /** Every assignment of the names of one more clause that satisfies it and
      the earlier clauses is the merge of one of its local keys with a key of
      the earlier list. */
  lemma MergeComplete(seed: AnswerKey, ps: Problem, e: Expression, keys: seq<AnswerKey>,
                      combos: seq<AnswerKey>, a: AnswerKey)
    requires seed.Keys !! Vars(ps + [e])
    requires forall b: AnswerKey | b.Keys == Vars(ps) && AllSatisfied(ps, b) :: seed + b in keys
    requires forall b: AnswerKey | b.Keys == NameSet(e) && Satisfied(e, b) :: b in combos
    requires a.Keys == Vars(ps + [e]) && AllSatisfied(ps + [e], a)
    ensures seed + a in Step(combos, keys)
  {
    var a0 := Restrict(a, Vars(ps));
    var l := Restrict(a, NameSet(e));
    RestrictSatisfies(ps, e, a);
    MergeHalves(seed, ps, e, a);
    StepComplete(combos, keys, l, seed + a0);
  }

  /** One clause of the search keeps its invariants. */
  /** Every key one pass yields is good for one more clause. */
  lemma StepGood(seed: AnswerKey, ps: Problem, e: Expression, keys: seq<AnswerKey>, combos: seq<AnswerKey>)
    requires forall k | k in keys :: Good(seed, ps, k)
    requires forall l | l in combos :: l.Keys == NameSet(e) && Satisfied(e, l)
    ensures forall x | x in Step(combos, keys) :: Good(seed, ps + [e], x)
  {
    forall x | x in Step(combos, keys) ensures Good(seed, ps + [e], x) {
      var l, k := StepSound(combos, keys, x);
      MergeGood(seed, ps, e, k, l);
    }
  }

  lemma SearchStep(seed: AnswerKey, ps: Problem, e: Expression, keys: seq<AnswerKey>,
                   combos: seq<AnswerKey>, all: set<string>)
    requires forall k | k in keys :: Good(seed, ps, k)
    requires seed.Keys !! all && Vars(ps + [e]) <= all
    requires forall b: AnswerKey | b.Keys == Vars(ps) && AllSatisfied(ps, b) :: seed + b in keys
    requires forall l | l in combos :: l.Keys == NameSet(e) && Satisfied(e, l)
    requires forall b: AnswerKey | b.Keys == NameSet(e) && Satisfied(e, b) :: b in combos
    ensures forall a: AnswerKey | a.Keys == Vars(ps + [e]) && AllSatisfied(ps + [e], a) ::
      seed + a in Step(combos, keys)
  {
    forall a: AnswerKey | a.Keys == Vars(ps + [e]) && AllSatisfied(ps + [e], a)
      ensures seed + a in Step(combos, keys)
    {
      MergeComplete(seed, ps, e, keys, combos, a);
    }
  }

  /** The answer-key loop started from the list `[seed]`: one ExpressionCombos
      and one MergeAll per clause. Every key it returns extends the seed,
      answers exactly the seed's and the problem's names and satisfies every
      clause; when the seed shares no name with the problem, every assignment
      of the problem's names that satisfies it is returned, merged with the
      seed. */
  method Search(seed: AnswerKey, ps: Problem) returns (keys: seq<AnswerKey>)
    ensures ps == [] ==> keys == [seed]
    ensures forall k | k in keys :: Good(seed, ps, k)
    ensures seed.Keys !! Vars(ps) ==>
      forall a: AnswerKey | a.Keys == Vars(ps) && AllSatisfied(ps, a) :: seed + a in keys
  {
    keys := [seed];
    assert seed + map[] == seed;
    for j := 0 to |ps|
      invariant j == 0 ==> keys == [seed]
      invariant forall k | k in keys :: Good(seed, ps[..j], k)
      invariant seed.Keys !! Vars(ps) ==>
        forall a: AnswerKey | a.Keys == Vars(ps[..j]) && AllSatisfied(ps[..j], a) :: seed + a in keys
    {
      var combos := ExpressionCombos(ps[j]);
      var newKeys := MergeAll(combos, keys);
      assert ps[..j + 1] == ps[..j] + [ps[j]];
      StepGood(seed, ps[..j], ps[j], keys, combos);
      if seed.Keys !! Vars(ps) {
        VarsPrefix(ps, j + 1);
        SearchStep(seed, ps[..j], ps[j], keys, combos, Vars(ps));
      }
      keys := newKeys;
    }
    assert ps[..|ps|] == ps;
  }

  /** `three_sat`: every returned key answers exactly the problem's names and
      satisfies every clause, and every such assignment is returned. */
  method ThreeSat(ps: Problem) returns (keys: seq<AnswerKey>)
    ensures forall k | k in keys :: k.Keys == Vars(ps) && AllSatisfied(ps, k)
    ensures forall a: AnswerKey | a.Keys == Vars(ps) && AllSatisfied(ps, a) :: a in keys
  {
    var none: AnswerKey := map[];
    keys := Search(none, ps);
    forall k | k in keys ensures k.Keys == Vars(ps) && AllSatisfied(ps, k) {
      assert Good(none, ps, k);
      assert none.Keys == {};
    }
    assert none.Keys !! Vars(ps);
    forall a: AnswerKey | a.Keys == Vars(ps) && AllSatisfied(ps, a) ensures a in keys {
      NoneMerged(a);
      assert none + a in keys;
    }
  }

  lemma NoneMerged(a: AnswerKey)
    ensures map[] + a == a
  {
    assert (map[] + a).Keys == a.Keys;
  }

  /** Seeded with no answers, the search returns nothing exactly when the
      problem has no solution. */
  lemma SearchEmptyIff(ps: Problem, keys: seq<AnswerKey>)
    requires forall a: AnswerKey | a.Keys == Vars(ps) && AllSatisfied(ps, a) :: a in keys
    requires forall k | k in keys :: AllSatisfied(ps, k)
    ensures keys == [] <==> !Satisfiable(ps)
  {
    if Satisfiable(ps) {
      var key :| AllSatisfied(ps, key);
      FillSatisfies(ps, key);
      assert Fill(key, Vars(ps)) in keys;
    }
    if keys != [] {
      assert AllSatisfied(ps, keys[0]);
    }
  }
}
