/** prime_util.py: the sieve `prime_list`, divisor enumeration from a list of
    prime factors (`divisors_from_prime_factors` with its recursive helper
    `_generate_divisors`) and trial-division `prime_factorization`. */
module PrimeUtil {
  import opened Wrappers
  import opened Arith

  // =================================================================== sieve

  /** The primes in [2, m), ascending. */
  function PrimesBelow(m: nat): seq<nat> {
    if m <= 2 then [] else PrimesBelow(m - 1) + (if IsPrime(m - 1) then [m - 1] else [])
  }

  predicate StrictlyIncreasing(s: seq<int>) {
    forall i, j | 0 <= i < j < |s| :: s[i] < s[j]
  }

  /** PrimesBelow(m) is exactly the ascending list of all primes below m. */
  lemma {:induction false} PrimesBelowSpec(m: nat)
    ensures AllPrime(PrimesBelow(m)) && StrictlyIncreasing(PrimesBelow(m))
    ensures forall i | 0 <= i < |PrimesBelow(m)| :: PrimesBelow(m)[i] < m
    ensures forall q :: q < m && IsPrime(q) <==> q in PrimesBelow(m)
  {
    if m > 2 {
      PrimesBelowSpec(m - 1);
      var prev := PrimesBelow(m - 1);
      var tail: seq<nat> := if IsPrime(m - 1) then [m - 1] else [];
      assert PrimesBelow(m) == prev + tail;
      forall q ensures q < m && IsPrime(q) <==> q in prev + tail {
        assert q in prev + tail <==> q in prev || q in tail;
      }
    }
  }

  lemma {:induction false} PrimesBelowPrefix(a: nat, b: nat)
    requires a <= b
    ensures PrimesBelow(a) <= PrimesBelow(b)
    decreases b - a
  {
    if a < b {
      PrimesBelowPrefix(a, b - 1);
    }
  }

  /** No element of `out` divides `j`. */
  predicate NoFactorIn(out: seq<nat>, j: nat) {
    forall q | q in out :: q == 0 || j % q != 0
  }

  lemma NoFactorInAppend(out: seq<nat>, p: nat, j: nat)
    requires p >= 1
    ensures NoFactorIn(out + [p], j) == (NoFactorIn(out, j) && j % p != 0)
  {
    assert p in out + [p];
    assert forall q | q in out :: q in out + [p];
  }

  /** Every n >= 2 with a divisor d >= 2 has a prime divisor no larger than d. */
  lemma {:induction false} PrimeFactorAtMost(n: nat, d: nat) returns (q: nat)
    requires 2 <= d && n % d == 0 && n > 0
    ensures IsPrime(q) && q <= d && n % q == 0
    decreases d
  {
    if IsPrime(d) {
      q := d;
    } else {
      var e :| 2 <= e < d && d % e == 0;
      DividesTransitive(e, d, n);
      q := PrimeFactorAtMost(n, e);
    }
  }

  /** When the sieve reaches p, its cell says exactly whether p is prime. */
  lemma SieveCellIsPrimality(p: nat)
    requires p >= 2
    ensures NoFactorIn(PrimesBelow(p), p) <==> IsPrime(p)
  {
    PrimesBelowSpec(p);
    if !IsPrime(p) {
      var d :| 2 <= d < p && p % d == 0;
      var q := PrimeFactorAtMost(p, d);
      assert q in PrimesBelow(p);
    }
  }

  /** Marked by the crossing-out loop of p once it has reached i. */
  predicate CrossedBy(j: int, p: int, i: int)
    requires p >= 1
  {
    p <= j < i && j % p == 0
  }

  lemma CrossStep(j: int, p: int, c: int)
    requires p >= 1 && c >= 1
    ensures CrossedBy(j, p, p * c + p) == (CrossedBy(j, p, p * c) || j == p * c)
  {
    var i := p * c;
    if i <= j < i + p && j % p == 0 {
      var a := j / p;
      assert j == p * a;
      assert j - i == p * (a - c);
      if a - c >= 1 {
        MulMonotone(p, a - c);
      } else if a - c <= -1 {
        MulMonotone(p, c - a);
      }
    }
    if j == i {
      ModOfMultiple(p, c);
      MulMonotone(p, c);
    }
  }

  /** The sieve's inner loop: cross out p, 2p, 3p, ... up to the end. */
  method CrossOutMultiples(sieve: array<bool>, p: nat)
    requires p >= 1
    modifies sieve
    ensures forall j | 0 <= j < sieve.Length :: sieve[j] == (old(sieve[j]) && !(p <= j && j % p == 0))
  {
    var i := p;
    ghost var c := 1;
    while i < sieve.Length
      invariant c >= 1 && i == p * c
      invariant forall j | 0 <= j < sieve.Length :: sieve[j] == (old(sieve[j]) && !CrossedBy(j, p, i))
    {
      forall j ensures CrossedBy(j, p, i + p) == (CrossedBy(j, p, i) || j == i) {
        CrossStep(j, p, c);
      }
      sieve[i] := false;
      i, c := i + p, c + 1;
    }
  }

  /** prime_list(n) with the sieve bound `max` given: the first n primes, all
      primes up to max when n is 0 (the early exit never fires), and
      MathIsBroken when fewer than n primes lie below max + 1. */
  method PrimeList(n: nat, max: nat) returns (r: Result<seq<nat>>)
    ensures n == 0 ==> r == Ok(PrimesBelow(max + 1))
    ensures 0 < n <= |PrimesBelow(max + 1)| ==> r == Ok(PrimesBelow(max + 1)[..n])
    ensures n > |PrimesBelow(max + 1)| ==> r == Err(MathIsBroken)
  {
    var out: seq<nat> := [];
    var sieve := new bool[max + 1](_ => true);
    var p := 2;
    while p <= max
      invariant 2 <= p && (p <= max + 1 || p == 2)
      invariant out == PrimesBelow(p)
      invariant n == 0 || |out| < n
      invariant forall j | p <= j <= max :: sieve[j] == NoFactorIn(out, j)
    {
      SieveCellIsPrimality(p);
      if sieve[p] {
        ghost var before := out;
        out := out + [p];
        assert out == PrimesBelow(p + 1);
        if |out| == n {
          PrimesBelowPrefix(p + 1, max + 1);
          assert PrimesBelow(max + 1)[..n] == out;
          return Ok(out);
        }
        label crossing:
        CrossOutMultiples(sieve, p);
        forall j | p < j <= max ensures sieve[j] == NoFactorIn(out, j) {
          assert sieve[j] == (old@crossing(sieve[j]) && j % p != 0);
          NoFactorInAppend(before, p, j);
        }
      }
      p := p + 1;
    }
    assert out == PrimesBelow(max + 1);
    if |out| < n {
      return Err(MathIsBroken);
    }
    return Ok(out);
  }

  /** What an Ok result of PrimeList promises: n strictly increasing primes with
      no prime skipped below the largest of them. */
  lemma FirstPrimes(n: nat, max: nat)
    requires 0 < n <= |PrimesBelow(max + 1)|
    ensures var s := PrimesBelow(max + 1)[..n];
      |s| == n && AllPrime(s) && StrictlyIncreasing(s) &&
      forall q :: IsPrime(q) && q <= s[n - 1] ==> q in s
  {
    var all := PrimesBelow(max + 1);
    PrimesBelowSpec(max + 1);
    var s := all[..n];
    forall q | IsPrime(q) && q <= s[n - 1] ensures q in s {
      assert q in all;
      var i :| 0 <= i < |all| && all[i] == q;
      assert all[i] <= all[n - 1];
      assert i < n;
    }
  }

  // ============================================================ prime counts

  /** The ordered dict `m_prime_counts` after counting one more `x`: an existing
      key has its count raised in place; a new key goes to the end. */
  function Bump(pc: seq<(int, nat)>, x: int): seq<(int, nat)> {
    if pc == [] then [(x, 1)]
    else if pc[0].0 == x then [(x, pc[0].1 + 1)] + pc[1..]
    else [pc[0]] + Bump(pc[1..], x)
  }

  /** The dict's items() after counting every element of `s` in order. */
  function Tally(s: seq<int>): seq<(int, nat)> {
    if s == [] then [] else Bump(Tally(s[..|s| - 1]), s[|s| - 1])
  }

  function Keys(pc: seq<(int, nat)>): seq<int> {
    seq(|pc|, i requires 0 <= i < |pc| => pc[i].0)
  }

  method PrimeCounts(factors: seq<int>) returns (pc: seq<(int, nat)>)
    ensures pc == Tally(factors)
  {
    pc := [];
    var i := 0;
    while i < |factors|
      invariant 0 <= i <= |factors|
      invariant pc == Tally(factors[..i])
    {
      assert factors[..i + 1][..i] == factors[..i];
      pc := Bump(pc, factors[i]);
      i := i + 1;
    }
    assert factors[..|factors|] == factors;
  }

  lemma {:induction false} BumpKeys(pc: seq<(int, nat)>, x: int)
    ensures Keys(Bump(pc, x)) == if x in Keys(pc) then Keys(pc) else Keys(pc) + [x]
    ensures forall y :: Count(Bump(pc, x), y) == Count(pc, y) + (if y == x then 1 else 0)
  {
    if pc != [] {
      BumpKeys(pc[1..], x);
      assert Keys(pc) == [pc[0].0] + Keys(pc[1..]);
      if pc[0].0 == x {
        assert Keys(Bump(pc, x)) == [x] + Keys(pc[1..]);
      } else {
        assert Keys(Bump(pc, x)) == [pc[0].0] + Keys(Bump(pc[1..], x));
      }
    }
  }

  /** The count recorded for key y (0 when y is not a key). */
  function Count(pc: seq<(int, nat)>, y: int): nat {
    if pc == [] then 0 else (if pc[0].0 == y then pc[0].1 else 0) + Count(pc[1..], y)
  }

  /** The counted keys are the factors' distinct values in order of first
      appearance, and each value's count is its multiplicity. */
  lemma {:induction false} TallySpec(s: seq<int>)
    ensures Keys(Tally(s)) == Dedup(s)
    ensures forall y :: Count(Tally(s), y) == multiset(s)[y]
  {
    if s != [] {
      var init, x := s[..|s| - 1], s[|s| - 1];
      assert s == init + [x];
      TallySpec(init);
      BumpKeys(Tally(init), x);
      DedupSpec(init);
    }
  }

  /** Counting distinct values gives each value once with count 1, in order. */
  lemma {:induction false} TallyDistinct(s: seq<int>)
    requires Distinct(s)
    ensures |Tally(s)| == |s| && forall i | 0 <= i < |s| :: Tally(s)[i] == (s[i], 1)
  {
    if s != [] {
      var init, x := s[..|s| - 1], s[|s| - 1];
      TallyDistinct(init);
      BumpNew(Tally(init), x);
    }
  }

  lemma {:induction false} BumpNew(pc: seq<(int, nat)>, x: int)
    requires forall i | 0 <= i < |pc| :: pc[i].0 != x
    ensures Bump(pc, x) == pc + [(x, 1)]
  {
    if pc != [] {
      BumpNew(pc[1..], x);
    }
  }

  /** Counting more values only appends keys: the keys of a prefix's count
      come first, in the same order. */
  lemma TallyKeysPrefix(a: seq<int>, b: seq<int>)
    ensures Keys(Tally(a)) <= Keys(Tally(a + b))
  {
    TallySpec(a);
    TallySpec(a + b);
    DedupPrefix(a, b);
  }

  lemma {:induction false} DedupPrefix<T>(a: seq<T>, b: seq<T>)
    ensures Dedup(a) <= Dedup(a + b)
  {
    if b != [] {
      var init := b[..|b| - 1];
      DedupPrefix(a, init);
      assert (a + b)[..|a + b| - 1] == a + init;
    } else {
      assert a + b == a;
    }
  }

  /** With distinct keys an entry's count is the count recorded for its key,
      and only keys have a positive count. */
  lemma {:induction false} CountEntry(pc: seq<(int, nat)>, y: int)
    requires Distinct(Keys(pc))
    ensures forall i | 0 <= i < |pc| && pc[i].0 == y :: pc[i].1 == Count(pc, y)
    ensures Count(pc, y) > 0 ==> y in Keys(pc)
  {
    if pc != [] {
      assert Keys(pc) == [pc[0].0] + Keys(pc[1..]);
      assert Distinct(Keys(pc[1..])) by {
        forall i, j | 0 <= i < j < |pc| - 1 ensures Keys(pc[1..])[i] != Keys(pc[1..])[j] {
          assert Keys(pc)[i + 1] != Keys(pc)[j + 1];
        }
      }
      CountEntry(pc[1..], y);
      if pc[0].0 == y {
        forall j | 0 <= j < |pc| - 1 ensures Keys(pc[1..])[j] != y {
          assert Keys(pc)[j + 1] != Keys(pc)[0];
        }
        CountAbsent(pc[1..], y);
        forall i | 0 < i < |pc| ensures pc[i].0 != y {
          assert Keys(pc)[i] != Keys(pc)[0];
        }
      }
    }
  }

  lemma {:induction false} CountAbsent(pc: seq<(int, nat)>, y: int)
    requires y !in Keys(pc)
    ensures Count(pc, y) == 0
  {
    if pc != [] {
      assert Keys(pc) == [pc[0].0] + Keys(pc[1..]);
      CountAbsent(pc[1..], y);
    }
  }

  // =============================================================== divisors

  /** What `_generate_divisors(index, divisor, prime_counts)` returns, with
      `pc` the suffix prime_counts[index..]. */
  function Divs(pc: seq<(int, nat)>, d: int): seq<int>
    decreases |pc|, 1, 0
  {
    if pc == [] then [d] else Blocks(pc[1..], pc[0].0, d, pc[0].1 + 1)
  }

  /** The first m passes of the helper's loop: the divisors of `rest` scaled by
      d, d*p, ..., d*p^(m-1), concatenated. */
  function Blocks(rest: seq<(int, nat)>, p: int, d: int, m: nat): seq<int>
    decreases |rest| + 1, 0, m
  {
    if m == 0 then [] else Blocks(rest, p, d, m - 1) + Divs(rest, d * Pow(p, m - 1))
  }

  /** `_generate_divisors`: a recursive call per power of the current prime,
      the running divisor multiplied by the prime after each pass. */
  method GenerateDivisors(index: nat, divisor: int, pc: seq<(int, nat)>) returns (divisors: seq<int>)
    requires index <= |pc|
    ensures divisors == Divs(pc[index..], divisor)
    decreases |pc| - index
  {
    if index == |pc| {
      return [divisor];
    }
    divisors := [];
    var d := divisor;
    var t := 0;
    while t < pc[index].1 + 1
      invariant 0 <= t <= pc[index].1 + 1
      invariant d == divisor * Pow(pc[index].0, t)
      invariant divisors == Blocks(pc[index + 1..], pc[index].0, divisor, t)
    {
      var sub := GenerateDivisors(index + 1, d, pc);
      divisors := divisors + sub;
      MulAssoc(divisor, Pow(pc[index].0, t), pc[index].0);
      d := d * pc[index].0;
      t := t + 1;
    }
    assert pc[index..][1..] == pc[index + 1..];
  }

  /** The number a prime-count list stands for: the product of p^e. */
  function PowProd(pc: seq<(int, nat)>): int {
    if pc == [] then 1 else Pow(pc[0].0, pc[0].1) * PowProd(pc[1..])
  }

  /** prod(e + 1) over the list: the divisor count of PowProd(pc). */
  function NumDivisors(pc: seq<(int, nat)>): nat {
    if pc == [] then 1 else (pc[0].1 + 1) * NumDivisors(pc[1..])
  }

  /** The keys are distinct primes, as they are for a prime factorization. */
  predicate PrimeKeys(pc: seq<(int, nat)>) {
    Distinct(Keys(pc)) && AllPrime(Keys(pc))
  }

  lemma KeysCons(pc: seq<(int, nat)>)
    requires pc != []
    ensures Keys(pc) == [pc[0].0] + Keys(pc[1..])
  {
  }

  lemma PrimeKeysTail(pc: seq<(int, nat)>)
    requires PrimeKeys(pc) && pc != []
    ensures PrimeKeys(pc[1..]) && IsPrime(pc[0].0) && pc[0].0 !in Keys(pc[1..])
  {
    assert Keys(pc) == [pc[0].0] + Keys(pc[1..]);
    HeadNotInTail(Keys(pc));
    assert Keys(pc)[1..] == Keys(pc[1..]);
  }

  lemma {:induction false} PowProdPositive(pc: seq<(int, nat)>)
    requires forall i | 0 <= i < |pc| :: pc[i].0 > 0
    ensures PowProd(pc) > 0
  {
    if pc != [] {
      PowPositive(pc[0].0, pc[0].1);
      PowProdPositive(pc[1..]);
    }
  }

  lemma PrimeKeysPositive(pc: seq<(int, nat)>)
    requires PrimeKeys(pc)
    ensures forall i | 0 <= i < |pc| :: pc[i].0 > 0
  {
    forall i | 0 <= i < |pc| ensures pc[i].0 > 0 {
      assert Keys(pc)[i] == pc[i].0;
    }
  }

  /** A prime that is not a key does not divide the number the list stands for. */
  lemma {:induction false} PrimeNotKey(p: nat, pc: seq<(int, nat)>)
    requires IsPrime(p) && PrimeKeys(pc) && p !in Keys(pc)
    ensures !Divides(p, PowProd(pc))
  {
    if pc == [] {
      if Divides(p, 1) {
        DivisorBounded(p, 1);
      }
    } else {
      PrimeKeysTail(pc);
      PrimeKeysPositive(pc[1..]);
      PowProdPositive(pc[1..]);
      var q := pc[0].0;
      PowPositive(q, pc[0].1);
      KeysCons(pc);
      if Divides(p, PowProd(pc)) {
        EuclidLemma(p, Pow(q, pc[0].1), PowProd(pc[1..]));
        if Divides(p, Pow(q, pc[0].1)) {
          PrimeDividesPow(p, q, pc[0].1);
        } else {
          PrimeNotKey(p, pc[1..]);
        }
      }
    }
  }

  /** The helper returns prod(e + 1) divisors. */
  lemma {:induction false} DivsLength(pc: seq<(int, nat)>, d: int)
    ensures |Divs(pc, d)| == NumDivisors(pc)
    decreases |pc|, 1, 0
  {
    if pc != [] {
      BlocksLength(pc[1..], pc[0].0, d, pc[0].1 + 1);
    }
  }

  lemma {:induction false} BlocksLength(rest: seq<(int, nat)>, p: int, d: int, m: nat)
    ensures |Blocks(rest, p, d, m)| == m * NumDivisors(rest)
    decreases |rest| + 1, 0, m
  {
    if m > 0 {
      BlocksLength(rest, p, d, m - 1);
      DivsLength(rest, d * Pow(p, m - 1));
    }
  }

  /** Each element of the m passes comes from the pass of some power t < m ... */
  lemma {:induction false} BlockOf(rest: seq<(int, nat)>, p: int, d: int, m: nat, x: int) returns (t: nat)
    requires x in Blocks(rest, p, d, m)
    ensures t < m && x in Divs(rest, d * Pow(p, t))
  {
    assert Blocks(rest, p, d, m) == Blocks(rest, p, d, m - 1) + Divs(rest, d * Pow(p, m - 1));
    if x in Divs(rest, d * Pow(p, m - 1)) {
      t := m - 1;
    } else {
      t := BlockOf(rest, p, d, m - 1, x);
    }
  }

  /** ... and every pass t < m is part of them. */
  lemma {:induction false} BlockIncluded(rest: seq<(int, nat)>, p: int, d: int, m: nat, t: nat, x: int)
    requires t < m && x in Divs(rest, d * Pow(p, t))
    ensures x in Blocks(rest, p, d, m)
  {
    assert Blocks(rest, p, d, m) == Blocks(rest, p, d, m - 1) + Divs(rest, d * Pow(p, m - 1));
    if t < m - 1 {
      BlockIncluded(rest, p, d, m - 1, t, x);
    }
  }

  /** The enumeration starts with the starting divisor itself. */
  lemma {:induction false} DivsHead(pc: seq<(int, nat)>, d: int)
    ensures |Divs(pc, d)| > 0 && Divs(pc, d)[0] == d
    decreases |pc|
  {
    if pc != [] {
      var p, rest := pc[0].0, pc[1..];
      BlocksPrefix(rest, p, d, pc[0].1 + 1);
      DivsHead(rest, d);
      assert d * Pow(p, 0) == d;
    }
  }

  /** The first pass (power 0) comes first. */
  lemma {:induction false} BlocksPrefix(rest: seq<(int, nat)>, p: int, d: int, m: nat)
    requires m >= 1
    ensures Divs(rest, d * Pow(p, 0)) <= Blocks(rest, p, d, m)
  {
    if m > 1 {
      BlocksPrefix(rest, p, d, m - 1);
    } else {
      assert Blocks(rest, p, d, 0) == [];
    }
  }

  /** Every listed value is a multiple of the starting divisor d and divides
      d times the number the list stands for. */
  lemma {:induction false} DivsSound(pc: seq<(int, nat)>, d: int)
    requires d > 0 && forall i | 0 <= i < |pc| :: pc[i].0 > 0
    ensures forall x | x in Divs(pc, d) :: Divides(d, x) && Divides(x, d * PowProd(pc))
    decreases |pc|
  {
    if pc == [] {
      DividesMultiple(d, 1);
    } else {
      var p, e, rest := pc[0].0, pc[0].1, pc[1..];
      var R := PowProd(rest);
      PowProdPositive(rest);
      assert Divs(pc, d) == Blocks(rest, p, d, e + 1);
      forall x | x in Divs(pc, d) ensures Divides(d, x) && Divides(x, d * PowProd(pc)) {
        var t := BlockOf(rest, p, d, e + 1, x);
        PowPositive(p, t);
        PowPositive(p, e - t);
        DivsSound(rest, d * Pow(p, t));
        DividesMultiple(d, Pow(p, t));
        DividesTransitive(d, d * Pow(p, t), x);
        PowAdd(p, t, e - t);
        calc {
          d * PowProd(pc);
          d * (Pow(p, t) * Pow(p, e - t) * R);
          { MulAssoc(d, Pow(p, t), Pow(p, e - t) * R); MulAssoc(Pow(p, t), Pow(p, e - t), R); }
          (d * Pow(p, t)) * (Pow(p, e - t) * R);
        }
        MulAssoc(d * Pow(p, t), R, Pow(p, e - t));
        assert (d * Pow(p, t)) * (Pow(p, e - t) * R) == (d * Pow(p, t) * R) * Pow(p, e - t);
        DividesFactor(x, d * Pow(p, t) * R, Pow(p, e - t));
      }
    }
  }

  /** A divisor of p^e * R is p^a * y with a <= e and y dividing R. */
  lemma {:induction false} PrimePowerSplit(p: nat, e: nat, R: int, x: int) returns (a: nat, y: int)
    requires IsPrime(p) && Divides(x, Pow(p, e) * R)
    ensures a <= e && x == Pow(p, a) * y && Divides(y, R)
  {
    if e == 0 {
      a, y := 0, x;
    } else if Divides(p, x) {
      var x' := DividesWitness(p, x);
      var z := DividesWitness(x, Pow(p, e) * R);
      MulAssoc(p, Pow(p, e - 1), R);
      MulAssoc(p, x', z);
      MulCancel(p, Pow(p, e - 1) * R, x' * z);
      assert x' > 0;
      DividesMultiple(x', z);
      var a', y' := PrimePowerSplit(p, e - 1, R, x');
      MulAssoc(p, Pow(p, a'), y');
      a, y := a' + 1, y';
    } else {
      MulAssoc(p, Pow(p, e - 1), R);
      CoprimeDivides(p, x, Pow(p, e - 1) * R);
      a, y := PrimePowerSplit(p, e - 1, R, x);
    }
  }

  /** Every divisor of the number the list stands for is listed (scaled by d). */
  lemma {:induction false} DivsComplete(pc: seq<(int, nat)>, d: int)
    requires d > 0 && PrimeKeys(pc)
    ensures forall x | Divides(x, PowProd(pc)) :: d * x in Divs(pc, d)
    decreases |pc|
  {
    if pc == [] {
      forall x | Divides(x, PowProd(pc)) ensures d * x in Divs(pc, d) {
        DivisorBounded(x, 1);
      }
    } else {
      var p, e, rest := pc[0].0, pc[0].1, pc[1..];
      PrimeKeysTail(pc);
      assert Divs(pc, d) == Blocks(rest, p, d, e + 1);
      forall x | Divides(x, PowProd(pc)) ensures d * x in Divs(pc, d) {
        var a, y := PrimePowerSplit(p, e, PowProd(rest), x);
        PowPositive(p, a);
        DivsComplete(rest, d * Pow(p, a));
        MulAssoc(d, Pow(p, a), y);
        BlockIncluded(rest, p, d, e + 1, a, d * x);
      }
    }
  }

  /** Passes for different powers of p produce disjoint values. */
  lemma PowerLayersDisjoint(rest: seq<(int, nat)>, p: nat, d: int, t: nat, s: nat, x: int)
    requires d > 0 && IsPrime(p) && PrimeKeys(rest) && p !in Keys(rest) && t < s
    requires x in Divs(rest, d * Pow(p, t))
    ensures x !in Divs(rest, d * Pow(p, s))
  {
    PrimeKeysPositive(rest);
    var R := PowProd(rest);
    PowPositive(p, t);
    PowPositive(p, s);
    var A, k := d * Pow(p, t), Pow(p, s - t);
    DivsSound(rest, A);
    var y := DividesWitness(A, x);
    var z := DividesWitness(x, A * R);
    MulAssoc(A, y, z);
    MulCancel(A, R, y * z);
    if x in Divs(rest, d * Pow(p, s)) {
      DivsSound(rest, d * Pow(p, s));
      PowAdd(p, t, s - t);
      MulAssoc(d, Pow(p, t), k);
      var w := DividesWitness(A * k, x);
      MulAssoc(A, k, w);
      MulCancel(A, y, k * w);
      MulAssoc(p, Pow(p, s - t - 1), w);
      DividesMultiple(p, Pow(p, s - t - 1) * w);
      DividesFactor(p, y, z);
      PrimeNotKey(p, rest);
    }
  }

  /** With distinct prime keys and d > 0 no value is listed twice. */
  lemma {:induction false} DivsDistinct(pc: seq<(int, nat)>, d: int)
    requires d > 0 && PrimeKeys(pc)
    ensures Distinct(Divs(pc, d))
    decreases |pc|, 1, 0
  {
    if pc != [] {
      PrimeKeysTail(pc);
      BlocksDistinct(pc[1..], pc[0].0, d, pc[0].1 + 1);
    }
  }

  lemma {:induction false} BlocksDistinct(rest: seq<(int, nat)>, p: nat, d: int, m: nat)
    requires d > 0 && IsPrime(p) && PrimeKeys(rest) && p !in Keys(rest)
    ensures Distinct(Blocks(rest, p, d, m))
    decreases |rest| + 1, 0, m
  {
    if m > 0 {
      BlocksDistinct(rest, p, d, m - 1);
      PowPositive(p, m - 1);
      DivsDistinct(rest, d * Pow(p, m - 1));
      var earlier, last := Blocks(rest, p, d, m - 1), Divs(rest, d * Pow(p, m - 1));
      forall i | 0 <= i < |earlier| ensures earlier[i] !in last {
        var t := BlockOf(rest, p, d, m - 1, earlier[i]);
        PowerLayersDisjoint(rest, p, d, t, m - 1, earlier[i]);
      }
      DistinctConcat(earlier, last);
    }
  }

  lemma {:induction false} PowProdBump(pc: seq<(int, nat)>, x: int)
    ensures PowProd(Bump(pc, x)) == PowProd(pc) * x
  {
    if pc == [] {
      assert Pow(x, 1) == x;
      assert [(x, 1)][1..] == [];
    } else if pc[0].0 == x {
      assert Bump(pc, x)[1..] == pc[1..];
      MulAssoc(x, Pow(x, pc[0].1), PowProd(pc[1..]));
    } else {
      assert Bump(pc, x)[1..] == Bump(pc[1..], x);
      PowProdBump(pc[1..], x);
      MulAssoc(Pow(pc[0].0, pc[0].1), PowProd(pc[1..]), x);
    }
  }

  /** The counted factors still multiply to the same number. */
  lemma {:induction false} PowProdTally(s: seq<int>)
    ensures PowProd(Tally(s)) == Prod(s)
  {
    if s != [] {
      var init, x := s[..|s| - 1], s[|s| - 1];
      assert s == init + [x];
      PowProdTally(init);
      PowProdBump(Tally(init), x);
      ProdAppend(init, [x]);
    }
  }

  /** Counting a list of primes gives distinct prime keys. */
  lemma TallyPrimeKeys(s: seq<int>)
    requires AllPrime(s)
    ensures PrimeKeys(Tally(s))
  {
    TallySpec(s);
    DedupSpec(s);
    forall i | 0 <= i < |Dedup(s)| ensures IsPrime(Dedup(s)[i]) {
      assert Dedup(s)[i] in Dedup(s);
      var j :| 0 <= j < |s| && s[j] == Dedup(s)[i];
    }
  }

  /** divisors_from_prime_factors: count the factors into ordered (prime,
      count) pairs, then enumerate. For a list of primes the result lists
      every divisor of their product exactly once, prod(count + 1) of them. */
  method DivisorsFromPrimeFactors(factors: seq<int>) returns (divisors: seq<int>)
    ensures divisors == Divs(Tally(factors), 1)
    ensures |divisors| == NumDivisors(Tally(factors)) && |divisors| > 0 && divisors[0] == 1
    ensures AllPrime(factors) ==>
      Distinct(divisors) &&
      (forall x | x in divisors :: Divides(x, Prod(factors))) &&
      (forall x | Divides(x, Prod(factors)) :: x in divisors) &&
      Prod(factors) in divisors
  {
    var pc := PrimeCounts(factors);
    divisors := GenerateDivisors(0, 1, pc);
    DivsLength(pc, 1);
    DivsHead(pc, 1);
    if AllPrime(factors) {
      DivisorsOfPrimes(factors);
      PrimeProdPositive(factors);
      DividesMultiple(Prod(factors), 1);
    }
  }

  /** For a list of primes the enumeration lists each divisor of their
      product, and only those, exactly once. */
  lemma DivisorsOfPrimes(factors: seq<int>)
    requires AllPrime(factors)
    ensures Distinct(Divs(Tally(factors), 1))
    ensures forall x :: x in Divs(Tally(factors), 1) <==> Divides(x, Prod(factors))
  {
    var pc := Tally(factors);
    TallyPrimeKeys(factors);
    PowProdTally(factors);
    PrimeKeysPositive(pc);
    DivsSound(pc, 1);
    DivsComplete(pc, 1);
    DivsDistinct(pc, 1);
    forall x | Divides(x, Prod(factors)) ensures x in Divs(pc, 1) {
      assert 1 * x == x;
    }
  }

  // ========================================================= factorization

  predicate NonDecreasing(s: seq<int>) {
    forall i, j | 0 <= i < j < |s| :: s[i] <= s[j]
  }

  /** A divisor of n that no smaller number >= 2 divides is prime. */
  lemma SmallestFactorPrime(n: int, i: int)
    requires i >= 2 && n > 0 && n % i == 0
    requires forall d | 2 <= d < i :: n % d != 0
    ensures IsPrime(i)
  {
    forall d | 2 <= d < i ensures i % d != 0 {
      if i % d == 0 {
        DividesTransitive(d, i, n);
      }
    }
  }

  /** One division step keeps the product and the "no small factor" fact. */
  lemma DivideOut(factors: seq<int>, n: int, i: int, q: int)
    requires 2 <= i && 1 <= n && n % i == 0 && q == n / i
    requires forall d | 2 <= d < i :: n % d != 0
    ensures 1 <= q < n && Prod(factors + [i]) * q == Prod(factors) * n
    ensures forall d | 2 <= d < i :: q % d != 0
  {
    var w := DividesWitness(i, n);
    assert w != 0;
    MulCancel(i, q, w);
    forall d | 2 <= d < i ensures q % d != 0 {
      if q % d == 0 {
        DividesFactor(d, q, i);
      }
    }
    ProdAppend(factors, [i]);
    MulAssoc(Prod(factors), i, q);
    MulMonotone(q, i - 1);
    assert n == q * (i - 1) + q;
  }

  /** prime_factorization: trial division by i = 2, 3, ..., dividing each
      found factor out as often as it goes. */
  method PrimeFactorization(num: int) returns (factors: seq<int>)
    ensures num <= 1 ==> factors == []
    ensures num >= 1 ==> Prod(factors) == num
    ensures AllPrime(factors) && NonDecreasing(factors)
    ensures forall s | AllPrime(s) && NonDecreasing(s) && Prod(s) == num :: s == factors
  {
    factors := [];
    var n, i := num, 2;
    while n >= i
      invariant i >= 2
      invariant Prod(factors) * n == num
      invariant num <= 1 ==> factors == [] && n == num
      invariant num >= 1 ==> n >= 1
      invariant AllPrime(factors) && NonDecreasing(factors)
      invariant forall k | 0 <= k < |factors| :: factors[k] < i
      invariant forall d | 2 <= d < i :: n % d != 0
      decreases n - i
    {
      while n % i == 0
        invariant 1 <= n && Prod(factors) * n == num
        invariant AllPrime(factors) && NonDecreasing(factors)
        invariant forall k | 0 <= k < |factors| :: factors[k] <= i
        invariant forall d | 2 <= d < i :: n % d != 0
        decreases n
      {
        SmallestFactorPrime(n, i);
        var q := n / i;
        DivideOut(factors, n, i, q);
        factors, n := factors + [i], q;
      }
      i := i + 1;
    }
    if num >= 1 && n >= 2 {
      var q := PrimeFactorAtMost(n, n);
      assert false;
    }
    forall s | AllPrime(s) && NonDecreasing(s) && Prod(s) == num ensures s == factors {
      PrimeProdPositive(s);
      FactorizationUnique(s, factors);
    }
  }

  /** Two nondecreasing lists of primes with the same product are equal: the
      factorization is the only one there is. */
  lemma {:induction false} FactorizationUnique(s: seq<int>, t: seq<int>)
    requires AllPrime(s) && NonDecreasing(s) && AllPrime(t) && NonDecreasing(t)
    requires Prod(s) == Prod(t)
    ensures s == t
  {
    if s == [] || t == [] {
      if s != [] {
        PrimeProdAtLeastTwo(s);
      } else if t != [] {
        PrimeProdAtLeastTwo(t);
      }
    } else {
      PrimeProdPositive(s[1..]);
      PrimeProdPositive(t[1..]);
      DividesMultiple(s[0], Prod(s[1..]));
      DividesMultiple(t[0], Prod(t[1..]));
      PrimeDividesProdOfPrimes(s[0], t);
      PrimeDividesProdOfPrimes(t[0], s);
      var i :| 0 <= i < |t| && t[i] == s[0];
      var j :| 0 <= j < |s| && s[j] == t[0];
      assert s[0] == t[0];
      MulCancel(s[0], Prod(s[1..]), Prod(t[1..]));
      FactorizationUnique(s[1..], t[1..]);
      assert s == [s[0]] + s[1..] && t == [t[0]] + t[1..];
    }
  }

  lemma {:induction false} PrimeProdPositive(s: seq<int>)
    requires AllPrime(s)
    ensures Prod(s) >= 1
  {
    assert forall i | 0 <= i < |s| :: s[i] > 0;
  }

  lemma PrimeProdAtLeastTwo(s: seq<int>)
    requires AllPrime(s) && s != []
    ensures Prod(s) >= 2
  {
    PrimeProdPositive(s[1..]);
    MulMonotone(s[0], Prod(s[1..]));
  }
}
