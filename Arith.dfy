/** Products, divisibility and primes over unbounded integers: the arithmetic
    that the prime utilities and the prime-encoding clique finder rest on,
    with two list helpers (distinct elements, first-appearance order). */
module Arith {

  /** Python's math.prod over a list of integers (1 for the empty list). */
  function Prod(s: seq<int>): (r: int)
    ensures (forall i | 0 <= i < |s| :: s[i] >= 0) ==> r >= 0
    ensures (forall i | 0 <= i < |s| :: s[i] > 0) ==> r > 0
  {
    if s == [] then 1 else s[0] * Prod(s[1..])
  }

  function Pow(b: int, e: nat): int {
    if e == 0 then 1 else b * Pow(b, e - 1)
  }

  /** `d` is a positive divisor of `n`: Python's `n % d == 0` with d > 0. */
  predicate Divides(d: int, n: int) {
    d > 0 && n % d == 0
  }

  predicate IsPrime(n: int) {
    n >= 2 && forall d :: 2 <= d < n ==> n % d != 0
  }

  predicate AllPrime(s: seq<int>) {
    forall i | 0 <= i < |s| :: IsPrime(s[i])
  }

  predicate Distinct<T(==)>(s: seq<T>) {
    forall i, j | 0 <= i < j < |s| :: s[i] != s[j]
  }

  /** The position of x in s. */
  function IndexOf(s: seq<int>, x: int): (i: nat)
    requires x in s
    ensures i < |s| && s[i] == x
  {
    if s[0] == x then 0 else 1 + IndexOf(s[1..], x)
  }

  /** The distinct elements of `s` in order of first appearance. */
  function Dedup<T(==)>(s: seq<T>): seq<T> {
    if s == [] then []
    else if s[|s| - 1] in s[..|s| - 1] then Dedup(s[..|s| - 1])
    else Dedup(s[..|s| - 1]) + [s[|s| - 1]]
  }

  lemma {:induction false} DedupSpec<T>(s: seq<T>)
    ensures forall x :: x in Dedup(s) <==> x in s
    ensures Distinct(Dedup(s))
  {
    if s != [] {
      DedupSpec(s[..|s| - 1]);
      assert s == s[..|s| - 1] + [s[|s| - 1]];
    }
  }

  lemma HeadNotInTail<T>(s: seq<T>)
    requires Distinct(s) && |s| > 0
    ensures s[0] !in s[1..]
  {
  }

  // ---------------------------------------------------------------- products

  lemma {:induction false} ProdAppend(a: seq<int>, b: seq<int>)
    ensures Prod(a + b) == Prod(a) * Prod(b)
  {
    if a == [] {
      assert a + b == b;
    } else {
      assert (a + b)[1..] == a[1..] + b;
      ProdAppend(a[1..], b);
      calc {
        Prod(a + b);
        a[0] * Prod(a[1..] + b);
        a[0] * (Prod(a[1..]) * Prod(b));
        { MulAssoc(a[0], Prod(a[1..]), Prod(b)); }
        (a[0] * Prod(a[1..])) * Prod(b);
      }
    }
  }

  lemma MulAssoc(x: int, y: int, z: int)
    ensures x * (y * z) == (x * y) * z
  {}

  /** Removing the element at `i` divides it out of the product. */
  lemma {:induction false} ProdRemove(s: seq<int>, i: int)
    requires 0 <= i < |s|
    ensures Prod(s) == s[i] * Prod(s[..i] + s[i + 1..])
  {
    assert s == s[..i] + ([s[i]] + s[i + 1..]);
    ProdAppend(s[..i], [s[i]] + s[i + 1..]);
    ProdAppend(s[..i], s[i + 1..]);
    assert Prod([s[i]] + s[i + 1..]) == s[i] * Prod(s[i + 1..]) by {
      assert ([s[i]] + s[i + 1..])[1..] == s[i + 1..];
    }
    MulAssoc(Prod(s[..i]), s[i], Prod(s[i + 1..]));
    MulAssoc(s[i], Prod(s[..i]), Prod(s[i + 1..]));
  }

  /** The product depends only on the multiset of factors. */
  lemma {:induction false} ProdPermutation(a: seq<int>, b: seq<int>)
    requires multiset(a) == multiset(b)
    ensures Prod(a) == Prod(b)
    decreases |a|
  {
    if a == [] {
      assert |b| == |multiset(b)| == 0;
    } else {
      var j := MatchHead(a, b);
      ProdPermutation(a[1..], b[..j] + b[j + 1..]);
      ProdRemove(b, j);
    }
  }

  /** The first element of `a` sits somewhere in a permutation `b` of it, and
      the rests are permutations of each other. */
  lemma MatchHead(a: seq<int>, b: seq<int>) returns (j: nat)
    requires a != [] && multiset(a) == multiset(b)
    ensures j < |b| && b[j] == a[0] && multiset(a[1..]) == multiset(b[..j] + b[j + 1..])
  {
    assert a[0] in multiset(b);
    j :| 0 <= j < |b| && b[j] == a[0];
    assert a == [a[0]] + a[1..];
    assert b == b[..j] + [b[j]] + b[j + 1..];
    assert multiset(a[1..]) == multiset(a) - multiset{a[0]};
    assert multiset(b[..j] + b[j + 1..]) == multiset(b) - multiset{b[j]};
  }

  // ------------------------------------------------------------ divisibility

  lemma ModOfMultiple(d: int, q: int)
    requires d > 0
    ensures (d * q) % d == 0
  {
    var r := (d * q) % d;
    var t := (d * q) / d;
    assert d * q == d * t + r;
    assert r == d * (q - t);
    if q - t >= 1 {
      MulMonotone(d, q - t);
    } else if q - t <= -1 {
      MulMonotone(d, t - q);
    }
  }

  lemma MulMonotone(d: int, m: int)
    requires d > 0 && m >= 1
    ensures d * m >= d
  {}

  lemma DividesMultiple(d: int, q: int)
    requires d > 0
    ensures Divides(d, d * q) && Divides(d, q * d)
  {
    ModOfMultiple(d, q);
  }

  lemma DividesWitness(d: int, n: int) returns (q: int)
    requires Divides(d, n)
    ensures n == d * q
    ensures n >= 0 ==> q >= 0
  {
    q := n / d;
    if n >= 0 && q < 0 {
      MulMonotone(d, -q);
    }
  }

  lemma DividesTransitive(a: int, b: int, c: int)
    requires Divides(a, b) && Divides(b, c)
    ensures Divides(a, c)
  {
    var q1 := DividesWitness(a, b);
    var q2 := DividesWitness(b, c);
    MulAssoc(a, q1, q2);
    DividesMultiple(a, q1 * q2);
  }

  /** A divisor of `x` divides every multiple of `x`. */
  lemma DividesFactor(d: int, x: int, y: int)
    requires Divides(d, x)
    ensures Divides(d, x * y)
  {
    var q := DividesWitness(d, x);
    MulAssoc(d, q, y);
    DividesMultiple(d, q * y);
  }

  lemma DividesLinear(d: int, x: int, y: int, c: int)
    requires Divides(d, x) && Divides(d, y)
    ensures Divides(d, x * c + y)
  {
    var qx := DividesWitness(d, x);
    var qy := DividesWitness(d, y);
    MulAssoc(d, qx, c);
    assert x * c + y == d * (qx * c + qy);
    DividesMultiple(d, qx * c + qy);
  }

  lemma DivisorBounded(d: int, n: int)
    requires Divides(d, n) && n > 0
    ensures d <= n
  {
    var q := DividesWitness(d, n);
    assert q != 0;
    MulMonotone(d, q);
  }

  /** Cancelling a positive common factor. */
  lemma MulCancel(c: int, x: int, y: int)
    requires c > 0 && c * x == c * y
    ensures x == y
  {
    if x < y {
      MulMonotone(c, y - x);
    } else if y < x {
      MulMonotone(c, x - y);
    }
  }

  // -------------------------------------------------------------------- gcd

  function Gcd(a: nat, b: nat): nat
    decreases b
  {
    if b == 0 then a else Gcd(b, a % b)
  }

  lemma {:induction false} GcdDivides(a: nat, b: nat)
    requires a > 0 || b > 0
    ensures Divides(Gcd(a, b), a) && Divides(Gcd(a, b), b)
    decreases b
  {
    if b == 0 {
      DividesMultiple(a, 1);
      DividesMultiple(a, 0);
    } else {
      GcdDivides(b, a % b);
      var g := Gcd(b, a % b);
      assert a == b * (a / b) + a % b;
      DividesLinear(g, b, a % b, a / b);
    }
  }

  lemma {:induction false} Bezout(a: nat, b: nat) returns (x: int, y: int)
    ensures a * x + b * y == Gcd(a, b)
    decreases b
  {
    if b == 0 {
      x, y := 1, 0;
    } else {
      var x', y' := Bezout(b, a % b);
      var q := a / b;
      assert a % b == a - b * q;
      // b * x' + (a - b * q) * y' == g
      x, y := y', x' - q * y';
      calc {
        a * x + b * y;
        a * y' + b * (x' - q * y');
        { MulAssoc(b, q, y'); }
        b * x' + (a - b * q) * y';
        Gcd(b, a % b);
      }
    }
  }

  // ----------------------------------------------------------------- primes

  /** Euclid's lemma: a prime dividing a product divides one of the factors. */
  lemma EuclidLemma(p: nat, a: nat, b: nat)
    requires IsPrime(p) && Divides(p, a * b)
    ensures Divides(p, a) || Divides(p, b)
  {
    if !Divides(p, a) {
      GcdDivides(p, a);
      var g := Gcd(p, a);
      DivisorBounded(g, p);
      assert g == 1;
      var x, y := Bezout(p, a);
      var q := DividesWitness(p, a * b);
      calc {
        b;
        (p * x + a * y) * b;
        p * x * b + (a * b) * y;
        { MulAssoc(p, q, y); MulAssoc(p, x, b); }
        p * (x * b + q * y);
      }
      DividesMultiple(p, x * b + q * y);
    }
  }

  lemma PrimeDividesPrime(p: int, q: int)
    requires IsPrime(p) && IsPrime(q) && Divides(p, q)
    ensures p == q
  {
    DivisorBounded(p, q);
  }

  /** A prime dividing a product of primes is one of them. */
  lemma {:induction false} PrimeDividesProdOfPrimes(p: nat, s: seq<int>)
    requires IsPrime(p) && AllPrime(s) && Divides(p, Prod(s))
    ensures p in s
  {
    if s == [] {
      assert false;
    } else {
      assert AllPrime(s[1..]) by {
        forall i | 0 <= i < |s[1..]| ensures IsPrime(s[1..][i]) {
          assert s[1..][i] == s[i + 1];
        }
      }
      assert IsPrime(s[0]);
      EuclidLemma(p, s[0], Prod(s[1..]));
      if Divides(p, s[0]) {
        PrimeDividesPrime(p, s[0]);
      } else {
        PrimeDividesProdOfPrimes(p, s[1..]);
      }
    }
  }

  /** Distinct primes that each divide `n` divide it together. */
  lemma {:induction false} DistinctPrimesDivide(s: seq<int>, n: nat)
    requires AllPrime(s) && Distinct(s)
    requires forall i | 0 <= i < |s| :: Divides(s[i], n)
    ensures Divides(Prod(s), n)
  {
    if s == [] {
      DividesMultiple(1, n);
    } else {
      var rest := s[1..];
      assert AllPrime(rest) && Distinct(rest) by {
        forall i | 0 <= i < |rest| ensures rest[i] == s[i + 1] {}
      }
      forall i | 0 <= i < |rest| ensures Divides(rest[i], n) {
        assert rest[i] == s[i + 1];
      }
      DistinctPrimesDivide(rest, n);
      var t := DividesWitness(Prod(rest), n);
      assert IsPrime(s[0]);
      EuclidLemma(s[0], Prod(rest), t);
      HeadNotInTail(s);
      if Divides(s[0], Prod(rest)) {
        PrimeDividesProdOfPrimes(s[0], rest);
        assert false;
      }
      var u := DividesWitness(s[0], t);
      calc {
        n;
        Prod(rest) * t;
        Prod(rest) * (s[0] * u);
        { MulAssoc(Prod(rest), s[0], u); }
        (s[0] * Prod(rest)) * u;
        Prod(s) * u;
      }
      DividesMultiple(Prod(s), u);
    }
  }

  // ------------------------------------------------------------------ powers

  lemma {:induction false} PowAdd(b: int, s: nat, t: nat)
    ensures Pow(b, s + t) == Pow(b, s) * Pow(b, t)
  {
    if t > 0 {
      PowAdd(b, s, t - 1);
      MulAssoc(b, Pow(b, s), Pow(b, t - 1));
    }
  }

  lemma {:induction false} PowPositive(b: int, e: nat)
    requires b > 0
    ensures Pow(b, e) > 0
  {
    if e > 0 {
      PowPositive(b, e - 1);
    }
  }

  /** A prime dividing a power of a prime is that prime. */
  lemma {:induction false} PrimeDividesPow(p: nat, q: nat, e: nat)
    requires IsPrime(p) && IsPrime(q) && Divides(p, Pow(q, e))
    ensures p == q
  {
    if e == 0 {
      DivisorBounded(p, 1);
      assert false;
    } else {
      PowPositive(q, e - 1);
      EuclidLemma(p, q, Pow(q, e - 1));
      if Divides(p, q) {
        PrimeDividesPrime(p, q);
      } else {
        PrimeDividesPow(p, q, e - 1);
      }
    }
  }

  /** Gauss's lemma for a prime: a number the prime does not divide, dividing
      p * b, divides b. */
  lemma CoprimeDivides(p: nat, x: nat, b: int)
    requires IsPrime(p) && x > 0 && !Divides(p, x) && Divides(x, p * b)
    ensures Divides(x, b)
  {
    GcdDivides(x, p);
    var g := Gcd(x, p);
    DivisorBounded(g, p);
    assert g == 1;
    var u, v := Bezout(x, p);
    var q := DividesWitness(x, p * b);
    calc {
      b;
      (x * u + p * v) * b;
      x * u * b + (p * b) * v;
      { MulAssoc(x, q, v); MulAssoc(x, u, b); }
      x * (u * b + q * v);
    }
    DividesMultiple(x, u * b + q * v);
  }

  lemma DistinctConcat<T>(a: seq<T>, b: seq<T>)
    requires Distinct(a) && Distinct(b) && forall x | x in a :: x !in b
    ensures Distinct(a + b)
  {
    forall i, j | 0 <= i < j < |a + b| ensures (a + b)[i] != (a + b)[j] {
      if i < |a| && j >= |a| {
        assert (a + b)[i] in a && (a + b)[j] == b[j - |a|];
      }
    }
  }

  /** Some element of a non-empty set, for proofs. */
  lemma Pick<T>(s: set<T>) returns (x: T)
    requires s != {}
    ensures x in s
  {
    x :| x in s;
  }
}
