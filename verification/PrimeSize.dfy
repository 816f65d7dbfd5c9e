/** The sizing loop of `cef_hash_tbl_create` in src/lib/cef_hash.c, which raises the requested
    size to a prime.  Sizes are unbounded integers. */
module PrimeSize {

  predicate Divides(d: nat, n: nat) {
    d > 0 && n % d == 0
  }

  ghost predicate Prime(n: nat) {
    2 <= n && forall d | 2 <= d < n :: !Divides(d, n)
  }

  function Factorial(n: nat): (r: nat)
    ensures r >= 1
  {
    if n == 0 then 1 else Times(n, Factorial(n - 1))
  }

  function Times(a: nat, b: nat): (r: nat)
    ensures a > 0 && b > 0 ==> r >= b
  {
    a * b
  }

  lemma SmallMultiple(z: int, d: int)
    requires -d < z * d < d
    ensures z == 0
  {
  }

  lemma ModMultiple(d: nat, k: nat)
    requires d > 0
    ensures (k * d) % d == 0
  {
    var q, r := (k * d) / d, (k * d) % d;
    assert q * d + r == k * d;
    assert (k - q) * d == r;
    SmallMultiple(k - q, d);
  }

  lemma DividesProduct(d: nat, a: nat, b: nat)
    requires Divides(d, b) || Divides(d, a)
    ensures Divides(d, Times(a, b))
  {
    if Divides(d, b) {
      assert b == (b / d) * d;
      assert a * b == (a * (b / d)) * d;
      ModMultiple(d, a * (b / d));
    } else {
      assert a == (a / d) * d;
      assert a * b == ((a / d) * b) * d;
      ModMultiple(d, (a / d) * b);
    }
  }

  lemma {:induction false} DividesFactorial(d: nat, n: nat)
    requires 1 <= d <= n
    ensures Divides(d, Factorial(n))
    decreases n
  {
    if d == n {
      ModMultiple(n, 1);
      DividesProduct(d, n, Factorial(n - 1));
    } else {
      DividesFactorial(d, n - 1);
      DividesProduct(d, n, Factorial(n - 1));
    }
  }

  /** Every number from 2 on has a prime divisor. */
  lemma {:induction false} PrimeDivisor(n: nat) returns (p: nat)
    requires 2 <= n
    ensures Prime(p) && p <= n && Divides(p, n)
    decreases n
  {
    if Prime(n) {
      p := n;
      ModMultiple(n, 1);
    } else {
      var d :| 2 <= d < n && Divides(d, n);
      p := PrimeDivisor(d);
      assert n == (n / d) * d && d == (d / p) * p;
      DividesProduct(p, n / d, d);
    }
  }

  /** Neighbours have no common divisor but 1. */
  lemma Neighbours(d: nat, f: nat)
    requires d >= 2
    ensures !(Divides(d, f) && Divides(d, f + 1))
  {
    if Divides(d, f) {
      var q, q' := f / d, (f + 1) / d;
      assert q * d == f && q' * d + (f + 1) % d == f + 1;
      assert (q' - q) * d == 1 - (f + 1) % d;
      SmallMultiple(q' - q, d);
    }
  }

  /** There is always a larger prime. */
  lemma LargerPrime(n: nat) returns (p: nat)
    ensures Prime(p) && p > n
  {
    var f := Factorial(n);
    p := PrimeDivisor(f + 1);
    Neighbours(p, f);
    assert !Divides(p, f);
    forall d | 1 <= d <= n ensures Divides(d, f) {
      DividesFactorial(d, n);
    }
  }

  /** The inner loop: some number from 2 up to the size divides it. */
  method HasDivisor(size: nat) returns (flag: bool)
    requires 2 <= size
    ensures flag <==> !Prime(size)
  {
    flag := false;
    var n := 2;
    while n < size
      invariant 2 <= n <= size && !flag && forall d | 2 <= d < n :: !Divides(d, size)
    {
      if size % n == 0 {
        assert Divides(n, size);
        flag := true;
        break;
      }
      n := n + 1;
    }
  }

  /** The sizing loop ends, with the least prime not below the request; a request below 2 is kept. */
  method TableSize(request: nat) returns (size: nat)
    ensures request < 2 ==> size == request
    ensures request >= 2 ==> Prime(size) && size >= request && forall q | request <= q < size :: !Prime(q)
  {
    size := request;
    var i := size;
    ghost var p := LargerPrime(request);
    while i > 1
      invariant i == size && request <= size && if request < 2 then size == request else size <= p
      invariant forall q | request <= q < size :: !Prime(q)
      decreases p - size
    {
      var flag := HasDivisor(size);
      if flag {
        size := size + 1;
      } else {
        assert Prime(size);
        break;
      }
      i := i + 1;
    }
  }
}
