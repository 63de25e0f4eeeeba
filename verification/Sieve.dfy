/** sem_2/ijc/proj_1/eratosthenes.c */
module Sieve {
  import opened Options
  import opened BitArray

  ghost predicate Prime(k: nat) {
    k >= 2 && forall d :: 2 <= d < k ==> k % d != 0
  }

  function Times(d: nat, m: nat): nat { d * m }

  /** `k` is a multiple, other than by one, of a number from 2 to n - 1. */
  ghost predicate HasFactorBelow(k: nat, n: nat) {
    exists d: nat, m: nat :: 2 <= d < n && 2 <= m && Times(d, m) == k
  }

  /** What the array holds once the outer loop has come to `n`. */
  ghost predicate Marked(s: seq<bool>, n: nat) {
    forall k :: 0 <= k < |s| ==> (s[k] <==> k < 2 || HasFactorBelow(k, n))
  }

  /** ... and once the inner loop, at `i`, has come to `j`. */
  ghost predicate MarkedUpTo(s: seq<bool>, i: nat, j: nat) {
    forall k :: 0 <= k < |s| ==> (s[k] <==> k < 2 || HasFactorBelow(k, i) || MultipleBelow(k, i, j))
  }

  ghost predicate MultipleBelow(k: nat, i: nat, j: nat) {
    exists m: nat :: 2 <= m < j && Times(i, m) == k
  }

  lemma {:induction false} MulLe(a: nat, b: nat, c: nat, d: nat)
    requires a <= c && b <= d
    ensures a * b <= c * d
  {
    assert c * d - a * b == c * (d - b) + (c - a) * b;
  }

  lemma {:induction false} InnerStart(s: seq<bool>, i: nat)
    requires Marked(s, i)
    ensures MarkedUpTo(s, i, 2)
  {
  }

  lemma {:induction false} InnerStep(s: seq<bool>, i: nat, j: nat)
    requires MarkedUpTo(s, i, j) && 2 <= i && 2 <= j && Times(i, j) < |s|
    ensures MarkedUpTo(s[Times(i, j) := true], i, j + 1)
  {
    var s' := s[Times(i, j) := true];
    forall k | 0 <= k < |s|
      ensures s'[k] <==> k < 2 || HasFactorBelow(k, i) || MultipleBelow(k, i, j + 1)
    {
      assert MultipleBelow(k, i, j + 1) <==> MultipleBelow(k, i, j) || k == Times(i, j) by {
        if k == Times(i, j) {
          assert 2 <= j < j + 1 && Times(i, j) == k;
        }
      }
    }
  }

  /** All the multiples of `i` within the array are marked. */
  lemma {:induction false} InnerEnd(s: seq<bool>, i: nat, j: nat)
    requires MarkedUpTo(s, i, j) && 2 <= i && Times(i, j) >= |s|
    ensures Marked(s, i + 1)
  {
    forall k | 0 <= k < |s|
      ensures s[k] <==> k < 2 || HasFactorBelow(k, i + 1)
    {
      if HasFactorBelow(k, i + 1) && !HasFactorBelow(k, i) {
        var d: nat, m: nat :| 2 <= d < i + 1 && 2 <= m && Times(d, m) == k;
        assert d == i;
        if m >= j {
          MulLe(i, j, i, m);
        }
        assert MultipleBelow(k, i, j);
      }
      if MultipleBelow(k, i, j) {
        var m: nat :| 2 <= m < j && Times(i, m) == k;
        assert 2 <= i < i + 1 && Times(i, m) == k;
      }
      if HasFactorBelow(k, i) {
        var d: nat, m: nat :| 2 <= d < i && 2 <= m && Times(d, m) == k;
        assert 2 <= d < i + 1 && Times(d, m) == k;
      }
    }
  }

  /** A number that is marked already brings no new multiples. */
  lemma {:induction false} SkipStep(s: seq<bool>, i: nat)
    requires Marked(s, i) && 2 <= i < |s| && s[i]
    ensures Marked(s, i + 1)
  {
    forall k | 0 <= k < |s|
      ensures HasFactorBelow(k, i + 1) <==> HasFactorBelow(k, i)
    {
      SkippedFactor(k, i);
    }
  }

  lemma {:induction false} SkippedFactor(k: nat, i: nat)
    requires 2 <= i && HasFactorBelow(i, i)
    ensures HasFactorBelow(k, i + 1) <==> HasFactorBelow(k, i)
  {
    var d: nat, m: nat :| 2 <= d < i && 2 <= m && Times(d, m) == i;
    if HasFactorBelow(k, i) {
      var e: nat, q: nat :| 2 <= e < i && 2 <= q && Times(e, q) == k;
      assert 2 <= e < i + 1 && Times(e, q) == k;
    } else if HasFactorBelow(k, i + 1) {
      var e: nat, q: nat :| 2 <= e < i + 1 && 2 <= q && Times(e, q) == k;
      if e == i {
        Composed(d, m, q);
      }
    }
  }

  lemma {:induction false} Composed(d: nat, m: nat, q: nat)
    requires m >= 2 && q >= 2
    ensures m * q >= 2 && Times(d, m * q) == Times(Times(d, m), q)
  {
    MulLe(2, 1, m, q);
    assert (d * m) * q == d * (m * q);
  }

  /** The smaller factor of a number below n * n is below n. */
  lemma {:induction false} RootBound(k: nat, n: nat, d: nat, m: nat)
    requires 2 <= d && 2 <= m && Times(d, m) == k && k < n * n
    ensures HasFactorBelow(k, n)
  {
    if d < n {
      assert HasFactorBelow(k, n);
    } else if m < n {
      assert Times(m, d) == k;
    } else {
      MulLe(n, n, d, m);
      assert false;
    }
  }

  lemma {:induction false} FactorIsNoPrime(k: nat, n: nat)
    requires HasFactorBelow(k, n)
    ensures !Prime(k)
  {
    var d: nat, m: nat :| 2 <= d < n && 2 <= m && Times(d, m) == k;
    hide HasFactorBelow;
    MulLe(d, 2, d, m);
    ProductDivides(d, m);
    assert k % d == 0;
  }

  lemma {:induction false} PrimeHasNoFactor(k: nat, n: nat)
    requires k >= 2 && k < n * n
    ensures Prime(k) <==> !HasFactorBelow(k, n)
  {
    if HasFactorBelow(k, n) {
      FactorIsNoPrime(k, n);
    } else if !Prime(k) {
      var d :| 2 <= d < k && k % d == 0;
      hide HasFactorBelow, Prime;
      var m := k / d;
      assert Times(d, m) == k;
      assert m >= 2;
      RootBound(k, n, d, m);
    }
  }

  lemma {:induction false} ProductDivides(d: nat, m: nat)
    requires d > 0
    ensures (d * m) % d == 0
  {
    var k := d * m;
    var q, r := k / d, k % d;
    assert d * (m - q) == r;
    if m > q {
      MulLe(d, 1, d, m - q);
    } else if m < q {
      MulLe(d, 1, d, q - m);
    }
  }

  /** The outer loop stays within the array. */
  lemma {:induction false} IndexBound(i: nat, size: nat)
    requires 3 <= size && 2 <= i && (i - 1) * (i - 1) < size
    ensures i < size
  {
    if i > 2 {
      MulLe(2, i - 1, i - 1, i - 1);
    }
  }

  /**
   Eratosthenes.  `ok` is false when an index outside the array ended the program; the loop
   bound i < sqrt(size) + 1 is written over the integers.
   */
  method Eratosthenes(a: array<nat>) returns (ok: bool)
    requires Valid(a[..]) && forall k :: 0 <= k < |Bits(a[..])| ==> !Bits(a[..])[k]
    modifies a
    ensures Valid(a[..]) && |Bits(a[..])| == |old(Bits(a[..]))|
    ensures ok <==> |old(Bits(a[..]))| >= 3
    ensures ok ==> forall k :: 0 <= k < |Bits(a[..])| ==> (!Bits(a[..])[k] <==> Prime(k))
  {
    hide Valid, Bits, Marked, MarkedUpTo, HasFactorBelow, Prime;
    var size := Size(a);
    ok := SetBit(a, 0, true);
    if ok {
      ok := SetBit(a, 1, true);
    }
    if !ok {
      return;
    }
    NoneMarked(Bits(a[..]));
    var i: nat := 2;
    while (i - 1) * (i - 1) < size
      invariant ok && Valid(a[..]) && |Bits(a[..])| == size >= 2 && i >= 2 && Marked(Bits(a[..]), i)
      invariant size == 2 ==> i == 2
      decreases size - i
    {
      if size >= 3 {
        IndexBound(i, size);
      }
      var bit := GetBit(a, i);
      if bit == None {
        return false;
      }
      if bit == Some(false) {
        InnerStart(Bits(a[..]), i);
        var j: nat := 2;
        while i * j < size
          invariant ok && Valid(a[..]) && |Bits(a[..])| == size && j >= 2 && MarkedUpTo(Bits(a[..]), i, j)
          decreases size - j
        {
          InnerStep(Bits(a[..]), i, j);
          MulLe(1, j, i, j);
          ok := SetBit(a, i * j, true);
          j := j + 1;
        }
        InnerEnd(Bits(a[..]), i, j);
      } else {
        SkipStep(Bits(a[..]), i);
      }
      i := i + 1;
    }
    AllPrimes(Bits(a[..]), i);
  }

  /** The unmarked numbers are the primes once the loop has passed the square root. */
  lemma {:induction false} AllPrimes(s: seq<bool>, n: nat)
    requires n >= 2 && Marked(s, n) && |s| <= (n - 1) * (n - 1)
    ensures forall k :: 0 <= k < |s| ==> (!s[k] <==> Prime(k))
  {
    MulLe(n - 1, n - 1, n, n);
    forall k | 2 <= k < |s|
      ensures Prime(k) <==> !HasFactorBelow(k, n)
    {
      PrimeHasNoFactor(k, n);
    }
  }

  lemma {:induction false} NoneMarked(s: seq<bool>)
    requires |s| >= 2 && s[0] && s[1] && forall k :: 2 <= k < |s| ==> !s[k]
    ensures Marked(s, 2)
  {
  }
}
