/**
 Machine words as the natural numbers below 2^64, with the operators of C that sem_2/ijc/proj_1/bit_array.h
 applies to them.
 */
module Words {

  const WORD: nat := 64

  function Pow2(n: nat): nat { if n == 0 then 1 else 2 * Pow2(n - 1) }

  /** The n-th binary digit. */
  function Bit(w: nat, n: nat): bool {
    if n == 0 then w % 2 == 1 else Bit(w / 2, n - 1)
  }

  /** `a | b` */
  function Or(a: nat, b: nat): nat {
    if a == 0 && b == 0 then 0 else 2 * Or(a / 2, b / 2) + if a % 2 == 1 || b % 2 == 1 then 1 else 0
  }

  /** `a & b` */
  function And(a: nat, b: nat): nat {
    if a == 0 || b == 0 then 0 else 2 * And(a / 2, b / 2) + if a % 2 == 1 && b % 2 == 1 then 1 else 0
  }

  lemma {:induction false} OrBit(a: nat, b: nat, n: nat)
    ensures Bit(Or(a, b), n) <==> Bit(a, n) || Bit(b, n)
  {
    if n > 0 {
      if a == 0 && b == 0 {
        ZeroBit(n);
      } else {
        OrBit(a / 2, b / 2, n - 1);
      }
    }
  }

  lemma {:induction false} ZeroBit(n: nat)
    ensures !Bit(0, n)
  {
    if n > 0 {
      ZeroBit(n - 1);
    }
  }

  /** Masking with all digits. */
  lemma {:induction false} AndAll(a: nat, n: nat)
    requires a < Pow2(n)
    ensures Pow2(n) > 0 && And(a, Pow2(n) - 1) == a
  {
    if n > 0 {
      AndAll(a / 2, n - 1);
    }
  }

  /** An or of words is a word. */
  lemma {:induction false} OrFits(a: nat, b: nat, n: nat)
    requires a < Pow2(n) && b < Pow2(n)
    ensures Or(a, b) < Pow2(n)
  {
    if n > 0 {
      OrFits(a / 2, b / 2, n - 1);
    }
  }

  lemma {:induction false} Pow2Bit(n: nat, m: nat)
    ensures Bit(Pow2(n), m) <==> n == m
  {
    if n == 0 {
      if m > 0 {
        ZeroBit(m - 1);
      }
    } else if m > 0 {
      Pow2Bit(n - 1, m - 1);
    }
  }

  lemma {:induction false} Pow2Grows(n: nat, m: nat)
    requires n < m
    ensures 0 < Pow2(n) < Pow2(m)
  {
    if n > 0 {
      Pow2Grows(n - 1, m - 1);
    } else if m > 1 {
      Pow2Grows(0, m - 1);
    }
  }

  /** Masking with 1 << n tests the n-th digit. */
  lemma {:induction false} AndMask(w: nat, n: nat)
    ensures And(w, Pow2(n)) != 0 <==> Bit(w, n)
  {
    if w == 0 {
      ZeroBit(n);
    } else if n > 0 {
      AndMask(w / 2, n - 1);
    }
  }
}

/** The bit array of sem_2/ijc/proj_1/bit_array.h: element 0 holds the size in bits, the rest the bits. */
module BitArray {
  import opened Options
  import opened Words

  /** The length that bit_array_create declares. */
  function Length(size: nat): nat {
    size / 8 * 8 + if size % 8 * 8 != 0 then 2 else 1
  }

  /** As many words as bits, down to a multiple of 8, and element 0, and one more if bits are left over. */
  lemma {:induction false} DeclaredLength(size: nat)
    ensures Length(size) == size - size % 8 + if size % 8 == 0 then 1 else 2
  {
  }

  ghost predicate Valid(w: seq<nat>) {
    |w| > 0 && |w| == Length(w[0]) && forall i :: 0 <= i < |w| ==> w[i] < Pow2(WORD)
  }

  /** Every bit has its place within the array. */
  lemma {:induction false} InBounds(size: nat, k: nat)
    requires k < size
    ensures 0 < k / WORD + 1 < Length(size) && k % WORD < WORD
  {
  }

  function BitOf(w: seq<nat>, k: nat): bool
    requires Valid(w) && k < w[0]
  {
    InBounds(w[0], k);
    Bit(w[k / WORD + 1], k % WORD)
  }

  /** The bits that the words stand for. */
  ghost function Bits(w: seq<nat>): (s: seq<bool>)
    requires Valid(w)
    ensures |s| == w[0]
  {
    seq(w[0], k requires 0 <= k < w[0] => BitOf(w, k))
  }

  /** bit_array_size */
  method Size(a: array<nat>) returns (size: nat)
    requires Valid(a[..])
    ensures size == |Bits(a[..])|
  {
    size := a[0];
  }

  /** bit_array_create */
  method Create(size: nat) returns (a: array<nat>)
    requires size < Pow2(WORD)
    ensures fresh(a) && Valid(a[..]) && Bits(a[..]) == seq(size, k => false)
  {
    a := new nat[Length(size)](i => 0);
    a[0] := size;
    Pow2Grows(0, WORD);
    assert Valid(a[..]);
    ZeroBits(a[..]);
  }

  lemma {:induction false} ZeroBits(w: seq<nat>)
    requires Valid(w) && forall i :: 0 < i < |w| ==> w[i] == 0
    ensures Bits(w) == seq(w[0], k => false)
  {
    forall k | 0 <= k < w[0]
      ensures !BitOf(w, k)
    {
      InBounds(w[0], k);
      ZeroBit(k % WORD);
    }
  }

  /** What storing one word makes of the bits. */
  lemma {:induction false} OneWord(w: seq<nat>, index: nat)
    requires Valid(w) && index < w[0]
    ensures var i := index / WORD + 1;
      && i < |w|
      && var w' := w[i := Or(w[i], Pow2(index % WORD))];
      && Valid(w') && Bits(w') == Bits(w)[index := true]
  {
    InBounds(w[0], index);
    Pow2Grows(index % WORD, WORD);
    var i := index / WORD + 1;
    OrFits(w[i], Pow2(index % WORD), WORD);
    var w' := w[i := Or(w[i], Pow2(index % WORD))];
    hide Pow2, Bit, Or;
    forall k | 0 <= k < w[0]
      ensures BitOf(w', k) == (k == index || BitOf(w, k))
    {
      InBounds(w[0], k);
      OrBit(w[i], Pow2(index % WORD), k % WORD);
      Pow2Bit(index % WORD, k % WORD);
    }
  }

  /**
   bit_array_setbit; `ok` is false when it leaves the program with an error.  A bit is set to 1,
   but never to 0: the mask for 0 is the complement of 0 shifted, which has all digits.
   */
  method SetBit(a: array<nat>, index: nat, value: bool) returns (ok: bool)
    requires Valid(a[..])
    modifies a
    ensures Valid(a[..])
    ensures ok <==> index < |old(Bits(a[..]))|
    ensures Bits(a[..]) == if ok && value then old(Bits(a[..]))[index := true] else old(Bits(a[..]))
    ensures ok ==> (Bits(a[..])[index] == value <==> value || !old(Bits(a[..]))[index])
  {
    if index >= a[0] {
      return false;
    }
    ok := true;
    ghost var w, i := a[..], index / WORD + 1;
    InBounds(w[0], index);
    AndAll(w[i], WORD);
    hide Valid, Bits, Or, And, Pow2, Bit;
    OneWord(w, index);
    if value {
      a[index / WORD + 1] := Or(a[index / WORD + 1], Pow2(index % WORD));
      assert a[..] == w[i := Or(w[i], Pow2(index % WORD))];
    } else {
      a[index / WORD + 1] := And(a[index / WORD + 1], Pow2(WORD) - 1);
      assert a[..] == w;
    }
  }

  /** bit_array_getbit; None when it leaves the program with an error. */
  method GetBit(a: array<nat>, index: nat) returns (bit: Option<bool>)
    requires Valid(a[..])
    ensures bit == if index < |Bits(a[..])| then Some(Bits(a[..])[index]) else None
  {
    if index >= a[0] {
      return None;
    }
    InBounds(a[0], index);
    AndMask(a[index / WORD + 1], index % WORD);
    assert BitOf(a[..], index) == Bit(a[index / WORD + 1], index % WORD);
    bit := Some(And(a[index / WORD + 1], Pow2(index % WORD)) != 0);
  }
}
