/**
 * Bitwise arithmetic on unsigned words, as the header macros use it.
 *
 * A C `unsigned int` is a natural number below 2^32.  Shifts, masks and OR are
 * defined one binary digit at a time, so that facts about bit fields hold for
 * every field position and not only for the ones a header happens to use.
 */
module Bits {

  const WORD_BITS := 32

  function Pow2(k: nat): (p: nat)
    ensures p > 0
  {
    if k == 0 then 1 else 2 * Pow2(k - 1)
  }

  /** v << k, before any truncation to the word size */
  function Shl(v: nat, k: nat): nat {
    if k == 0 then v else 2 * Shl(v, k - 1)
  }

  /** v >> k */
  function Shr(v: nat, k: nat): nat {
    if k == 0 then v else Shr(v / 2, k - 1)
  }

  /** v & ~(0xFFFFFFFF << len): the len low-order bits of v */
  function Low(v: nat, len: nat): nat {
    if len == 0 then 0 else v % 2 + 2 * Low(v / 2, len - 1)
  }

  /** a | b */
  function Or(a: nat, b: nat): nat
    decreases a + b
  {
    if a == 0 then b
    else if b == 0 then a
    else (if a % 2 == 1 || b % 2 == 1 then 1 else 0) + 2 * Or(a / 2, b / 2)
  }

  predicate Bit(v: nat, i: nat) {
    if i == 0 then v % 2 == 1 else Bit(v / 2, i - 1)
  }

  /** The value a C unsigned int argument takes when it is passed the int v. */
  function ToWord(v: int): (w: nat)
    ensures w < 0x1_0000_0000
  {
    v % 0x1_0000_0000
  }

  // ---------------------------------------------------------------- the macros

  /** A field of a 32-bit word: `start` counts from the most significant bit. */
  datatype BitRange = BitRange(start: nat, len: nat) {
    function Shift(): int {
      WORD_BITS - start - len
    }

    /** Two fields share no bit position. */
    predicate Apart(other: BitRange) {
      start + len <= other.start || other.start + other.len <= start
    }
  }

  type Field = f: BitRange | f.len > 0 && f.start + f.len <= WORD_BITS witness BitRange(0, 1)

  /** CWSetField32: src |= (mask(len) & val) << (32 - start - len) */
  function SetField(src: nat, f: Field, val: nat): nat
  {
    Or(src, Shl(Low(val, f.len), f.Shift()))
  }

  /** CWGetField32: mask(len) & (src >> (32 - start - len)) */
  function GetField(src: nat, f: Field): nat
  {
    Low(Shr(src, f.Shift()), f.len)
  }

  // ---------------------------------------------------------------- one bit at a time

  lemma {:induction false} BitOfZero(i: nat)
    ensures !Bit(0, i)
  {
    if i > 0 { BitOfZero(i - 1); }
  }

  lemma {:induction false} BitOfOr(a: nat, b: nat, i: nat)
    ensures Bit(Or(a, b), i) <==> Bit(a, i) || Bit(b, i)
    decreases i
  {
    if a == 0 || b == 0 {
      BitOfZero(i);
    } else if i > 0 {
      BitOfOr(a / 2, b / 2, i - 1);
    }
  }

  lemma {:induction false} BitOfShl(v: nat, k: nat, i: nat)
    ensures Bit(Shl(v, k), i) <==> i >= k && Bit(v, i - k)
    decreases k
  {
    if k > 0 && i > 0 { BitOfShl(v, k - 1, i - 1); }
  }

  lemma {:induction false} BitOfShr(v: nat, k: nat, i: nat)
    ensures Bit(Shr(v, k), i) <==> Bit(v, i + k)
    decreases k
  {
    if k > 0 { BitOfShr(v / 2, k - 1, i); }
  }

  lemma {:induction false} BitOfLow(v: nat, len: nat, i: nat)
    ensures Bit(Low(v, len), i) <==> i < len && Bit(v, i)
    decreases len
  {
    if len == 0 {
      BitOfZero(i);
    } else if i > 0 {
      BitOfLow(v / 2, len - 1, i - 1);
    }
  }

  /** Words with the same bits are the same word. */
  lemma {:induction false} SameBits(a: nat, b: nat)
    requires forall i: nat :: Bit(a, i) <==> Bit(b, i)
    ensures a == b
    decreases a + b
  {
    assert Bit(a, 0) <==> Bit(b, 0);
    if a != 0 || b != 0 {
      forall i: nat ensures Bit(a / 2, i) <==> Bit(b / 2, i) {
        assert Bit(a, i + 1) <==> Bit(b, i + 1);
      }
      SameBits(a / 2, b / 2);
    }
  }

  // ---------------------------------------------------------------- the field laws

  lemma BitOfGet(src: nat, f: Field, i: nat)
    ensures Bit(GetField(src, f), i) <==> i < f.len && Bit(src, i + f.Shift())
  {
    BitOfLow(Shr(src, f.Shift()), f.len, i);
    BitOfShr(src, f.Shift(), i);
  }

  lemma BitOfSet(src: nat, f: Field, val: nat, i: nat)
    ensures Bit(SetField(src, f, val), i) <==>
            Bit(src, i) || (f.Shift() <= i < f.Shift() + f.len && Bit(val, i - f.Shift()))
  {
    BitOfOr(src, Shl(Low(val, f.len), f.Shift()), i);
    BitOfShl(Low(val, f.len), f.Shift(), i);
    if i >= f.Shift() { BitOfLow(val, f.len, i - f.Shift()); }
  }

  /** Setting one field never disturbs another one. */
  lemma SetLeavesOthers(src: nat, f: Field, val: nat, g: Field)
    requires f.Apart(g)
    ensures GetField(SetField(src, f, val), g) == GetField(src, g)
  {
    forall i: nat
      ensures Bit(GetField(SetField(src, f, val), g), i) <==> Bit(GetField(src, g), i)
    {
      BitOfGet(SetField(src, f, val), g, i);
      BitOfGet(src, g, i);
      BitOfSet(src, f, val, i + g.Shift());
    }
    SameBits(GetField(SetField(src, f, val), g), GetField(src, g));
  }

  /** A field that is still zero reads back the low-order bits of what it was set to. */
  lemma SetThenGet(src: nat, f: Field, val: nat)
    requires GetField(src, f) == 0
    ensures GetField(SetField(src, f, val), f) == Low(val, f.len)
  {
    forall i: nat
      ensures Bit(GetField(SetField(src, f, val), f), i) <==> Bit(Low(val, f.len), i)
    {
      BitOfGet(SetField(src, f, val), f, i);
      BitOfSet(src, f, val, i + f.Shift());
      BitOfGet(src, f, i);
      BitOfZero(i);
      BitOfLow(val, f.len, i);
    }
    SameBits(GetField(SetField(src, f, val), f), Low(val, f.len));
  }

  lemma GetOfZero(f: Field)
    ensures GetField(0, f) == 0
  {
    forall i: nat ensures Bit(GetField(0, f), i) <==> Bit(0, i) {
      BitOfGet(0, f, i);
      BitOfZero(i);
      BitOfZero(i + f.Shift());
    }
    SameBits(GetField(0, f), 0);
  }

  // ---------------------------------------------------------------- sizes

  /** Masking is taking the remainder. */
  lemma {:induction false} LowIsRemainder(v: nat, len: nat)
    ensures Low(v, len) == v % Pow2(len)
  {
    if len > 0 {
      LowIsRemainder(v / 2, len - 1);
      HalfRemainder(v, Pow2(len - 1));
    }
  }

  lemma HalfRemainder(v: nat, p: nat)
    requires p > 0
    ensures v % (2 * p) == v % 2 + 2 * ((v / 2) % p)
  {
    var q, r := (v / 2) / p, (v / 2) % p;
    assert v == 2 * (q * p + r) + v % 2;
    assert v == q * (2 * p) + (2 * r + v % 2) by {
      assert 2 * (q * p) == q * (2 * p);
    }
    RemainderUnique(v, 2 * p, q, 2 * r + v % 2);
  }

  /** A difference of multiples of d that is smaller than d is zero. */
  lemma MultipleGap(q1: int, q2: int, d: nat, r1: nat, r2: nat)
    requires d > 0 && r1 < d && r2 < d && q1 * d + r1 == q2 * d + r2
    ensures q1 == q2 && r1 == r2
  {
    var gap := q1 - q2;
    assert gap * d == r2 - r1;
    MultipleGrows(gap, d);
  }

  lemma MultipleGrows(k: int, d: int)
    requires d > 0
    ensures k >= 1 ==> k * d >= d
    ensures k <= -1 ==> k * d <= -d
  {}

  lemma RemainderUnique(v: nat, d: nat, q: nat, r: nat)
    requires d > 0 && r < d && v == q * d + r
    ensures v % d == r
  {
    MultipleGap(v / d, q, d, v % d, r);
  }

  lemma {:induction false} LowBound(v: nat, len: nat)
    ensures Low(v, len) < Pow2(len)
  {
    if len > 0 { LowBound(v / 2, len - 1); }
  }

  lemma {:induction false} ShlBound(v: nat, k: nat, len: nat)
    requires v < Pow2(len)
    ensures Shl(v, k) < Pow2(len + k)
  {
    if k > 0 { ShlBound(v, k - 1, len); }
  }

  lemma {:induction false} OrBound(a: nat, b: nat, k: nat)
    requires a < Pow2(k) && b < Pow2(k)
    ensures Or(a, b) < Pow2(k)
    decreases k
  {
    if k > 0 && a > 0 && b > 0 { OrBound(a / 2, b / 2, k - 1); }
  }

  lemma {:induction false} Pow2Monotone(i: nat, j: nat)
    requires i <= j
    ensures Pow2(i) <= Pow2(j)
    decreases j
  {
    if i < j { Pow2Monotone(i, j - 1); }
  }

  lemma Pow2Of32()
    ensures Pow2(32) == 0x1_0000_0000
  {
    assert Pow2(8) == 256;
    assert Pow2(16) == 0x1_0000 by { assert Pow2(12) == 4096; }
    assert Pow2(24) == 0x100_0000 by { assert Pow2(20) == 0x10_0000; }
    assert Pow2(28) == 0x1000_0000;
  }

  /** Setting a field keeps the word a 32-bit word. */
  lemma SetStaysWord(src: nat, f: Field, val: nat)
    requires src < 0x1_0000_0000
    ensures SetField(src, f, val) < 0x1_0000_0000
  {
    Pow2Of32();
    LowBound(val, f.len);
    ShlBound(Low(val, f.len), f.Shift(), f.len);
    Pow2Monotone(f.len + f.Shift(), 32);
    OrBound(src, Shl(Low(val, f.len), f.Shift()), 32);
  }
}
