/** Facts about 32-bit words used by the shift-register model.

    Masks and single bits are built up one bit at a time (`Ones`, `BitAt`),
    and so are multi-position shifts (`Shr`) and bit lists (`BitsOf`).
    Closed forms with `<<` by a symbolic amount appear only inside the
    proofs of the mask lemmas. The lemmas about a mask take it as a
    parameter `m` with `m == Ones(d)` and state their facts about `m`. */
module Words {

  /** One output or input bit, as the source's `int` results 0 and 1. */
  type Bit = b: int | 0 <= b <= 1

  /** The low bit of a word. */
  function Low(s: bv32): (b: Bit)
    ensures b == 1 <==> s & 1 == 1
  {
    if s & 1 == 1 then 1 else 0
  }

  /** 2^d - 1: the word whose d low bits are set. */
  function Ones(d: nat): bv32
    requires d <= 32
  {
    if d == 0 then 0 else (Ones(d - 1) << 1) | 1
  }

  /** 2^k: the word with only bit k set. */
  function BitAt(k: nat): bv32
    requires k < 32
  {
    if k == 0 then 1 else BitAt(k - 1) << 1
  }

  /** Every bit set in x is set in m. */
  predicate Within(x: bv32, m: bv32) {
    x & m == x
  }

  /** m is of the form 2^d - 1 for some d in 0..32. */
  predicate IsOnes(m: bv32) {
    m & (m + 1) == 0
  }

  /** x shifted right by n positions, one position at a time. */
  function Shr(x: bv32, n: nat): bv32
    decreases n
  {
    if n == 0 then x else Shr(x >> 1, n - 1)
  }

  /** The n low bits of x, least significant bit first. */
  function BitsOf(x: bv32, n: nat): (r: seq<Bit>)
    ensures |r| == n
    decreases n
  {
    if n == 0 then [] else [Low(x)] + BitsOf(x >> 1, n - 1)
  }

  // ---- closed forms, used only inside the proofs below ----

  lemma OnesClosed(d: nat)
    requires d <= 32
    ensures Ones(d) == if d == 32 then 0xFFFF_FFFF else ((1 as bv32) << d) - 1
  {
    if d < 32 {
      OnesLow(d);
    } else {
      OnesLow(31);
      OnesTop(Ones(31), Ones(32));
    }
  }

  lemma {:induction false} OnesLow(d: nat)
    requires d < 32
    ensures Ones(d) == ((1 as bv32) << d) - 1
    decreases d
  {
    if d > 0 {
      OnesLow(d - 1);
      OnesLowStep(d, Ones(d - 1), Ones(d));
    }
  }

  lemma OnesLowStep(d: nat, m1: bv32, m: bv32)
    requires 1 <= d < 32 && m1 == ((1 as bv32) << (d - 1)) - 1 && m == (m1 << 1) | 1
    ensures m == ((1 as bv32) << d) - 1
  {
  }

  lemma OnesTop(m1: bv32, m: bv32)
    requires m1 == ((1 as bv32) << 31) - 1 && m == (m1 << 1) | 1
    ensures m == 0xFFFF_FFFF
  {
  }

  lemma {:induction false} BitAtClosed(k: nat)
    requires k < 32
    ensures BitAt(k) == (1 as bv32) << k
    decreases k
  {
    if k > 0 {
      BitAtClosed(k - 1);
    }
  }

  // ---- masks of d ones ----

  /** The defining step of Ones, for a symbolic d. */
  lemma OnesSucc(d: nat)
    requires d < 32
    ensures Ones(d + 1) == (Ones(d) << 1) | 1
  {
  }

  /** Dropping the low bit of the mask of d ones leaves the mask of d - 1. */
  lemma OnesShr(d: nat, m: bv32, m1: bv32)
    requires 1 <= d <= 32 && m == Ones(d) && m1 == Ones(d - 1)
    ensures m >> 1 == m1
    ensures m & 1 == 1
  {
    OnesClosed(d);
    OnesClosed(d - 1);
  }

  lemma OnesShape(d: nat, m: bv32)
    requires d <= 32 && m == Ones(d)
    ensures IsOnes(m)
  {
    OnesClosed(d);
  }

  /** A mask of at most 31 ones leaves the top bit clear. */
  lemma OnesBelowTop(d: nat, m: bv32)
    requires d <= 31 && m == Ones(d)
    ensures m & 0x8000_0000 == 0
  {
    OnesClosed(d);
  }

  /** One more one makes a strictly larger mask. */
  lemma OnesStep(d: nat, m: bv32, m1: bv32)
    requires d < 32 && m == Ones(d) && m1 == Ones(d + 1)
    ensures m < m1
  {
    OnesShr(d + 1, m1, m);
  }

  /** Masks grow strictly with the number of ones. */
  lemma {:induction false} OnesMono(a: nat, b: nat, ma: bv32, mb: bv32)
    requires a < b <= 32 && ma == Ones(a) && mb == Ones(b)
    ensures ma < mb
    decreases b
  {
    var mb1 := Ones(b - 1);
    OnesStep(b - 1, mb1, mb);
    if a < b - 1 {
      OnesMono(a, b - 1, ma, mb1);
    }
  }

  /** The mask of k ones plus one is the single bit k. */
  lemma {:induction false} OnesPlusOne(k: nat, m: bv32, h: bv32)
    requires k < 32 && m == Ones(k) && h == BitAt(k)
    ensures m + 1 == h
    decreases k
  {
    if k > 0 {
      var m1, h1 := Ones(k - 1), BitAt(k - 1);
      OnesPlusOne(k - 1, m1, h1);
      CarryStep(m1, h1);
    }
  }

  lemma CarryStep(m1: bv32, h1: bv32)
    requires m1 + 1 == h1
    ensures ((m1 << 1) | 1) + 1 == h1 << 1
  {
  }

  /** The bit just below the top of the mask of d ones: (m >> 1) + 1. */
  lemma HighBit(d: nat, m: bv32, h: bv32)
    requires 1 <= d <= 32 && m == Ones(d) && h == BitAt(d - 1)
    ensures (m >> 1) + 1 == h
  {
    var m1 := Ones(d - 1);
    OnesShr(d, m, m1);
    OnesPlusOne(d - 1, m1, h);
  }

  /** A single bit is not 0. */
  lemma BitAtNonzero(k: nat, h: bv32)
    requires k < 32 && h == BitAt(k)
    ensures h != 0
  {
    BitAtClosed(k);
  }

  /** Bit k is bit k - 1 shifted left, and halving it gives bit k - 1 back. */
  lemma BitAtHalf(k: nat, h: bv32, h1: bv32)
    requires 1 <= k < 32 && h == BitAt(k) && h1 == BitAt(k - 1)
    ensures h == h1 << 1 && h >> 1 == h1
  {
    BitAtClosed(k);
    BitAtClosed(k - 1);
  }

  // ---- facts about arbitrary words, free of symbolic shift amounts ----

  lemma ShrWithin(x: bv32, m: bv32, m1: bv32)
    requires Within(x, m) && m >> 1 == m1
    ensures Within(x >> 1, m1)
  {
  }

  lemma MaskStep(x: bv32, m: bv32, m1: bv32)
    requires m >> 1 == m1 && m & 1 == 1
    ensures (x & m) & 1 == x & 1
    ensures (x & m) >> 1 == (x >> 1) & m1
  {
  }

  // ---- shifting and reading bits one position at a time ----

  /** Shifting n + 1 times is shifting n times and then once more. */
  lemma {:induction false} ShrSucc(x: bv32, n: nat)
    ensures Shr(x, n + 1) == Shr(x, n) >> 1
    decreases n
  {
    if n > 0 {
      ShrSucc(x >> 1, n - 1);
    }
  }

  /** Bit k of x is the low bit of x shifted right k times. */
  lemma {:induction false} ShrTestsBit(x: bv32, k: nat, h: bv32)
    requires k < 32 && h == BitAt(k)
    ensures x & h != 0 <==> Shr(x, k) & 1 == 1
    decreases k
  {
    if k > 0 {
      var h1 := BitAt(k - 1);
      BitAtNonzero(k, h);
      BitAtHalf(k, h, h1);
      ShiftedTest(x, h1, h);
      ShrTestsBit(x >> 1, k - 1, h1);
    }
  }

  lemma ShiftedTest(x: bv32, b: bv32, h: bv32)
    requires h == b << 1 && h != 0 && h >> 1 == b
    ensures x & h != 0 <==> (x >> 1) & b != 0
  {
  }

  /** A word that fits in d bits is emptied by d right shifts. */
  lemma {:induction false} ShrEmpties(x: bv32, d: nat, m: bv32)
    requires d <= 32 && m == Ones(d) && Within(x, m)
    ensures Shr(x, d) == 0
    decreases d
  {
    if d > 0 {
      var m1 := Ones(d - 1);
      OnesShr(d, m, m1);
      ShrWithin(x, m, m1);
      ShrEmpties(x >> 1, d - 1, m1);
    }
  }

  /** Element i of BitsOf(x, n) is bit i of x: the list is LSB first. */
  lemma BitsOfIndex(x: bv32, n: nat, i: nat)
    requires i < n <= 32
    ensures BitsOf(x, n)[i] == 1 <==> x & BitAt(i) != 0
  {
    ShrTestsBit(x, i, BitAt(i));
    BitsOfIndexShr(x, n, i);
  }

  lemma {:induction false} BitsOfIndexShr(x: bv32, n: nat, i: nat)
    requires i < n
    ensures BitsOf(x, n)[i] == Low(Shr(x, i))
    decreases i
  {
    if i > 0 {
      BitsOfIndexShr(x >> 1, n - 1, i - 1);
    }
  }

  /** Only the d low bits of x matter to BitsOf(x, d). */
  lemma {:induction false} BitsOfMasked(x: bv32, d: nat, m: bv32)
    requires d <= 32 && m == Ones(d)
    ensures BitsOf(x & m, d) == BitsOf(x, d)
    decreases d
  {
    if d > 0 {
      var m1 := Ones(d - 1);
      OnesShr(d, m, m1);
      BitsOfMasked(x >> 1, d - 1, m1);
      BitsOfMaskedStep(x, m, m1, d);
    }
  }

  lemma BitsOfMaskedStep(x: bv32, m: bv32, m1: bv32, d: nat)
    requires d > 0 && m >> 1 == m1 && m & 1 == 1
    requires BitsOf((x >> 1) & m1, d - 1) == BitsOf(x >> 1, d - 1)
    ensures BitsOf(x & m, d) == BitsOf(x, d)
  {
    MaskStep(x, m, m1);
    BitsOfCongr(x & m, x, d);
  }

  /** Two words give the same bit list when their low bits and the lists
      of their shifted-out remainders agree. */
  lemma BitsOfCongr(a: bv32, b: bv32, n: nat)
    requires n > 0 && Low(a) == Low(b) && BitsOf(a >> 1, n - 1) == BitsOf(b >> 1, n - 1)
    ensures BitsOf(a, n) == BitsOf(b, n)
  {
  }

  /** A word within the mask of d ones whose d low bits are all 0 is 0. */
  lemma {:induction false} BitsOfZero(x: bv32, d: nat, m: bv32)
    requires d <= 32 && m == Ones(d) && Within(x, m)
    requires BitsOf(x, d) == BitsOf(0, d)
    ensures x == 0
    decreases d
  {
    if d > 0 {
      var m1 := Ones(d - 1);
      OnesShr(d, m, m1);
      ShrWithin(x, m, m1);
      BitsOfTail(x, 0, d);
      BitsOfZero(x >> 1, d - 1, m1);
      LowAndRestZero(x);
    }
  }

  lemma BitsOfTail(a: bv32, b: bv32, n: nat)
    requires n > 0 && BitsOf(a, n) == BitsOf(b, n)
    ensures Low(a) == Low(b) && BitsOf(a >> 1, n - 1) == BitsOf(b >> 1, n - 1)
  {
    assert BitsOf(a, n)[0] == Low(a);
    assert BitsOf(a >> 1, n - 1) == BitsOf(a, n)[1..];
    assert BitsOf(b >> 1, n - 1) == BitsOf(b, n)[1..];
  }

  lemma LowAndRestZero(x: bv32)
    requires x & 1 == 0 && x >> 1 == 0
    ensures x == 0
  {
  }
}
