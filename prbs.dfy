/** The pseudo-random binary sequence generator: a 32-bit shift register
    divided by a polynomial over GF(2) in the "software form". Each method
    does what the class's method of the same name does, word operation for
    word operation, and states the new register as a function of the old
    one (PrbsSpec); what those functions guarantee is proved in PrbsLaws. */
module Prbs {
  import opened Words
  import opened PrbsSpec
  import opened PrbsLaws

  // Polynomials of maximum-length sequences, encoded constant term first
  // with the highest term dropped.
  const G7: bv32 := 0x0000_0041
  const G8: bv32 := 0x0000_008E
  const G15: bv32 := 0x0000_4001
  const G16: bv32 := 0x0000_8016
  const G23: bv32 := 0x0040_0010
  const G24: bv32 := 0x0080_000D
  const G31: bv32 := 0x4000_0004
  const G32: bv32 := 0x8000_0057

  /** Each listed polynomial has the degree its name gives, so setPoly
      sets the mask of that many ones and the high bit below it. */
  lemma Catalogue()
    ensures PolyOfDegree(G7, 7, 0x7F) && PolyOfDegree(G8, 8, 0xFF)
    ensures PolyOfDegree(G15, 15, 0x7FFF) && PolyOfDegree(G16, 16, 0xFFFF)
    ensures PolyOfDegree(G23, 23, 0x7F_FFFF) && PolyOfDegree(G24, 24, 0xFF_FFFF)
    ensures PolyOfDegree(G31, 31, 0x7FFF_FFFF) && PolyOfDegree(G32, 32, 0xFFFF_FFFF)
  {
    HasDegree(G7, 7, 0x7F);
    HasDegree(G8, 8, 0xFF);
    HasDegree(G15, 15, 0x7FFF);
    HasDegree(G16, 16, 0xFFFF);
    HasDegree(G23, 23, 0x7F_FFFF);
    HasDegree(G24, 24, 0xFF_FFFF);
    HasDegree(G31, 31, 0x7FFF_FFFF);
    HasDegree(G32, 32, 0xFFFF_FFFF);
  }

  /** A generator configured with a listed polynomial (as setPoly leaves
      it: PolyOfDegree(poly, degr, mask)) has exactly that degree and mask. */
  lemma CatalogueConfigured(p: bv32, d: nat, m: bv32)
    requires PolyOfDegree(p, d, m)
    ensures p == G7 ==> d == 7 && m == 0x7F
    ensures p == G8 ==> d == 8 && m == 0xFF
    ensures p == G15 ==> d == 15 && m == 0x7FFF
    ensures p == G16 ==> d == 16 && m == 0xFFFF
    ensures p == G23 ==> d == 23 && m == 0x7F_FFFF
    ensures p == G24 ==> d == 24 && m == 0xFF_FFFF
    ensures p == G31 ==> d == 31 && m == 0x7FFF_FFFF
    ensures p == G32 ==> d == 32 && m == 0xFFFF_FFFF
  {
    Catalogue();
    if p == G7 {
      DegreeUnique(p, d, m, 7, 0x7F);
    } else if p == G8 {
      DegreeUnique(p, d, m, 8, 0xFF);
    } else if p == G15 {
      DegreeUnique(p, d, m, 15, 0x7FFF);
    } else if p == G16 {
      DegreeUnique(p, d, m, 16, 0xFFFF);
    } else if p == G23 {
      DegreeUnique(p, d, m, 23, 0x7F_FFFF);
    } else if p == G24 {
      DegreeUnique(p, d, m, 24, 0xFF_FFFF);
    } else if p == G31 {
      DegreeUnique(p, d, m, 31, 0x7FFF_FFFF);
    } else if p == G32 {
      DegreeUnique(p, d, m, 32, 0xFFFF_FFFF);
    }
  }

  lemma HasDegree(p: bv32, d: nat, m: bv32)
    requires 1 <= d <= 32 && m == (if d == 32 then 0xFFFF_FFFF else ((1 as bv32) << d) - 1)
    requires m >> 1 < p <= m
    ensures PolyOfDegree(p, d, m)
  {
    OnesClosed(d);
  }

  class PrbsGenerator {
    var stat: bv32
    var poly: bv32
    var mask: bv32
    var hbit: bv32
    var degr: nat

    /** A polynomial is set, and mask, degree and high bit are derived
        from it: mask is the d low bits, d the degree, hbit bit d - 1. */
    ghost predicate Configured()
      reads this
    {
      PolyOfDegree(poly, degr, mask) && hbit == BitAt(degr - 1)
    }

    /** The register never holds bits outside the mask, and a nonzero
        polynomial is always a configured one. */
    ghost predicate Valid()
      reads this
    {
      Within(stat, mask) && (poly != 0 ==> Configured())
    }

    /** A generator without a polynomial. The high bit is left unset. */
    constructor ()
      ensures Valid()
      ensures stat == 0 && poly == 0 && mask == 0 && degr == 0
    {
      stat, poly, mask, degr := 0, 0, 0, 0;
    }

    /** Sets the polynomial, derives mask, degree and high bit from it by
        growing the mask one bit at a time until it covers the polynomial,
        and sets the register to all ones. */
    method SetPoly(p: bv32)
      requires p != 0
      modifies this
      ensures Valid() && Configured()
      ensures poly == p && stat == mask
      ensures PolyOfDegree(p, degr, mask) && hbit == BitAt(degr - 1)
    {
      var m: bv32 := 0;
      var d: nat := 0;
      while m < p
        invariant d <= 32 && m == Ones(d)
        invariant d > 0 ==> m >> 1 < p
        decreases 32 - d
      {
        OnesBelowFull(d, m, p);
        GrowMask(d, m, (m << 1) | 1);
        m := (m << 1) | 1;
        d := d + 1;
      }
      var h := (m >> 1) + 1;
      MaskDone(d, m, p, h);
      poly, mask, degr := p, m, d;
      stat := m;
      hbit := h;
    }

    /** Loads the register with the bits of s inside the mask; the result
        must not be the all-zero register. */
    method SetStat(s: bv32)
      requires Valid() && poly != 0
      requires s & mask != 0
      modifies this`stat
      ensures Valid() && stat != 0
      ensures stat == s & mask
    {
      var t := s & mask;
      MaskedWithin(s, mask, t);
      stat := t;
    }

    /** One step of the generator: returns the bit shifted out, and XORs in
        the polynomial when it is 1. A nonzero register stays nonzero. */
    method Step() returns (bit: Bit)
      requires Valid() && poly != 0
      modifies this`stat
      ensures Valid()
      ensures bit == Low(old(stat)) && stat == Next(old(stat), poly)
      ensures old(stat) != 0 ==> stat != 0
    {
      var t := stat;
      bit := Low(t);
      t := t >> 1;
      if bit == 1 {
        t := t ^ poly;
      }
      StepIsNext(stat, poly, bit, t, degr, mask);
      stat := t;
    }

    /** Forward synchronisation: drives the register with the degr low bits
        of `bits`, oldest (least significant) first, each bit deciding the
        feedback in place of the bit shifted out. */
    method SyncForw(bits: bv32)
      requires Valid() && poly != 0
      modifies this`stat
      ensures Valid()
      ensures stat == Forw(old(stat), poly, bits, degr)
    {
      var t := stat;
      var b := bits;
      var i := 0;
      while i < degr
        invariant i <= degr && Within(t, mask)
        invariant Forw(t, poly, b, degr - i) == Forw(old(stat), poly, bits, degr)
      {
        ghost var t0, b0, n := t, b, degr - i;
        t := t >> 1;
        if b & 1 == 1 {
          t := t ^ poly;
        }
        b := b >> 1;
        i := i + 1;
        ForwLoopStep(t0, poly, b0, n, t, b, degr, mask);
      }
      stat := t;
    }

    /** Backward synchronisation: computes the register whose next degr
        outputs are the degr low bits of `bits`, least significant first.
        The probe h walks from the high bit down to bit 0 as an unsigned
        word. */
    method SyncBack(bits: bv32)
      requires Valid() && poly != 0
      modifies this`stat
      ensures Valid()
      ensures stat == Back(bits, poly, mask, degr)
    {
      var t: bv32 := 0;
      var h := hbit;
      // j bits of the window remain to be visited, n have been; y holds
      // the window shifted right j times.
      ghost var j: nat, n: nat := degr, 0;
      ghost var y := Shr(bits, j);
      while h != 0
        invariant j + n == degr
        invariant j > 0 ==> h == BitAt(j - 1)
        invariant j == 0 ==> h == 0
        invariant y == Shr(bits, j) && t == BackAcc(y, poly, n)
        decreases j
      {
        ghost var k: nat := j - 1;
        ghost var t0, y0 := t, y;
        var feed := bits & h != 0;
        if feed {
          t := t ^ poly;
          FeedOn(poly, feed, t0, t);
        } else {
          FeedOff(poly, feed, t0, t);
        }
        ghost var t1 := t;
        t := t << 1;
        y := Shr(bits, k);
        BackLoopStep(bits, poly, k, j, n, n + 1, h, y0, y, feed, t0, t1, t);
        ProbeStep(k, h);
        h := h >> 1;
        j, n := k, n + 1;
      }
      ProbeDone(j, h);
      ShrNone(bits, y);
      ghost var a := t;
      t := t ^ bits;
      BackWindow(bits, poly, degr, a, t);
      ghost var g := t;
      t := t & mask;
      BackMasked(bits, poly, mask, degr, g, t);
      stat := t;
    }

    /** One CRC step with input bit b: feedback exactly when the bit
        shifted out differs from b. */
    method CrcIn(b: int)
      requires Valid() && poly != 0
      modifies this`stat
      ensures Valid()
      ensures stat == CrcNext(old(stat), poly, b)
    {
      var t := stat;
      var feed := Low(t) != b;
      t := t >> 1;
      if feed {
        t := t ^ poly;
      }
      CrcStepIsNext(stat, poly, b, feed, t, degr, mask);
      stat := t;
    }

    /** Drains one bit of the CRC remainder: returns the low bit and shifts
        right without feedback. */
    method CrcOut() returns (bit: Bit)
      requires Valid() && poly != 0
      modifies this`stat
      ensures Valid()
      ensures bit == Low(old(stat)) && stat == Shr(old(stat), 1)
    {
      var t := stat;
      bit := Low(t);
      t := t >> 1;
      OutKeepsValid(stat, degr, mask, t);
      stat := t;
    }
  }

  // ---- one loop iteration or one update at a time ----

  /** A mask below a nonzero word is not yet the full word. */
  lemma OnesBelowFull(d: nat, m: bv32, p: bv32)
    requires d <= 32 && m == Ones(d) && m < p
    ensures d < 32
  {
    if d == 32 {
      OnesClosed(d);
    }
  }

  /** Growing the mask by one bit gives the next mask, and the old mask
      is the new one shifted right. */
  lemma GrowMask(d: nat, m: bv32, m1: bv32)
    requires d < 32 && m == Ones(d) && m1 == (m << 1) | 1
    ensures m1 == Ones(d + 1) && m1 >> 1 == m
  {
    GrowOnes(d, m, m1);
    OnesShr(d + 1, m1, m);
  }

  lemma GrowOnes(d: nat, m: bv32, m1: bv32)
    requires d < 32 && m == Ones(d) && m1 == (m << 1) | 1
    ensures m1 == Ones(d + 1)
  {
    OnesSucc(d);
  }

  /** When the mask loop stops, the polynomial has degree d, and the high
      bit is bit d - 1. The loop runs at least once since p is not 0. */
  lemma MaskDone(d: nat, m: bv32, p: bv32, h: bv32)
    requires d <= 32 && m == Ones(d) && p != 0 && !(m < p)
    requires d > 0 ==> m >> 1 < p
    requires h == (m >> 1) + 1
    ensures PolyOfDegree(p, d, m) && h == BitAt(d - 1) && Within(m, m)
  {
    HighBit(d, m, BitAt(d - 1));
  }

  /** The word t with the polynomial XORed in when feed holds: the
      conditional update every loop of the generator makes. */
  function Feed(t: bv32, p: bv32, feed: bool): bv32 {
    if feed then t ^ p else t
  }

  lemma FeedOn(p: bv32, feed: bool, t0: bv32, t: bv32)
    requires feed && t == t0 ^ p
    ensures t == Feed(t0, p, feed)
  {
  }

  lemma FeedOff(p: bv32, feed: bool, t0: bv32, t: bv32)
    requires !feed && t == t0
    ensures t == Feed(t0, p, feed)
  {
  }

  /** The update of step() is Next, and keeps the register valid. */
  lemma StepIsNext(s: bv32, p: bv32, bit: Bit, t: bv32, d: nat, m: bv32)
    requires PolyOfDegree(p, d, m) && Within(s, m)
    requires bit == Low(s) && t == Shift(s, p, bit == 1)
    ensures t == Next(s, p) && Within(t, m) && (s != 0 ==> t != 0)
  {
    if s != 0 {
      NextStaysValid(s, p, d, m);
    }
  }

  /** The body of sync_forw's loop is one step of Forw. */
  lemma ForwLoopStep(s: bv32, p: bv32, x: bv32, n: nat, t: bv32, y: bv32, d: nat, m: bv32)
    requires n > 0 && PolyOfDegree(p, d, m) && Within(s, m)
    requires t == Shift(s, p, x & 1 == 1) && y == x >> 1
    ensures Within(t, m) && Forw(t, p, y, n - 1) == Forw(s, p, x, n)
  {
    ForwUnfold(s, p, x, n, t, y);
    PolyWithin(p, d, m);
    ShiftWithin(s, p, x & 1 == 1, m);
  }

  /** A polynomial of degree d fits in the mask of d ones, a mask of the
      form 2^d - 1. */
  lemma PolyWithin(p: bv32, d: nat, m: bv32)
    requires PolyOfDegree(p, d, m)
    ensures IsOnes(m) && Within(p, m)
  {
    OnesShape(d, m);
    OnesWithin(p, m);
  }

  lemma OnesWithin(p: bv32, m: bv32)
    requires IsOnes(m) && p <= m
    ensures Within(p, m)
  {
  }

  /** One iteration of the backward loop at probe bit k = j - 1: y0 and
      y are the window shifted right j and k times, n bits have been
      visited, and feed tells whether bit k of the window is set. */
  lemma BackLoopStep(x: bv32, p: bv32, k: nat, j: nat, n: nat, n1: nat, h: bv32,
                     y0: bv32, y: bv32, feed: bool, t0: bv32, t1: bv32, t: bv32)
    requires k < 32 && j == k + 1 && n1 == n + 1 && h == BitAt(k)
    requires y0 == Shr(x, j) && y == Shr(x, k)
    requires t0 == BackAcc(y0, p, n)
    requires feed == (x & h != 0)
    requires t1 == Feed(t0, p, feed) && t == t1 << 1
    ensures t == BackAcc(y, p, n1)
  {
    BackLoopShift(x, k, y0, y);
    BackLoopTest(x, k, h, y);
    BackLoopUnfold(y, y0, p, n1, t0, t1, t, feed);
  }

  lemma BackLoopShift(x: bv32, k: nat, y0: bv32, y: bv32)
    requires y0 == Shr(x, k + 1) && y == Shr(x, k)
    ensures y0 == y >> 1
  {
    ShrSucc(x, k);
  }

  lemma BackLoopTest(x: bv32, k: nat, h: bv32, y: bv32)
    requires k < 32 && h == BitAt(k) && y == Shr(x, k)
    ensures x & h != 0 <==> y & 1 == 1
  {
    ShrTestsBit(x, k, h);
  }

  lemma BackLoopUnfold(y: bv32, y0: bv32, p: bv32, n: nat, t0: bv32, t1: bv32, t: bv32, feed: bool)
    requires n > 0 && y0 == y >> 1 && (feed <==> y & 1 == 1)
    requires t0 == BackAcc(y0, p, n - 1)
    requires t1 == Feed(t0, p, feed) && t == t1 << 1
    ensures t == BackAcc(y, p, n)
  {
    if feed {
    } else {
    }
  }

  /** The probe moves from bit k to bit k - 1, and leaves bit 0 for 0. */
  lemma ProbeStep(k: nat, h: bv32)
    requires k < 32 && h == BitAt(k)
    ensures k > 0 ==> h >> 1 == BitAt(k - 1)
    ensures k == 0 ==> h >> 1 == 0
  {
    if k > 0 {
      BitAtHalf(k, h, BitAt(k - 1));
    }
  }

  /** The probe is 0 only once no bit remains to be visited. */
  lemma ProbeDone(j: nat, h: bv32)
    requires j <= 32 && (j > 0 ==> h == BitAt(j - 1)) && h == 0
    ensures j == 0
  {
    if j > 0 {
      BitAtNonzero(j - 1, h);
    }
  }

  /** After the loop, XORing in the window gives BackFull. */
  lemma BackWindow(x: bv32, p: bv32, d: nat, a: bv32, g: bv32)
    requires a == BackAcc(x, p, d) && g == a ^ x
    ensures g == BackFull(x, p, d)
  {
    BackFullDef(x, p, d);
  }

  lemma BackFullDef(x: bv32, p: bv32, d: nat)
    ensures BackFull(x, p, d) == BackAcc(x, p, d) ^ x
  {
  }

  /** No shift at all leaves the word as it is. */
  lemma ShrNone(x: bv32, y: bv32)
    requires y == Shr(x, 0)
    ensures y == x
  {
  }

  /** ... and masking it gives the register Back describes. */
  lemma BackMasked(x: bv32, p: bv32, m: bv32, d: nat, g: bv32, t: bv32)
    requires g == BackFull(x, p, d) && t == g & m
    ensures t == Back(x, p, m, d) && Within(t, m)
  {
    MaskedWithin(g, m, t);
  }

  /** The update of crc_in() is CrcNext, and keeps the register valid. */
  lemma CrcStepIsNext(s: bv32, p: bv32, b: int, feed: bool, t: bv32, d: nat, m: bv32)
    requires PolyOfDegree(p, d, m) && Within(s, m)
    requires feed == (Low(s) != b) && t == Shift(s, p, feed)
    ensures t == CrcNext(s, p, b) && Within(t, m)
  {
    PolyWithin(p, d, m);
    ShiftWithin(s, p, feed, m);
  }

  lemma OutKeepsValid(s: bv32, d: nat, m: bv32, t: bv32)
    requires d <= 32 && m == Ones(d) && Within(s, m) && t == s >> 1
    ensures t == Shr(s, 1) && Within(t, m)
  {
    OnesShape(d, m);
    ShrOnesWithin(s, m);
  }

  lemma ShrOnesWithin(s: bv32, m: bv32)
    requires IsOnes(m) && Within(s, m)
    ensures Within(s >> 1, m)
  {
  }
}
