/** What the shift-register operations guarantee, proved about the
    functions of PrbsSpec. */
module PrbsLaws {
  import opened Words
  import opened PrbsSpec

  // ---- the degree of a polynomial ----

  /** A polynomial has one degree, the one Degree finds, and so one mask:
      the mask loop of setPoly has only one place to stop. */
  lemma DegreeUnique(p: bv32, d: nat, m: bv32, e: nat, me: bv32)
    requires PolyOfDegree(p, d, m) && PolyOfDegree(p, e, me)
    ensures d == e && m == me && d == Degree(p)
  {
    DegreeFromIs(p, d, m, 0);
    DegreeFromIs(p, e, me, 0);
  }

  /** Searching from k ones up, for k at most the degree d, stops at d:
      every smaller mask lies below p, and the mask of d ones covers it. */
  lemma {:induction false} DegreeFromIs(p: bv32, d: nat, m: bv32, k: nat)
    requires PolyOfDegree(p, d, m) && k <= d
    ensures DegreeFrom(p, k) == d
    decreases d - k
  {
    if k < d {
      DegreeFromStep(p, d, m, k);
      DegreeFromIs(p, d, m, k + 1);
    } else {
      DegreeFromStop(p, k, m);
    }
  }

  /** Below the degree, the mask of k ones lies below p: it is covered by
      the mask of d - 1 ones, which lies below p. */
  lemma DegreeFromStep(p: bv32, d: nat, m: bv32, k: nat)
    requires PolyOfDegree(p, d, m) && k < d
    ensures DegreeFrom(p, k) == DegreeFrom(p, k + 1)
  {
    var mk, md1 := Ones(k), Ones(d - 1);
    OnesShr(d, m, md1);
    OnesCover(k, d - 1, mk, md1);
    CoveredBelow(mk, md1, p);
    DegreeFromNext(p, k, mk);
  }

  lemma DegreeFromNext(p: bv32, k: nat, mk: bv32)
    requires k < 32 && mk == Ones(k) && mk < p
    ensures DegreeFrom(p, k) == DegreeFrom(p, k + 1)
  {
  }

  lemma DegreeFromStop(p: bv32, k: nat, mk: bv32)
    requires k <= 32 && mk == Ones(k) && p <= mk
    ensures DegreeFrom(p, k) == k
  {
  }

  /** The mask of a ones lies within the mask of b ones when a <= b. */
  lemma OnesCover(a: nat, b: nat, ma: bv32, mb: bv32)
    requires a <= b <= 32 && ma == Ones(a) && mb == Ones(b)
    ensures Within(ma, mb)
  {
    if a < b {
      OnesMono(a, b, ma, mb);
      OnesShape(a, ma);
      OnesShape(b, mb);
      SmallerOnesWithin(ma, mb);
    }
  }

  lemma SmallerOnesWithin(a: bv32, b: bv32)
    requires IsOnes(a) && IsOnes(b) && a <= b
    ensures Within(a, b)
  {
  }

  lemma CoveredBelow(a: bv32, b: bv32, p: bv32)
    requires Within(a, b) && b < p
    ensures a < p
  {
  }

  // ---- stepping keeps the register in its valid range ----

  /** With a polynomial of degree d, a nonzero register within the mask
      stays nonzero and within the mask after one step: the feedback sets
      bit d - 1, which the shifted register never has. */
  lemma NextStaysValid(s: bv32, p: bv32, d: nat, m: bv32)
    requires PolyOfDegree(p, d, m) && Within(s, m) && s != 0
    ensures Within(Next(s, p), m) && Next(s, p) != 0
  {
    OnesShape(d, m);
    NextStaysValidBits(s, p, m);
  }

  lemma NextStaysValidBits(s: bv32, p: bv32, m: bv32)
    requires IsOnes(m) && m >> 1 < p <= m && Within(s, m) && s != 0
    ensures Within(Next(s, p), m) && Next(s, p) != 0
  {
  }

  /** The same holds for any number of steps. */
  lemma {:induction false} RunStaysValid(s: bv32, p: bv32, d: nat, m: bv32, n: nat)
    requires PolyOfDegree(p, d, m) && Within(s, m) && s != 0
    ensures Within(Run(s, p, n), m) && Run(s, p, n) != 0
    decreases n
  {
    if n > 0 {
      NextStaysValid(s, p, d, m);
      RunStaysValid(Next(s, p), p, d, m, n - 1);
    }
  }

  /** The all-zero register is absorbing: it stays 0 and outputs only 0. */
  lemma {:induction false} ZeroAbsorbs(p: bv32, n: nat)
    ensures Run(0, p, n) == 0
    ensures Outputs(0, p, n) == BitsOf(0, n)
    decreases n
  {
    if n > 0 {
      assert Next(0, p) == 0;
      ZeroAbsorbs(p, n - 1);
    }
  }

  // ---- the first n outputs ----

  lemma OutputsCongr(s: bv32, t: bv32, p: bv32, n: nat)
    requires n > 0 && Low(s) == Low(t)
    requires Outputs(Next(s, p), p, n - 1) == Outputs(Next(t, p), p, n - 1)
    ensures Outputs(s, p, n) == Outputs(t, p, n)
  {
  }

  lemma OutputsTail(s: bv32, t: bv32, p: bv32, n: nat)
    requires n > 0 && Outputs(s, p, n) == Outputs(t, p, n)
    ensures Low(s) == Low(t)
    ensures Outputs(Next(s, p), p, n - 1) == Outputs(Next(t, p), p, n - 1)
  {
    assert Outputs(s, p, n)[0] == Low(s);
    assert Outputs(Next(s, p), p, n - 1) == Outputs(s, p, n)[1..];
    assert Outputs(Next(t, p), p, n - 1) == Outputs(t, p, n)[1..];
  }

  lemma NextMasked(s: bv32, t: bv32, p: bv32, k: bv32, k1: bv32)
    requires k >> 1 == k1 && k & 1 == 1 && s & k == t & k
    ensures Low(s) == Low(t) && Next(s, p) & k1 == Next(t, p) & k1
  {
    NextMaskedBits(s, t, p, k, k1, Next(s, p), Next(t, p));
  }

  lemma NextMaskedBits(s: bv32, t: bv32, p: bv32, k: bv32, k1: bv32, a: bv32, b: bv32)
    requires k >> 1 == k1 && k & 1 == 1 && s & k == t & k
    requires a == (if s & 1 == 1 then (s >> 1) ^ p else s >> 1)
    requires b == (if t & 1 == 1 then (t >> 1) ^ p else t >> 1)
    ensures s & 1 == t & 1 && a & k1 == b & k1
  {
  }

  /** The first n outputs depend only on the n low bits of the register:
      bit i first reaches the output at step i. */
  lemma {:induction false} OutputsLow(s: bv32, t: bv32, p: bv32, n: nat, k: bv32)
    requires n <= 32 && k == Ones(n) && s & k == t & k
    ensures Outputs(s, p, n) == Outputs(t, p, n)
    decreases n
  {
    if n > 0 {
      var k1 := Ones(n - 1);
      OnesShr(n, k, k1);
      NextMasked(s, t, p, k, k1);
      OutputsLow(Next(s, p), Next(t, p), p, n - 1, k1);
      OutputsCongr(s, t, p, n);
    }
  }

  lemma NextOfEqualLow(s: bv32, t: bv32, p: bv32)
    requires Low(s) == Low(t)
    ensures Next(s, p) ^ Next(t, p) == (s ^ t) >> 1
    ensures Next(s, p) == Next(t, p) ==> s == t
  {
    NextOfEqualLowBits(s, t, p, Next(s, p), Next(t, p));
  }

  lemma NextOfEqualLowBits(s: bv32, t: bv32, p: bv32, a: bv32, b: bv32)
    requires s & 1 == t & 1
    requires a == (if s & 1 == 1 then (s >> 1) ^ p else s >> 1)
    requires b == (if t & 1 == 1 then (t >> 1) ^ p else t >> 1)
    ensures a ^ b == (s ^ t) >> 1
    ensures a == b ==> s == t
  {
    NextXorBits(s, t, p, a, b);
    if a == b {
      assert (s ^ t) >> 1 == 0;
      SameHalvesBits(s, t);
    }
  }

  lemma NextXorBits(s: bv32, t: bv32, p: bv32, a: bv32, b: bv32)
    requires s & 1 == t & 1
    requires a == (if s & 1 == 1 then (s >> 1) ^ p else s >> 1)
    requires b == (if t & 1 == 1 then (t >> 1) ^ p else t >> 1)
    ensures a ^ b == (s ^ t) >> 1
  {
  }

  lemma SameHalvesBits(s: bv32, t: bv32)
    requires (s ^ t) >> 1 == 0 && s & 1 == t & 1
    ensures s == t
  {
  }

  /** Two registers that differ only within the n low bits and give the
      same n outputs are equal: the first n outputs determine those bits. */
  lemma {:induction false} OutputsDetermineState(s: bv32, t: bv32, p: bv32, n: nat, k: bv32)
    requires n <= 32 && k == Ones(n) && Within(s ^ t, k)
    requires Outputs(s, p, n) == Outputs(t, p, n)
    ensures s == t
    decreases n
  {
    if n == 0 {
      EmptyMaskEqual(s, t, k);
    } else {
      var k1 := Ones(n - 1);
      OnesShr(n, k, k1);
      var a, b := Next(s, p), Next(t, p);
      OutputsTail(s, t, p, n);
      DetermineStep(s, t, p, k, k1, a, b);
      OutputsDetermineState(a, b, p, n - 1, k1);
    }
  }

  lemma EmptyMaskEqual(s: bv32, t: bv32, k: bv32)
    requires k == 0 && Within(s ^ t, k)
    ensures s == t
  {
  }

  lemma DetermineStep(s: bv32, t: bv32, p: bv32, k: bv32, k1: bv32, a: bv32, b: bv32)
    requires Low(s) == Low(t) && a == Next(s, p) && b == Next(t, p)
    requires Within(s ^ t, k) && k >> 1 == k1
    ensures Within(a ^ b, k1)
    ensures a == b ==> s == t
  {
    NextOfEqualLow(s, t, p);
    ShrWithin(s ^ t, k, k1);
  }

  // ---- backward synchronisation ----

  lemma BackStep(x: bv32, p: bv32, a: bv32, g: bv32)
    requires g == ((((if x & 1 == 1 then p else 0) ^ a) << 1) ^ x)
    ensures Low(g) == Low(x)
    ensures Next(g, p) & 0x7FFF_FFFF == (a ^ (x >> 1)) & 0x7FFF_FFFF
  {
    BackStepBits(x, p, a, g, Next(g, p));
  }

  lemma BackStepBits(x: bv32, p: bv32, a: bv32, g: bv32, h: bv32)
    requires g == ((((if x & 1 == 1 then p else 0) ^ a) << 1) ^ x)
    requires h == (if g & 1 == 1 then (g >> 1) ^ p else g >> 1)
    ensures g & 1 == x & 1
    ensures h & 0x7FFF_FFFF == (a ^ (x >> 1)) & 0x7FFF_FFFF
  {
  }

  lemma BelowTopAgree(u: bv32, v: bv32, k: bv32)
    requires u & 0x7FFF_FFFF == v & 0x7FFF_FFFF && k & 0x8000_0000 == 0
    ensures u & k == v & k
  {
  }

  lemma OutputsAsBits(g: bv32, x: bv32, p: bv32, n: nat)
    requires n > 0 && Low(g) == Low(x)
    requires Outputs(Next(g, p), p, n - 1) == BitsOf(x >> 1, n - 1)
    ensures Outputs(g, p, n) == BitsOf(x, n)
  {
  }

  /** The unmasked register of the backward synchronisation replays the n
      low bits of x, whatever the polynomial: bit k of the register is bit
      k of x corrected by the feedback the earlier outputs will cause. */
  lemma {:induction false} BackReplays(x: bv32, p: bv32, n: nat)
    requires n <= 32
    ensures Outputs(BackFull(x, p, n), p, n) == BitsOf(x, n)
    decreases n
  {
    if n > 0 {
      BackReplays(x >> 1, p, n - 1);
      BackReplaysFrom(x, p, n);
    }
  }

  lemma BackReplaysFrom(x: bv32, p: bv32, n: nat)
    requires 0 < n <= 32
    requires Outputs(BackFull(x >> 1, p, n - 1), p, n - 1) == BitsOf(x >> 1, n - 1)
    ensures Outputs(BackFull(x, p, n), p, n) == BitsOf(x, n)
  {
    BackReplaysNext(x, p, n, BackFull(x, p, n), BackFull(x >> 1, p, n - 1));
  }

  lemma BackReplaysNext(x: bv32, p: bv32, n: nat, g: bv32, g1: bv32)
    requires 0 < n <= 32 && g == BackAcc(x, p, n) ^ x
    requires g1 == BackAcc(x >> 1, p, n - 1) ^ (x >> 1)
    requires Outputs(g1, p, n - 1) == BitsOf(x >> 1, n - 1)
    ensures Outputs(g, p, n) == BitsOf(x, n)
  {
    var a := BackAcc(x >> 1, p, n - 1);
    var h := Next(g, p);
    BackAccStep(x, p, n, a, g, h);
    BackReplaysStep(x, p, n, g, h, g1);
  }

  /** One bit of the backward accumulator: the register's low bit is the
      window's, and one step later the register below the top bit is the
      accumulator of the rest of the window. */
  lemma BackAccStep(x: bv32, p: bv32, n: nat, a: bv32, g: bv32, h: bv32)
    requires n > 0 && a == BackAcc(x >> 1, p, n - 1) && g == BackAcc(x, p, n) ^ x
    requires h == Next(g, p)
    ensures Low(g) == Low(x) && h & 0x7FFF_FFFF == (a ^ (x >> 1)) & 0x7FFF_FFFF
  {
    BackAccUnfold(x, p, n, a, g);
    BackStep(x, p, a, g);
  }

  lemma BackAccUnfold(x: bv32, p: bv32, n: nat, a: bv32, g: bv32)
    requires n > 0 && a == BackAcc(x >> 1, p, n - 1) && g == BackAcc(x, p, n) ^ x
    ensures g == ((((if x & 1 == 1 then p else 0) ^ a) << 1) ^ x)
  {
  }

  lemma BackReplaysStep(x: bv32, p: bv32, n: nat, g: bv32, h: bv32, g1: bv32)
    requires 0 < n <= 32 && Low(g) == Low(x) && h == Next(g, p)
    requires h & 0x7FFF_FFFF == g1 & 0x7FFF_FFFF
    requires Outputs(g1, p, n - 1) == BitsOf(x >> 1, n - 1)
    ensures Outputs(g, p, n) == BitsOf(x, n)
  {
    var k1 := Ones(n - 1);
    OnesBelowTop(n - 1, k1);
    BelowTopAgree(h, g1, k1);
    OutputsLow(h, g1, p, n - 1, k1);
    OutputsAsBits(g, x, p, n);
  }

  /** The register left by the backward synchronisation makes the next d
      steps output the d low bits of x, least significant first, i.e. the
      bits of x & m. */
  lemma SyncBackReplays(x: bv32, p: bv32, d: nat, m: bv32)
    requires d <= 32 && m == Ones(d)
    ensures Within(Back(x, p, m, d), m)
    ensures Outputs(Back(x, p, m, d), p, d) == BitsOf(x, d)
    ensures Outputs(Back(x, p, m, d), p, d) == BitsOf(x & m, d)
  {
    var g := BackFull(x, p, d);
    var b := Back(x, p, m, d);
    MaskedWithin(g, m, b);
    OutputsLow(b, g, p, d, m);
    BackReplays(x, p, d);
    BitsOfMasked(x, d, m);
  }

  lemma MaskedWithin(g: bv32, m: bv32, b: bv32)
    requires b == g & m
    ensures Within(b, m) && b & m == g & m
  {
  }

  /** It is the only register within the mask that does so. */
  lemma SyncBackUnique(x: bv32, s: bv32, p: bv32, d: nat, m: bv32)
    requires d <= 32 && m == Ones(d) && Within(s, m)
    requires Outputs(s, p, d) == BitsOf(x, d)
    ensures s == Back(x, p, m, d)
  {
    var b := Back(x, p, m, d);
    SyncBackReplays(x, p, d, m);
    WithinXor(s, b, m);
    OutputsDetermineState(s, b, p, d, m);
  }

  lemma WithinXor(s: bv32, t: bv32, m: bv32)
    requires Within(s, m) && Within(t, m)
    ensures Within(s ^ t, m)
  {
  }

  /** The backward synchronisation leaves the all-zero register exactly
      when the window x & m is all zeros. */
  lemma SyncBackZero(x: bv32, p: bv32, d: nat, m: bv32)
    requires d <= 32 && m == Ones(d)
    ensures Back(x, p, m, d) == 0 <==> x & m == 0
  {
    var b, xm := Back(x, p, m, d), x & m;
    SyncBackReplays(x, p, d, m);
    ZeroAbsorbs(p, d);
    if b == 0 {
      MaskedWithin(x, m, xm);
      BitsOfZero(xm, d, m);
    }
    if xm == 0 {
      ZeroWithin(m);
      SyncBackUnique(x, 0, p, d, m);
    }
  }

  lemma ZeroWithin(m: bv32)
    ensures Within(0, m)
  {
  }

  // ---- forward synchronisation ----

  /** A change t of the register before a shift is t >> 1 after it. */
  lemma ShiftXorVars(s: bv32, t: bv32, p: bv32, feed: bool, u: bv32, s1: bv32, t1: bv32, v: bv32)
    requires u == s ^ t && s1 == Shift(s, p, feed) && t1 == t >> 1 && v == s1 ^ t1
    ensures Shift(u, p, feed) == v
  {
    ShiftXorBits(s, t, p, feed, u, s1, t1, v, Shift(u, p, feed));
  }

  lemma ShiftXorBits(s: bv32, t: bv32, p: bv32, feed: bool, u: bv32, s1: bv32, t1: bv32, v: bv32, w: bv32)
    requires u == s ^ t && t1 == t >> 1 && v == s1 ^ t1
    requires s1 == (if feed then (s >> 1) ^ p else s >> 1)
    requires w == (if feed then (u >> 1) ^ p else u >> 1)
    ensures w == v
  {
    if feed {
    } else {
    }
  }

  /** Driving the register is linear in its starting contents: a change t
      of the start is shifted out, one position per bit. */
  lemma {:induction false} ForwXor(s: bv32, t: bv32, p: bv32, x: bv32, n: nat)
    ensures Forw(s ^ t, p, x, n) == Forw(s, p, x, n) ^ Shr(t, n)
    decreases n
  {
    if n > 0 {
      var s1, t1, y := Shift(s, p, x & 1 == 1), t >> 1, x >> 1;
      ForwXor(s1, t1, p, y, n - 1);
      ForwXorStep(s, t, p, x, n, s1, t1, y);
    }
  }

  lemma ForwXorStep(s: bv32, t: bv32, p: bv32, x: bv32, n: nat, s1: bv32, t1: bv32, y: bv32)
    requires n > 0 && s1 == Shift(s, p, x & 1 == 1) && t1 == t >> 1 && y == x >> 1
    requires Forw(s1 ^ t1, p, y, n - 1) == Forw(s1, p, y, n - 1) ^ Shr(t1, n - 1)
    ensures Forw(s ^ t, p, x, n) == Forw(s, p, x, n) ^ Shr(t, n)
  {
    ForwXorUnfold(s, t, p, x, n, s1, t1, y);
    ForwUnfold(s, p, x, n, s1, y);
    ShrUnfold(t, n, t1);
  }

  lemma ForwXorUnfold(s: bv32, t: bv32, p: bv32, x: bv32, n: nat, s1: bv32, t1: bv32, y: bv32)
    requires n > 0 && s1 == Shift(s, p, x & 1 == 1) && t1 == t >> 1 && y == x >> 1
    ensures Forw(s ^ t, p, x, n) == Forw(s1 ^ t1, p, y, n - 1)
  {
    ForwXorUnfoldVars(s, t, p, x, n, s1, t1, y, s ^ t, s1 ^ t1);
  }

  lemma ForwXorUnfoldVars(s: bv32, t: bv32, p: bv32, x: bv32, n: nat, s1: bv32, t1: bv32, y: bv32,
                          u: bv32, v: bv32)
    requires n > 0 && s1 == Shift(s, p, x & 1 == 1) && t1 == t >> 1 && y == x >> 1
    requires u == s ^ t && v == s1 ^ t1
    ensures Forw(u, p, x, n) == Forw(v, p, y, n - 1)
  {
    ShiftXorVars(s, t, p, x & 1 == 1, u, s1, t1, v);
    ForwUnfold(u, p, x, n, v, y);
  }

  lemma ForwUnfold(s: bv32, p: bv32, x: bv32, n: nat, s1: bv32, y: bv32)
    requires n > 0 && s1 == Shift(s, p, x & 1 == 1) && y == x >> 1
    ensures Forw(s, p, x, n) == Forw(s1, p, y, n - 1)
  {
  }

  lemma ShrUnfold(t: bv32, n: nat, t1: bv32)
    requires n > 0 && t1 == t >> 1
    ensures Shr(t, n) == Shr(t1, n - 1)
  {
  }

  /** The forward synchronisation over d bits forgets the register it
      started from, as long as that register was within the mask. */
  lemma SyncForwForgets(s: bv32, s0: bv32, p: bv32, x: bv32, d: nat, m: bv32)
    requires d <= 32 && m == Ones(d) && Within(s, m) && Within(s0, m)
    ensures Forw(s, p, x, d) == Forw(s0, p, x, d)
  {
    var t := s ^ s0;
    WithinXor(s, s0, m);
    ShrEmpties(t, d, m);
    ForwXor(s0, t, p, x, d);
    ForgetJoin(s, s0, t, p, x, d);
  }

  lemma ForgetJoin(s: bv32, s0: bv32, t: bv32, p: bv32, x: bv32, d: nat)
    requires t == s ^ s0 && Shr(t, d) == 0
    requires Forw(s0 ^ t, p, x, d) == Forw(s0, p, x, d) ^ Shr(t, d)
    ensures Forw(s, p, x, d) == Forw(s0, p, x, d)
  {
    XorCancel(s, s0, t);
  }

  lemma XorCancel(s: bv32, s0: bv32, t: bv32)
    requires t == s ^ s0
    ensures s0 ^ t == s
  {
  }

  lemma OutputsBitsTail(s: bv32, p: bv32, x: bv32, n: nat)
    requires n > 0 && Outputs(s, p, n) == BitsOf(x, n)
    ensures Low(s) == Low(x)
    ensures Outputs(Next(s, p), p, n - 1) == BitsOf(x >> 1, n - 1)
  {
    assert Outputs(s, p, n)[0] == Low(s);
    assert Outputs(Next(s, p), p, n - 1) == Outputs(s, p, n)[1..];
    assert BitsOf(x >> 1, n - 1) == BitsOf(x, n)[1..];
  }

  /** Stepping is driving the register by its own outputs. */
  lemma {:induction false} RunFollowsOutputs(s: bv32, p: bv32, x: bv32, n: nat)
    requires Outputs(s, p, n) == BitsOf(x, n)
    ensures Run(s, p, n) == Forw(s, p, x, n)
    decreases n
  {
    if n > 0 {
      OutputsBitsTail(s, p, x, n);
      assert Next(s, p) == Shift(s, p, x & 1 == 1);
      RunFollowsOutputs(Next(s, p), p, x >> 1, n - 1);
    }
  }

  /** The forward synchronisation over the window x puts the register,
      whatever it held within the mask, in the state that any register
      within the mask reaches after d steps whose outputs, oldest first,
      are the bits of x. */
  lemma SyncForwHistory(s: bv32, s0: bv32, p: bv32, x: bv32, d: nat, m: bv32)
    requires d <= 32 && m == Ones(d) && Within(s, m) && Within(s0, m)
    requires Outputs(s, p, d) == BitsOf(x, d)
    ensures Run(s, p, d) == Forw(s0, p, x, d)
  {
    RunFollowsOutputs(s, p, x, d);
    SyncForwForgets(s, s0, p, x, d, m);
  }

  /** The two synchronisations agree: synchronising backward to x and
      stepping d times gives the register synchronised forward to x. */
  lemma SyncDuality(x: bv32, s0: bv32, p: bv32, d: nat, m: bv32)
    requires d <= 32 && m == Ones(d) && Within(s0, m)
    ensures Run(Back(x, p, m, d), p, d) == Forw(s0, p, x, d)
  {
    SyncBackReplays(x, p, d, m);
    SyncForwHistory(Back(x, p, m, d), s0, p, x, d, m);
  }

  /** With a polynomial of degree d, the forward synchronisation leaves the
      all-zero register exactly when the window x & m is all zeros. */
  lemma SyncForwZero(x: bv32, s0: bv32, p: bv32, d: nat, m: bv32)
    requires PolyOfDegree(p, d, m) && Within(s0, m)
    ensures Forw(s0, p, x, d) == 0 <==> x & m == 0
  {
    SyncDuality(x, s0, p, d, m);
    SyncBackZero(x, p, d, m);
    SyncBackReplays(x, p, d, m);
    ZeroAbsorbs(p, d);
    if x & m != 0 {
      RunStaysValid(Back(x, p, m, d), p, d, m, d);
    }
  }

  /** Driving keeps the register within the mask. */
  lemma {:induction false} ForwWithin(s: bv32, p: bv32, x: bv32, n: nat, m: bv32)
    requires IsOnes(m) && Within(s, m) && Within(p, m)
    ensures Within(Forw(s, p, x, n), m)
    decreases n
  {
    if n > 0 {
      ShiftWithin(s, p, x & 1 == 1, m);
      ForwWithin(Shift(s, p, x & 1 == 1), p, x >> 1, n - 1, m);
    }
  }

  lemma ShiftWithin(s: bv32, p: bv32, feed: bool, m: bv32)
    requires IsOnes(m) && Within(s, m) && Within(p, m)
    ensures Within(Shift(s, p, feed), m)
  {
  }

  // ---- CRC accumulation ----

  /** Feeding a 0 data bit is one step of the generator. */
  lemma CrcZeroIsStep(s: bv32, p: bv32)
    ensures CrcNext(s, p, 0) == Next(s, p)
  {
    assert (Low(s) != 0) == (s & 1 == 1);
  }

  /** Feeding data bit b is a step of the register with b XORed into its
      low bit. */
  lemma CrcFlip(s: bv32, p: bv32, b: int)
    requires b == 0 || b == 1
    ensures CrcNext(s, p, b) == Next(s ^ (if b == 1 then 1 else 0), p)
  {
  }

  /** A run of n zero data bits is n steps of the generator; in particular
      the all-zero register fed with zeros stays 0. */
  lemma {:induction false} CrcZeros(s: bv32, p: bv32, n: nat)
    ensures CrcFeed(s, p, seq(n, _ => 0)) == Run(s, p, n)
    ensures s == 0 ==> CrcFeed(s, p, seq(n, _ => 0)) == 0
    decreases n
  {
    if n > 0 {
      var zs := seq(n, _ => 0);
      assert zs[0] == 0 && zs[1..] == seq(n - 1, _ => 0);
      CrcZeros(Next(s, p), p, n - 1);
    }
    if s == 0 {
      ZeroAbsorbs(p, n);
    }
  }

  /** Feeding a stream in two parts is feeding it at once. */
  lemma {:induction false} CrcFeedAppend(s: bv32, p: bv32, a: seq<int>, b: seq<int>)
    ensures CrcFeed(s, p, a + b) == CrcFeed(CrcFeed(s, p, a), p, b)
    decreases |a|
  {
    if a != [] {
      assert (a + b)[0] == a[0] && (a + b)[1..] == a[1..] + b;
      assert CrcFeed(s, p, a) == CrcFeed(CrcNext(s, p, a[0]), p, a[1..]);
      CrcFeedAppend(CrcNext(s, p, a[0]), p, a[1..], b);
    } else {
      assert a + b == b;
    }
  }

  /** Feeding data keeps the register within the mask. */
  lemma {:induction false} CrcFeedWithin(s: bv32, p: bv32, bs: seq<int>, m: bv32)
    requires IsOnes(m) && Within(s, m) && Within(p, m)
    ensures Within(CrcFeed(s, p, bs), m)
    decreases |bs|
  {
    if bs != [] {
      ShiftWithin(s, p, Low(s) != bs[0], m);
      CrcFeedWithin(CrcNext(s, p, bs[0]), p, bs[1..], m);
    }
  }

  /** Draining the remainder: d shifts without feedback (the outputs are
      BitsOf(s, d), bit i of s at call i) empty a register within the mask
      of d ones. */
  lemma DrainRemainder(s: bv32, d: nat, m: bv32, i: nat)
    requires d <= 32 && m == Ones(d) && Within(s, m) && i < d
    ensures Shr(s, d) == 0
    ensures BitsOf(s, d)[i] == 1 <==> s & BitAt(i) != 0
  {
    ShrEmpties(s, d, m);
    BitsOfIndex(s, d, i);
  }
}
