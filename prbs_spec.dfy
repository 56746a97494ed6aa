/** The shift-register algebra of the generator, as functions on words.

    The register is a 32-bit word `s`, the polynomial a word `p` (bit i is
    the coefficient of x^i, the highest term dropped) and `m` the mask of
    the `d` low bits, d being the polynomial's degree. One step of the
    generator shifts the register right by one and, when the bit shifted
    out was 1, XORs in the polynomial: this is division by the polynomial
    over GF(2) in the "software form". */
module PrbsSpec {
  import opened Words

  // ---- the operations of the register, one bit at a time ----

  /** Shift right by one and, when `feed` holds, XOR in the polynomial.
      Every per-bit operation of the generator is this, with a different
      rule for `feed`. */
  function Shift(s: bv32, p: bv32, feed: bool): bv32 {
    if feed then (s >> 1) ^ p else s >> 1
  }

  /** One step of the generator: feedback exactly when the low bit is 1. */
  function Next(s: bv32, p: bv32): bv32 {
    Shift(s, p, s & 1 == 1)
  }

  /** The register after n steps. */
  function Run(s: bv32, p: bv32, n: nat): bv32
    decreases n
  {
    if n == 0 then s else Run(Next(s, p), p, n - 1)
  }

  /** The bits returned by n steps, first output first. */
  function Outputs(s: bv32, p: bv32, n: nat): (r: seq<Bit>)
    ensures |r| == n
    decreases n
  {
    if n == 0 then [] else [Low(s)] + Outputs(Next(s, p), p, n - 1)
  }

  /** The register after being driven by the n low bits of x, oldest
      (least significant) first: each bit decides the feedback in place of
      the bit shifted out of the register. */
  function Forw(s: bv32, p: bv32, x: bv32, n: nat): bv32
    decreases n
  {
    if n == 0 then s else Forw(Shift(s, p, x & 1 == 1), p, x >> 1, n - 1)
  }

  /** The accumulator of the backward synchronisation over the n low bits
      of x: bit k of x, when set, contributes the polynomial shifted left by
      k + 1. Processing x from its high bit down, as the loop does, gives
      this value bit by bit. */
  function BackAcc(x: bv32, p: bv32, n: nat): bv32
    decreases n
  {
    if n == 0 then 0
    else ((if x & 1 == 1 then p else 0) ^ BackAcc(x >> 1, p, n - 1)) << 1
  }

  /** The accumulator with the window XORed in, before masking. */
  function BackFull(x: bv32, p: bv32, n: nat): bv32 {
    BackAcc(x, p, n) ^ x
  }

  /** The register the backward synchronisation computes for the window x. */
  function Back(x: bv32, p: bv32, m: bv32, d: nat): bv32 {
    BackFull(x, p, d) & m
  }

  /** One CRC input step with data bit b: feedback exactly when the bit
      shifted out differs from b. The source XORs the two as ints and tests
      the result for zero, which is the same test for every int b. */
  function CrcNext(s: bv32, p: bv32, b: int): bv32 {
    Shift(s, p, Low(s) != b)
  }

  /** The register after a whole input bit stream, first bit first. */
  function CrcFeed(s: bv32, p: bv32, bs: seq<int>): bv32
    decreases |bs|
  {
    if bs == [] then s else CrcFeed(CrcNext(s, p, bs[0]), p, bs[1..])
  }

  /** The number of ones a mask needs to cover p, trying k ones first and
      then one more at a time: the count setPoly's loop arrives at. */
  function DegreeFrom(p: bv32, k: nat): nat
    requires k <= 32
    decreases 32 - k
  {
    if k == 32 || p <= Ones(k) then k else DegreeFrom(p, k + 1)
  }

  /** The degree of p. */
  function Degree(p: bv32): nat {
    DegreeFrom(p, 0)
  }

  /** A configured polynomial of degree d: its highest kept term is bit
      d - 1, so m >> 1 < p <= m for the mask m of d ones. */
  predicate PolyOfDegree(p: bv32, d: nat, m: bv32) {
    1 <= d <= 32 && m == Ones(d) && m >> 1 < p <= m
  }
}
