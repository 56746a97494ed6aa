/** sync_back as the source writes it, with its probe declared `int h`.

    The probe starts from the unsigned high bit. For a polynomial of degree
    32 that bit is bit 31, which reads as a negative number in a 32-bit
    two's-complement int. Shifting a negative int right is an arithmetic
    shift, which never reaches 0, so the loop `for (h = _hbit; h; h >>= 1)`
    never ends. The model of the class (Prbs.PrbsGenerator.SyncBack) walks
    the probe as an unsigned word instead, which ends after degr steps. */
module SignedProbe {
  import opened Words
  import opened PrbsSpec
  import opened PrbsLaws
  import opened Prbs

  /** The int a 32-bit word becomes when stored in a 32-bit
      two's-complement int, as in `int h = _hbit`. */
  function AsInt32(u: bv32): (r: int)
    ensures -0x8000_0000 <= r < 0x8000_0000
    ensures u == 0x8000_0000 ==> r == -0x8000_0000
  {
    if u < 0x8000_0000 then u as int else u as int - 0x1_0000_0000
  }

  /** `h >>= 1` on an int: an arithmetic shift, which rounds toward minus
      infinity, as division by 2 does here. It keeps the sign, and shrinks
      a positive value. */
  function Asr(h: int): (r: int)
    ensures h < 0 ==> h <= r < 0
    ensures h > 0 ==> 0 <= r < h
    ensures h == 0 ==> r == 0
  {
    h / 2
  }

  /** The signed probe after n iterations of the loop. */
  function Probe(h: int, n: nat): int
    decreases n
  {
    if n == 0 then h else Probe(Asr(h), n - 1)
  }

  /** A negative probe stays negative however many iterations run, so the
      loop test `h` never fails. */
  lemma {:induction false} NegativeProbeNeverEnds(h: int, n: nat)
    requires h < 0
    ensures Probe(h, n) < 0
    decreases n
  {
    if n > 0 {
      NegativeProbeNeverEnds(Asr(h), n - 1);
    }
  }

  /** As written, sync_back never returns once setPoly has been given G32:
      the degree is 32, the high bit is bit 31, and the signed probe that
      starts from it stays nonzero after any number n of iterations. */
  lemma G32Hangs(d: nat, m: bv32, h: bv32, n: nat)
    requires PolyOfDegree(G32, d, m) && h == BitAt(d - 1)
    ensures d == 32 && Probe(AsInt32(h), n) < 0
  {
    CatalogueConfigured(G32, d, m);
    BitAtClosed(31);
    NegativeProbeNeverEnds(AsInt32(h), n);
  }

  /** The unsigned probe of the corrected loop visits exactly d bits: it is
      still nonzero (it is 1) after d - 1 halvings and 0 after d. */
  lemma UnsignedProbeEnds(d: nat, h: bv32)
    requires 1 <= d <= 32 && h == BitAt(d - 1)
    ensures Shr(h, d - 1) == 1 && Shr(h, d) == 0
  {
    ProbeReachesOne(d - 1, h);
    ShrSucc(h, d - 1);
  }

  lemma {:induction false} ProbeReachesOne(k: nat, h: bv32)
    requires k < 32 && h == BitAt(k)
    ensures Shr(h, k) == 1
    decreases k
  {
    if k > 0 {
      var h1 := BitAt(k - 1);
      BitAtHalf(k, h, h1);
      ProbeReachesOne(k - 1, h1);
    }
  }
}
