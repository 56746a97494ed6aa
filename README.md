# PRBS generator: a verified model

This project models `PRBSGenerator`, the pseudo-random binary sequence generator of
qjackaudio's jnoise library. The generator is a shift register of up to 32 bits that
divides by a polynomial over GF(2) in the "software form". Each step shifts the
register right by one. When the bit shifted out is 1, the step XORs the register with
the polynomial's bit pattern. The polynomial's bit i is the coefficient of x^i, and its
highest term is dropped. The same register also serves as a serial CRC: `crc_in`
accumulates and `crc_out` drains.

The project has four modules and one more for a finding:

- `Words` (words.dfy) holds 32-bit word helpers:
  - `Ones(d)`, the mask of d low bits (2^d − 1);
  - `BitAt(k)`, the single bit 2^k;
  - `Shr(x, n)`, a shift right by n, one position at a time;
  - `BitsOf(x, n)`, the n low bits of x, least significant first;
  - facts about these.
- `PrbsSpec` (prbs_spec.dfy) holds the register's algebra as functions:
  - `Next`, one step;
  - `Run`, n steps;
  - `Outputs`, the first n output bits;
  - `Forw`, the register driven by a bit window;
  - `BackAcc`/`BackFull`/`Back`, the backward synchronisation;
  - `CrcNext`/`CrcFeed`, the CRC input;
  - `Degree` and `PolyOfDegree`, the degree of a polynomial and the mask that goes with it.
- `PrbsLaws` (prbs_laws.dfy) proves what those functions guarantee.
- `Prbs` (prbs.dfy) holds:
  - the class `PrbsGenerator`, with the source's fields `stat`, `poly`, `mask`, `hbit` and `degr`;
  - one method per member function, following the source's statements and loops;
  - the catalogue constants `G7`…`G32`.

  Each method states the new register as a function of the old one, and the laws give
  the meaning.
- `SignedProbe` (signed_probe.dfy) models `sync_back`'s loop as written, with a signed
  probe. It exhibits the finding below.

The class invariant `Valid()` says two things:

- the register holds no bit outside the mask;
- once a polynomial is set, `Configured()` holds: `poly` has degree `degr`, `mask` has
  `degr` ones, and `hbit` is bit `degr - 1`.

The source's `assert`s become `requires` clauses:

- a polynomial must be set before any operation except `setPoly`;
- `setPoly` needs a nonzero polynomial;
- `setStat` needs a nonzero masked state.

The two synchronisations are duals.

- `sync_back(x)` makes the next `degr` outputs be the bits of `x`, least significant
  first.
- `sync_forw(x)` makes the register look as if its last `degr` outputs had been the bits
  of `x`, oldest first. It does not make the following outputs reproduce `x`.

`SyncDuality` ties the two together: `sync_back(x)` followed by `degr` steps leaves the
register `sync_forw(x)` sets.

## Model

| member | source | states |
|---|---|---|
| Prbs.PrbsGenerator.constructor | libqjackaudio/include/jnoise/prbsgenerator.h:149-152 | register, polynomial, mask and degree start at 0. No polynomial is set, so the invariant holds trivially. |
| Prbs.PrbsGenerator.SetPoly | libqjackaudio/include/jnoise/prbsgenerator.h:160-175 | For every nonzero p the mask-growing loop ends, with `poly == p`. `mask` is the least word of d ones that covers p (`mask >> 1 < p <= mask`), with `1 <= degr <= 32`. `hbit` is bit `degr - 1`, and the register is all ones (`stat == mask`). |
| Prbs.PrbsGenerator.SetStat | libqjackaudio/include/jnoise/prbsgenerator.h:178-185 | The register becomes `s & mask` and is nonzero. Only `stat` changes. |
| Prbs.PrbsGenerator.Step | libqjackaudio/include/jnoise/prbsgenerator.h:188-199 | Returns the old low bit. The register becomes `Next` of the old one (shift right, XOR the polynomial exactly when the bit out was 1). A nonzero register stays nonzero and within the mask. Only `stat` changes. |
| Prbs.PrbsGenerator.SyncForw | libqjackaudio/include/jnoise/prbsgenerator.h:202-212 | The loop drives the register with the `degr` low bits of the window, oldest first. The result is `Forw(old stat, poly, bits, degr)`, within the mask. |
| Prbs.PrbsGenerator.SyncBack | libqjackaudio/include/jnoise/prbsgenerator.h:215-227 | The probe walks from the high bit down to bit 0 and ends after `degr` iterations. The register becomes `Back(bits, poly, mask, degr)`: the accumulated polynomial multiples XOR the window, masked. |
| Prbs.PrbsGenerator.CrcIn | libqjackaudio/include/jnoise/prbsgenerator.h:230-239 | The register becomes `CrcNext(old stat, poly, b)`: feedback exactly when the bit shifted out differs from b. It stays within the mask. |
| Prbs.PrbsGenerator.CrcOut | libqjackaudio/include/jnoise/prbsgenerator.h:242-251 | Returns the old low bit and shifts right with no feedback. The register stays within the mask. |
| Prbs.Catalogue | libqjackaudio/include/jnoise/prbsgenerator.h:106-118 | Each listed polynomial G7…G32 has the degree its name gives: G7 has mask 0x7F, and so on up to G32 with mask 0xFFFF_FFFF. |
| Prbs.CatalogueConfigured | libqjackaudio/include/jnoise/prbsgenerator.h:160-175 | After `setPoly` with a listed polynomial, degree and mask are exactly those of its name: G7 gives degree 7 and mask 0x7F, G8 gives degree 8 and mask 0xFF, …, G32 gives degree 32 and mask 0xFFFF_FFFF. |
| PrbsLaws.DegreeUnique | libqjackaudio/include/jnoise/prbsgenerator.h:168-172 | A polynomial has exactly one degree and one mask: the one `Degree` finds by trying masks of 0, 1, 2, … ones. So the loop of `setPoly` has one possible result. |
| PrbsLaws.NextStaysValid | libqjackaudio/include/jnoise/prbsgenerator.h:188-199 | With a polynomial of degree d, one step keeps a nonzero register within the mask nonzero and within the mask. |
| PrbsLaws.RunStaysValid | libqjackaudio/include/jnoise/prbsgenerator.h:188-199 | The same holds for any number of steps. |
| PrbsLaws.ZeroAbsorbs | libqjackaudio/include/jnoise/prbsgenerator.h:188-199 | The all-zero register stays zero and outputs only zeros. |
| PrbsLaws.OutputsLow | libqjackaudio/include/jnoise/prbsgenerator.h:188-199 | The first n outputs depend only on the n low bits of the register. |
| PrbsLaws.OutputsDetermineState | libqjackaudio/include/jnoise/prbsgenerator.h:188-199 | Conversely, two registers that differ only in the n low bits and give the same n outputs are equal. |
| PrbsLaws.BackReplays | libqjackaudio/include/jnoise/prbsgenerator.h:215-227 | Before masking, the backward-synchronised register replays the n low bits of the window, whatever the polynomial. |
| PrbsLaws.SyncBackReplays | libqjackaudio/include/jnoise/prbsgenerator.h:91-96 | After `sync_back(x)`, the register lies within the mask. Its next `degr` outputs are the bits of `x` (equivalently of `x & mask`), least significant first. |
| PrbsLaws.SyncBackUnique | libqjackaudio/include/jnoise/prbsgenerator.h:91-96 | It is the only register within the mask with that property. |
| PrbsLaws.SyncBackZero | libqjackaudio/include/jnoise/prbsgenerator.h:215-227 | `sync_back(x)` leaves the all-zero register exactly when `x & mask` is 0. |
| PrbsLaws.ForwXor | libqjackaudio/include/jnoise/prbsgenerator.h:202-212 | Driving is linear in the starting register: a change t of the start is `t` shifted right n times after n bits. |
| PrbsLaws.SyncForwForgets | libqjackaudio/include/jnoise/prbsgenerator.h:82-88 | `sync_forw(x)` leaves the same register whatever register within the mask it started from. |
| PrbsLaws.RunFollowsOutputs | libqjackaudio/include/jnoise/prbsgenerator.h:202-212 | Stepping is driving the register with its own outputs. |
| PrbsLaws.SyncForwHistory | libqjackaudio/include/jnoise/prbsgenerator.h:82-88 | Take any register within the mask whose next `degr` outputs, oldest first, are the bits of `x`. After those steps it is in the state `sync_forw(x)` sets, as if its last `degr` outputs had been `x`. |
| PrbsLaws.SyncDuality | libqjackaudio/include/jnoise/prbsgenerator.h:82-96 | `sync_back(x)` followed by `degr` steps gives the register `sync_forw(x)` sets. |
| PrbsLaws.SyncForwZero | libqjackaudio/include/jnoise/prbsgenerator.h:202-212 | `sync_forw(x)` leaves the all-zero register exactly when `x & mask` is 0. |
| PrbsLaws.ForwWithin | libqjackaudio/include/jnoise/prbsgenerator.h:202-212 | Driving keeps the register within the mask. |
| PrbsLaws.CrcZeroIsStep | libqjackaudio/include/jnoise/prbsgenerator.h:230-239 | `crc_in(0)` is one `step()`. |
| PrbsLaws.CrcFlip | libqjackaudio/include/jnoise/prbsgenerator.h:230-239 | `crc_in(b)` for b in {0, 1} is a step of the register with b XORed into its low bit. |
| PrbsLaws.CrcZeros | libqjackaudio/include/jnoise/prbsgenerator.h:230-239 | n zero data bits are n steps. A zero register fed zeros stays zero. |
| PrbsLaws.CrcFeedAppend | libqjackaudio/include/jnoise/prbsgenerator.h:230-239 | Feeding a stream in two parts gives the same register as feeding it at once. |
| PrbsLaws.CrcFeedWithin | libqjackaudio/include/jnoise/prbsgenerator.h:230-239 | Feeding data keeps the register within the mask. |
| PrbsLaws.DrainRemainder | libqjackaudio/include/jnoise/prbsgenerator.h:242-251 | From a register within the mask of d ones, d `crc_out` shifts leave 0. Their outputs (`BitsOf`) are the register's bits, least significant first. |
| SignedProbe.AsInt32 | libqjackaudio/include/jnoise/prbsgenerator.h:220 | The probe as a 32-bit signed int lies in the int32 range. The high bit 0x8000_0000 becomes −2^31. |
| SignedProbe.Asr | libqjackaudio/include/jnoise/prbsgenerator.h:220 | `h >>= 1` on an int keeps the sign. It shrinks a positive probe and leaves a negative one negative. |
| SignedProbe.NegativeProbeNeverEnds | libqjackaudio/include/jnoise/prbsgenerator.h:220 | A negative probe is still negative, so still true, after any number of iterations. |
| SignedProbe.G32Hangs | libqjackaudio/include/jnoise/prbsgenerator.h:215-227 | As written, with `G32` set, the degree is 32 and the signed probe never reaches 0, so `sync_back` does not return. |
| SignedProbe.UnsignedProbeEnds | libqjackaudio/include/jnoise/prbsgenerator.h:220 | An unsigned probe starting at bit d − 1 is 1 after d − 1 halvings and 0 after d, so the corrected loop visits exactly d bits. |

## Left out

- The "hardware form" encoding of a polynomial (highest exponent first, constant term
  dropped) is a caller convention. The class cannot tell it from the software form, and
  nothing in the model depends on it.
- The maximal period 2^d − 1 of the catalogue polynomials is a number-theoretic fact
  about the constants, not something the class ensures. It is not proved.
- Prbs.PrbsGenerator.constructor: the source leaves `_hbit` uninitialised. The model
  leaves `hbit` unconstrained, and nothing depends on it until `setPoly` sets it.
- The accessors `stat()`, `poly()`, `mask()`, `hbit()` and `degr()` return a field each.
  In the model they are the fields themselves.
- `_degr` is an `int` in the source. The model uses `nat`, since the degree is always
  0 or 1..32.
- The source's `assert`s are preconditions here. Their abort-at-run-time behaviour in a
  debug build is not modelled.
- Each method computes the new register in a local variable and stores it into `stat`
  once, where the source updates `_stat` statement by statement. The fields are
  private and the class is used by a single thread, so nothing can observe the
  intermediate values.
- The destructor does nothing and is not modelled. So is everything of the library
  outside this class: JACK client glue, audio buffers, threading.
- Prbs.PrbsGenerator.SyncBack: the probe is an unsigned word, not the source's signed
  `int`. The signed loop as written is modelled separately in `SignedProbe` (see
  Findings).

## Findings

| source | as written | input that shows it | evidently intended | confidence | as-written member | corrected member |
|---|---|---|---|---|---|---|
| libqjackaudio/include/jnoise/prbsgenerator.h:220 | The `sync_back` probe is a signed `int`, initialised from the unsigned `_hbit` and halved with `>>=` until it is 0. For degree 32, `_hbit` is 0x8000_0000, which becomes −2^31 as a two's-complement int. An arithmetic right shift of a negative int never reaches 0: it ends at −1. | `setPoly(G32)` followed by `sync_back(x)` for any x: the loop does not end. | The probe visits bits `degr − 1` down to 0 and the loop ends after `degr` iterations, for every degree up to and including 32, as the class description promises. | not executed; relies on the usual two's-complement conversion and arithmetic right shift of signed ints | SignedProbe.G32Hangs | Prbs.PrbsGenerator.SyncBack |
