/**
  The session parameter record SCI_PARAMETERS held by the reader, the defaults a cold
  reset derives from the reader's clock class, the byte timeout of the ATR read, and
  the overlay that a parameter write applies to the record the reader currently holds.
*/
module SciParams {
  import opened SciTypes

  /** SCI_PARAMETERS: protocol type, clock divisor, ETU, guard and waiting times, parity,
      inversion, and three fields (clock-stop polarity, check, U) that only the reader sets. */
  datatype Params = Params(
    T: u8, fs: u32, ETU: u32, WWT: u32, CWT: u32, BWT: u32, EGT: u32,
    clockStopPolarity: u8, check: u8, P: u8, I: u8, U: u8)

  /** The arguments of a parameter write; ETU, P and I are "keep the held value" when zero. */
  datatype Settings = Settings(
    T: u8, fs: u32, ETU: u32, WWT: u32, BWT: u32, CWT: u32, EGT: u32, P: u8, I: u8)

  /** Clock classes above this value are PLL based readers. */
  const PllThreshold: int := 2000

  /** The clock class of the DM7025 PLL reader, which gets a fixed divisor. */
  const Dm7025Mhz: int := 8300

  /** ATR_TIMEOUT, the base byte timeout of the ATR read. */
  const AtrBaseTimeout: u32 := 800

  /** The all-zero record (memset to 0). */
  const Zero: Params := Params(0, 0, 0, 0, 0, 0, 0, 0, 0, 0, 0, 0)

  /** Divisor for a 1 MHz card clock on a PLL reader: mhz / 100 rounded half up. */
  function PllDivisor(mhz: i32): (fs: u32)
    requires mhz > PllThreshold
    ensures 100 * fs - 50 <= mhz < 100 * fs + 50
  {
    (mhz + 50) / 100
  }

  /** The parameters a cold reset pushes: a nominal default, overridden for PLL readers,
      overridden again for the DM7025. */
  function DefaultParams(mhz: i32): (p: Params)
    ensures p.T == 0 && p.ETU == 372
    ensures mhz <= PllThreshold ==> p.EGT == 3 && p.fs == 5
    ensures mhz > PllThreshold ==> p.EGT == 0
    ensures mhz > PllThreshold && mhz != Dm7025Mhz ==> 100 * p.fs - 50 <= mhz < 100 * p.fs + 50
    ensures mhz == Dm7025Mhz ==> p.fs == 16
    ensures p.WWT == p.CWT == p.BWT == 0
    ensures p.clockStopPolarity == p.check == p.P == p.I == p.U == 0
  {
    var nominal := Zero.(ETU := 372, EGT := 3, fs := 5, T := 0);
    var pll := if mhz > PllThreshold then nominal.(ETU := 372, EGT := 0, fs := PllDivisor(mhz), T := 0)
               else nominal;
    if mhz == Dm7025Mhz then pll.(ETU := 372, EGT := 0, fs := 16, T := 0) else pll
  }

  /** The byte timeout used throughout the ATR read: PLL readers count in microseconds. */
  function AtrTimeout(mhz: i32): (t: u32)
    ensures mhz <= PllThreshold ==> t == AtrBaseTimeout
    ensures mhz > PllThreshold ==> t == 1000 * AtrBaseTimeout
  {
    var t := AtrBaseTimeout;
    if mhz > PllThreshold then t * 1000 else t
  }

  /** The record a parameter write sends back: the request overlaid on the held record. */
  function Overlay(held: Params, s: Settings): (p: Params)
    ensures p.T == s.T && p.fs == s.fs && p.EGT == s.EGT
    ensures p.WWT == s.WWT && p.BWT == s.BWT && p.CWT == s.CWT
    ensures s.ETU != 0 ==> p.ETU == s.ETU
    ensures s.ETU == 0 ==> p.ETU == held.ETU
    ensures s.P != 0 ==> p.P == s.P
    ensures s.P == 0 ==> p.P == held.P
    ensures s.I != 0 ==> p.I == s.I
    ensures s.I == 0 ==> p.I == held.I
    ensures p.clockStopPolarity == held.clockStopPolarity && p.check == held.check && p.U == held.U
  {
    var p := held.(T := s.T, fs := s.fs);
    var p := if s.ETU != 0 then p.(ETU := s.ETU) else p;
    var p := p.(EGT := s.EGT, WWT := s.WWT, BWT := s.BWT, CWT := s.CWT);
    var p := if s.P != 0 then p.(P := s.P) else p;
    if s.I != 0 then p.(I := s.I) else p
  }

  /** Writing the same request twice leaves the reader where writing it once did. */
  lemma OverlayIdempotent(held: Params, s: Settings)
    ensures Overlay(Overlay(held, s), s) == Overlay(held, s)
  {
  }

  /** The held record matters only through the optional fields left at zero and the
      reader-owned fields: two reader states that agree on those give the same result. */
  lemma OverlayDependsOnlyOnKeptFields(h1: Params, h2: Params, s: Settings)
    requires s.ETU == 0 ==> h1.ETU == h2.ETU
    requires s.P == 0 ==> h1.P == h2.P
    requires s.I == 0 ==> h1.I == h2.I
    requires h1.clockStopPolarity == h2.clockStopPolarity && h1.check == h2.check && h1.U == h2.U
    ensures Overlay(h1, s) == Overlay(h2, s)
  {
  }

  /** Writing back exactly the held values changes nothing (a held zero in ETU, P or I is kept by
      the zero rule). */
  lemma OverlayOfHeldIsIdentity(held: Params)
    ensures Overlay(held, Settings(held.T, held.fs, held.ETU, held.WWT, held.BWT, held.CWT,
                                  held.EGT, held.P, held.I)) == held
  {
  }

  /** The clock classes of the three branches, with the values they select. */
  lemma DefaultExamples()
    ensures DefaultParams(1000).fs == 5 && DefaultParams(1000).EGT == 3
    ensures DefaultParams(4000).fs == 40 && DefaultParams(4000).EGT == 0
    ensures DefaultParams(8300).fs == 16 && DefaultParams(8350).fs == 84
    ensures AtrTimeout(1000) == 800 && AtrTimeout(4000) == 800000
  {
  }
}
