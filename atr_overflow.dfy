/**
  The buffer bound of Sci_Read_ATR. The chain loop tests `n < SCI_MAX_ATR_SIZE` only at the top
  of a pass, and the historical-byte loop tests only `n < atrlength`, so the reads as the driver
  writes them can store past the end of its 33-byte buffer. The `AsWritten` functions are those
  reads with no capacity check; on a card that answers 0xFF to every read they store 34 bytes in
  the chain loop and 49 in all. The model proper (AtrDecode.Take and AtrRead.TakeInto) checks the
  capacity before every store, and on the same card stops at 33 bytes and reports the shortfall.
*/
module AtrOverflow {
  import opened SciTypes
  import opened AtrDecode

  /** A card that answers every read attempt with 0xFF (T0 = 0xFF announces all four interface
      bytes and 15 historical bytes, and every TD = 0xFF chains on). */
  const Flooding: Card := Card((timeout: u32, k: nat) => Some(0xFF), (b: byte) => b)

  /** One read as the driver writes it: stored at buf + n whatever n is. */
  function TakeAsWritten(src: Source, c: Cursor): Step
  {
    match src.Next(c.pos)
    case None => Step(Cursor(c.buf, c.pos + 1), false)
    case Some(b) => Step(Cursor(c.buf + [src.Norm(b)], c.pos + 1), true)
  }

  function FieldAsWritten(src: Source, s: Step, tdi: byte, mask: byte): Step
    requires mask == 0x10 || mask == 0x20 || mask == 0x40
  {
    if !s.ok || !Present(tdi, mask) then s else TakeAsWritten(src, s.at)
  }

  /** One pass of the chain loop as written. */
  function GroupAsWritten(src: Source, c: Cursor, tdi: byte): (g: GroupEnd)
    ensures g.next.Some? ==> |g.at.buf| > |c.buf|
  {
    var s := FieldAsWritten(src, FieldAsWritten(src, FieldAsWritten(src, Step(c, true), tdi, 0x10), tdi, 0x20), tdi, 0x40);
    if !s.ok || !Present(tdi, 0x80) then GroupEnd(s.at, None)
    else
      var d := TakeAsWritten(src, s.at);
      if d.ok then GroupEnd(d.at, Some(d.at.buf[|d.at.buf| - 1])) else GroupEnd(d.at, None)
  }

  /** The chain loop as written: the capacity is tested at the top of a pass only. */
  function WalkAsWritten(src: Source, c: Cursor, tdi: byte): Cursor
    decreases MaxAtrSize - |c.buf|
  {
    if |c.buf| >= MaxAtrSize then c
    else
      var g := GroupAsWritten(src, c, tdi);
      match g.next
      case None => g.at
      case Some(t) => WalkAsWritten(src, g.at, t)
  }

  /** The historical-byte loop as written: bounded by atrlength alone. */
  function HistoricalAsWritten(src: Source, c: Cursor, target: nat): Cursor
    decreases target - |c.buf|
  {
    if |c.buf| >= target then c
    else
      var s := TakeAsWritten(src, c);
      if s.ok then HistoricalAsWritten(src, s.at, target) else s.at
  }

  /** From a buffer of 2 + 4m bytes, the unchecked chain loop on the flooding card ends at 34. */
  lemma {:induction false} FloodWalkAsWritten(timeout: u32, c: Cursor, m: nat)
    requires m <= 7 && |c.buf| == 2 + 4 * m
    ensures |WalkAsWritten(Open(Flooding, timeout), c, 0xFF).buf| == 34
    decreases 7 - m
  {
    var src := Open(Flooding, timeout);
    var g := GroupAsWritten(src, c, 0xFF);
    assert |g.at.buf| == |c.buf| + 4 && g.next == Some(0xFF);
    if m < 7 {
      FloodWalkAsWritten(timeout, g.at, m + 1);
    }
  }

  /** On the flooding card the unchecked historical loop fills the buffer up to atrlength. */
  lemma {:induction false} FloodHistoricalAsWritten(timeout: u32, c: Cursor, target: nat)
    requires |c.buf| <= target
    ensures |HistoricalAsWritten(Open(Flooding, timeout), c, target).buf| == target
    decreases target - |c.buf|
  {
    if |c.buf| < target {
      var s := TakeAsWritten(Open(Flooding, timeout), c);
      FloodHistoricalAsWritten(timeout, s.at, target);
    }
  }

  /** The driver as written stores 34 bytes in the chain loop and 49 in all into its 33-byte
      buffer when the card answers 0xFF to every read. */
  lemma DriverOverrunsBuffer(timeout: u32)
    ensures var src := Open(Flooding, timeout);
            var w := WalkAsWritten(src, Cursor([0xFF, 0xFF], 2), 0xFF);
            && |w.buf| == 34 > MaxAtrSize
            && |HistoricalAsWritten(src, w, |w.buf| + LowNibble(0xFF)).buf| == 49
  {
    var src := Open(Flooding, timeout);
    FloodWalkAsWritten(timeout, Cursor([0xFF, 0xFF], 2), 0);
    var w := WalkAsWritten(src, Cursor([0xFF, 0xFF], 2), 0xFF);
    assert LowNibble(0xFF) == 15;
    FloodHistoricalAsWritten(timeout, w, |w.buf| + 15);
  }

  /** From a buffer of 2 + 4m bytes, the checked chain walk on the flooding card stops at 33. */
  lemma {:induction false} FloodWalk(timeout: u32, c: Cursor, m: nat)
    requires m <= 7 && |c.buf| == 2 + 4 * m
    ensures |Walk(Open(Flooding, timeout), c, 0xFF).buf| == MaxAtrSize
    decreases 7 - m
  {
    var src := Open(Flooding, timeout);
    var g := Group(src, c, 0xFF);
    if m < 7 {
      assert |g.at.buf| == |c.buf| + 4 && g.next == Some(0xFF);
      FloodWalk(timeout, g.at, m + 1);
    } else {
      assert |g.at.buf| == MaxAtrSize && g.next == None;
    }
  }

  /** With the capacity check, the flooding card's ATR is cut at the 33 bytes the buffer holds,
      and the length warning is raised, since T0 announced 48. */
  lemma FloodingAtrIsCutAtCapacity(timeout: u32, validate: Validator)
    ensures var r := Decode(Flooding, timeout, validate);
            r.handed.Some? && |r.handed.value| == MaxAtrSize && r.shortfall
  {
    var src := Open(Flooding, timeout);
    var header := Cursor([0xFF, 0xFF], 2);
    assert src.Next(0) == Some(0xFF) && src.Next(1) == Some(0xFF) && src.Norm(0xFF) == 0xFF;
    FloodWalk(timeout, header, 0);
    var chain := Walk(src, header, 0xFF);
    assert LowNibble(0xFF) == 15;
    var h := Historical(src, chain, |chain.buf| + 15);
    assert |h.buf| == MaxAtrSize;
    assert Acquire(src) == Some(Acquired(chain, 15, h));
  }
}
