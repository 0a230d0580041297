/**
  The ATR acquisition of the SCI driver as functions over the card's byte source.

  A card is a transport and the (header-defined) INVERT_BYTE table. The transport answers
  the k-th read attempt, made with a given timeout, with a byte or with a failure; a failed
  attempt uses up its index, so after a failure in the interface-byte chain the next read
  (of a historical byte) is attempt k + 1. A `Cursor` is the stored bytes plus the number of
  read attempts made so far.
*/
module AtrDecode {
  import opened SciTypes

  /** The raw first byte by which a card signals the inverse convention. */
  const RawInverseTs: byte := 0x03

  /** The two standard TS values (direct and inverse convention). */
  const DirectTs: byte := 0x3B
  const InverseTsStd: byte := 0x3F

  /** The vendor tag "IRDETO" in ASCII. */
  const Irdeto: seq<byte> := [0x49, 0x52, 0x44, 0x45, 0x54, 0x4F]

  /** A card as the driver sees it: the transport's answer to each read attempt, and INVERT_BYTE. */
  datatype Card = Card(transport: (u32, nat) -> Option<byte>, invert: byte -> byte)

  /** ATR_InitFromArray: the external validator called with the buffer and its length. */
  type Validator = (seq<byte>, nat) -> Verdict

  /** The byte source of one ATR read: the card, the timeout every read is made with,
      and whether the card uses the inverse convention. */
  datatype Source = Source(card: Card, timeout: u32, inverse: bool) {
    /** The outcome of read attempt k. */
    function Next(k: nat): Option<byte> {
      card.transport(timeout, k)
    }

    /** The stored form of a raw byte: `~INVERT_BYTE(b)` under the inverse convention. */
    function Norm(b: byte): byte {
      if inverse then !card.invert(b) else b
    }
  }

  /** The source of an ATR read: the inverse convention is on exactly when the raw first byte is 0x03. */
  function Open(card: Card, timeout: u32): (src: Source)
    ensures src.card == card && src.timeout == timeout
    ensures src.inverse <==> card.transport(timeout, 0) == Some(RawInverseTs)
  {
    Source(card, timeout, card.transport(timeout, 0) == Some(RawInverseTs))
  }

  /** The normalized bytes of the successful reads among the first k attempts, in order. */
  function Received(src: Source, k: nat): (r: seq<byte>)
    ensures |r| <= k
  {
    if k == 0 then []
    else Received(src, k - 1) + (match src.Next(k - 1) case Some(b) => [src.Norm(b)] case None => [])
  }

  /** The presence test of one interface byte: equivalent to the driver's `(TDi | ~mask) == 0xFF`. */
  predicate Present(tdi: byte, mask: byte)
    requires mask == 0x10 || mask == 0x20 || mask == 0x40 || mask == 0x80
    ensures Present(tdi, mask) <==> (tdi | !mask) == 0xFF
  {
    tdi & mask != 0
  }

  /** The historical-byte count K: the low nibble of T0, as a number. */
  function LowNibble(t0: byte): (k: nat)
    ensures k < 16
  {
    (if t0 & 0x01 != 0 then 1 else 0) + (if t0 & 0x02 != 0 then 2 else 0)
    + (if t0 & 0x04 != 0 then 4 else 0) + (if t0 & 0x08 != 0 then 8 else 0)
  }

  datatype Cursor = Cursor(buf: seq<byte>, pos: nat)

  /** The cursor after one read, and whether a byte was stored. */
  datatype Step = Step(at: Cursor, ok: bool)

  /** One guarded read: a full buffer stops without reading; a failed read uses up its
      attempt and stores nothing; a successful read appends the normalized byte. */
  function Take(src: Source, c: Cursor): Step
  {
    if |c.buf| >= MaxAtrSize then Step(c, false)
    else match src.Next(c.pos)
      case None => Step(Cursor(c.buf, c.pos + 1), false)
      case Some(b) => Step(Cursor(c.buf + [src.Norm(b)], c.pos + 1), true)
  }

  /** The read of the interface byte selected by `mask`, unless an earlier read of the group failed. */
  function Field(src: Source, s: Step, tdi: byte, mask: byte): (r: Step)
    requires mask == 0x10 || mask == 0x20 || mask == 0x40
    ensures s.at.buf <= r.at.buf && s.at.pos <= r.at.pos && |r.at.buf| <= |s.at.buf| + 1
    ensures |s.at.buf| <= MaxAtrSize ==> |r.at.buf| <= MaxAtrSize
    ensures !s.ok ==> r == s
  {
    if !s.ok || !Present(tdi, mask) then s else Take(src, s.at)
  }

  /** How one group ends: the cursor, and the next TDi when the chain goes on. */
  datatype GroupEnd = GroupEnd(at: Cursor, next: Option<byte>)

  /** One pass of the chain loop: TA, TB, TC and TD in this order, each read when TDi announces it;
      the chain continues, with TD as the next TDi, only when TD was announced and read. */
  function Group(src: Source, c: Cursor, tdi: byte): (g: GroupEnd)
    ensures c.buf <= g.at.buf && c.pos <= g.at.pos
    ensures |g.at.buf| <= |c.buf| + 4
    ensures |c.buf| <= MaxAtrSize ==> |g.at.buf| <= MaxAtrSize
    ensures g.next.Some? ==> Present(tdi, 0x80) && |g.at.buf| > |c.buf|
                             && g.next.value == g.at.buf[|g.at.buf| - 1]
  {
    var s := Field(src, Field(src, Field(src, Step(c, true), tdi, 0x10), tdi, 0x20), tdi, 0x40);
    if !s.ok || !Present(tdi, 0x80) then GroupEnd(s.at, None)
    else
      var d := Take(src, s.at);
      if d.ok then GroupEnd(d.at, Some(d.at.buf[|d.at.buf| - 1])) else GroupEnd(d.at, None)
  }

  /** The interface-byte chain walk: a pass while the buffer is not full at the top of a pass. */
  function Walk(src: Source, c: Cursor, tdi: byte): (w: Cursor)
    ensures c.buf <= w.buf && c.pos <= w.pos
    ensures |c.buf| <= MaxAtrSize ==> |w.buf| <= MaxAtrSize
    decreases MaxAtrSize - |c.buf|, 1
  {
    if |c.buf| >= MaxAtrSize then c else Pass(src, c, tdi)
  }

  /** One pass of the chain loop, and the walk on from its TD when it read one. */
  function Pass(src: Source, c: Cursor, tdi: byte): (w: Cursor)
    requires |c.buf| < MaxAtrSize
    ensures c.buf <= w.buf && |w.buf| <= MaxAtrSize && c.pos <= w.pos
    decreases MaxAtrSize - |c.buf|, 0
  {
    var g := Group(src, c, tdi);
    match g.next
    case None => g.at
    case Some(t) => Walk(src, g.at, t)
  }

  /** The historical-byte loop: reads until the buffer holds `target` bytes or a read fails. */
  function Historical(src: Source, c: Cursor, target: nat): (h: Cursor)
    ensures c.buf <= h.buf && c.pos <= h.pos
    ensures |c.buf| <= MaxAtrSize ==> |h.buf| <= MaxAtrSize
    ensures |c.buf| <= target ==> |h.buf| <= target
    decreases target - |c.buf|
  {
    if |c.buf| >= target then c
    else
      var s := Take(src, c);
      if s.ok then Historical(src, s.at, target) else s.at
  }

  /** What an acquisition collected: the cursor after the chain walk, the historical-byte
      count K, and the cursor after the historical bytes. */
  datatype Acquired = Acquired(chain: Cursor, k: nat, at: Cursor) {
    /** atrlength: the length the ATR should have. */
    function Expected(): nat {
      |chain.buf| + k
    }
  }

  /** The reads after TS and T0: the chain walk starting from TDi = T0, then the K historical
      bytes that T0 announces, counted from where the walk ended. */
  function Collect(src: Source, header: Cursor, t0: byte): (a: Acquired)
    ensures a.k == LowNibble(t0)
    ensures |header.buf| <= |a.chain.buf| <= |a.at.buf| <= a.Expected()
    ensures |header.buf| <= MaxAtrSize ==> |a.at.buf| <= MaxAtrSize
  {
    var chain := Walk(src, header, t0);
    var k := LowNibble(t0);
    Acquired(chain, k, Historical(src, chain, |chain.buf| + k))
  }

  /** The byte collection of an ATR read; None when TS or T0 cannot be read. */
  function Acquire(src: Source): (r: Option<Acquired>)
    ensures r.None? <==> src.Next(0).None? || src.Next(1).None?
  {
    match src.Next(0)
    case None => None
    case Some(ts) =>
      match src.Next(1)
      case None => None
      case Some(b) => Some(Collect(src, Cursor([src.Norm(ts), src.Norm(b)], 2), src.Norm(b)))
  }

  /** The IRDETO quirk: a first byte that is no standard TS, in a buffer of more than nine
      bytes whose bytes 4..9 read "IRDETO", becomes 0x3B; nothing else changes. */
  function Quirk(s: seq<byte>): (r: seq<byte>)
    ensures |r| == |s| && (|s| > 0 ==> r[1..] == s[1..])
    ensures r != s <==> |s| > 9 && s[0] != DirectTs && s[0] != InverseTsStd && s[4..10] == Irdeto
    ensures r != s ==> r[0] == DirectTs
  {
    if |s| > 9 && s[0] != DirectTs && s[0] != InverseTsStd && s[4..10] == Irdeto
    then [DirectTs] + s[1..]
    else s
  }

  /** The driver's answer to a verdict: only an invalid ATR is an error; a malformed one is OK. */
  function Dispatch(v: Verdict): (s: Status)
    ensures s == ERROR <==> v == AtrError
  {
    if v == AtrError then ERROR else OK
  }

  /** The observable result of Sci_Read_ATR: its return code, the buffer handed to the
      validator (None if it is never called), and whether the length warning is logged. */
  datatype AtrResult = AtrResult(status: Status, handed: Option<seq<byte>>, shortfall: bool)

  /** Sci_Read_ATR as a function of the card, the timeout and the validator. */
  function Decode(card: Card, timeout: u32, validate: Validator): (r: AtrResult)
    ensures r.handed.None? <==> card.transport(timeout, 0).None? || card.transport(timeout, 1).None?
    ensures r.handed.None? ==> r.status == ERROR && !r.shortfall
    ensures r.handed.Some? ==> 2 <= |r.handed.value| <= MaxAtrSize
                               && (r.status == ERROR <==> validate(r.handed.value, |r.handed.value|) == AtrError)
  {
    var src := Open(card, timeout);
    match Acquire(src)
    case None => AtrResult(ERROR, None, false)
    case Some(a) =>
      var bytes := Quirk(a.at.buf);
      AtrResult(Dispatch(validate(bytes, |a.at.buf|)), Some(bytes), |a.at.buf| != a.Expected())
  }
}
