/**
  Sci_Read_ATR as the driver runs it: one fixed buffer filled in place with an index n,
  the chain loop with its breaks, the historical-byte loop, the IRDETO quirk and the
  call of the validator. Each store goes through TakeInto, which adds the capacity check
  the driver leaves out.
*/
module AtrRead {
  import opened SciTypes
  import opened AtrDecode
  import SciParams

  /** One guarded read into buf[n]: the raw byte is stored, then normalized in place. */
  method TakeInto(src: Source, buf: array<byte>, n: nat, pos: nat) returns (n': nat, pos': nat, ok: bool)
    requires buf.Length == MaxAtrSize && n <= MaxAtrSize
    modifies buf
    ensures n' <= MaxAtrSize
    ensures Take(src, Cursor(old(buf[..n]), pos)) == Step(Cursor(buf[..n'], pos'), ok)
  {
    if n >= MaxAtrSize {
      return n, pos, false;
    }
    var r := src.card.transport(src.timeout, pos);
    if r.None? {
      return n, pos + 1, false;
    }
    buf[n] := r.value;
    if src.inverse {
      buf[n] := !src.card.invert(buf[n]);
    }
    assert buf[..n + 1] == old(buf[..n]) + [src.Norm(r.value)];
    return n + 1, pos + 1, true;
  }

  /** The read of TA, TB or TC inside one pass of the chain loop, made when `(tdi | ~mask) == 0xFF`. */
  method ReadField(src: Source, buf: array<byte>, n0: nat, pos0: nat, tdi: byte, mask: byte, ghost s: Step)
    returns (n: nat, pos: nat, ok: bool)
    requires mask == 0x10 || mask == 0x20 || mask == 0x40
    requires buf.Length == MaxAtrSize && n0 <= MaxAtrSize
    requires s == Step(Cursor(buf[..n0], pos0), true)
    modifies buf
    ensures n <= MaxAtrSize
    ensures Step(Cursor(buf[..n], pos), ok) == Field(src, s, tdi, mask)
  {
    n, pos, ok := n0, pos0, true;
    if (tdi | !mask) == 0xFF {
      n, pos, ok := TakeInto(src, buf, n0, pos0);
    }
  }

  /** One pass of the chain loop: reads TA, TB, TC and TD as tdi announces them, stopping at
      the first failed read; `more` says that TD was read and is the next TDi. */
  method ReadGroup(src: Source, buf: array<byte>, n0: nat, pos0: nat, tdi: byte)
    returns (n: nat, pos: nat, next: byte, more: bool)
    requires buf.Length == MaxAtrSize && n0 <= MaxAtrSize
    modifies buf
    ensures n <= MaxAtrSize
    ensures Group(src, Cursor(old(buf[..n0]), pos0), tdi)
            == GroupEnd(Cursor(buf[..n], pos), if more then Some(next) else None)
  {
    ghost var s0 := Step(Cursor(buf[..n0], pos0), true);
    next, more := tdi, false;
    var ok: bool;
    n, pos, ok := ReadField(src, buf, n0, pos0, tdi, 0x10, s0);
    ghost var s1 := Step(Cursor(buf[..n], pos), ok);
    if !ok {
      return;
    }
    n, pos, ok := ReadField(src, buf, n, pos, tdi, 0x20, s1);
    ghost var s2 := Step(Cursor(buf[..n], pos), ok);
    if !ok {
      return;
    }
    n, pos, ok := ReadField(src, buf, n, pos, tdi, 0x40, s2);
    ghost var s3 := Step(Cursor(buf[..n], pos), ok);
    if !ok {
      return;
    }
    if (tdi | 0x7F) == 0xFF {
      n, pos, ok := TakeInto(src, buf, n, pos);
      if ok {
        next, more := buf[n - 1], true;
      }
    }
  }

  /** The interface-byte chain loop of Sci_Read_ATR, from buf[..n0] with TDi = tdi0: passes
      while the buffer is not full at the top of a pass and the previous pass read a TD. */
  method WalkChain(src: Source, buf: array<byte>, n0: nat, pos0: nat, tdi0: byte, ghost start: Cursor)
    returns (n: nat, pos: nat)
    requires buf.Length == MaxAtrSize && 2 <= n0 <= MaxAtrSize
    requires start == Cursor(buf[..n0], pos0)
    modifies buf
    ensures 2 <= n <= MaxAtrSize
    ensures Cursor(buf[..n], pos) == Walk(src, start, tdi0)
  {
    n, pos := n0, pos0;
    var tdi := tdi0;
    while n < MaxAtrSize
      invariant 2 <= n <= MaxAtrSize
      invariant Walk(src, Cursor(buf[..n], pos), tdi) == Walk(src, start, tdi0)
      decreases MaxAtrSize - n
    {
      var more: bool;
      n, pos, tdi, more := ReadGroup(src, buf, n, pos, tdi);
      if !more {
        break;
      }
    }
  }

  /** The historical-byte loop of Sci_Read_ATR, with the capacity check added. */
  method ReadHistorical(src: Source, buf: array<byte>, n0: nat, pos0: nat, atrlength: nat, ghost chain: Cursor)
    returns (n: nat, pos: nat)
    requires buf.Length == MaxAtrSize && n0 <= MaxAtrSize
    requires chain == Cursor(buf[..n0], pos0)
    modifies buf
    ensures n <= MaxAtrSize
    ensures Cursor(buf[..n], pos) == Historical(src, chain, atrlength)
  {
    n, pos := n0, pos0;
    var ok: bool;
    while n < atrlength
      invariant n <= MaxAtrSize
      invariant Historical(src, Cursor(buf[..n], pos), atrlength) == Historical(src, chain, atrlength)
      decreases atrlength - n
    {
      n, pos, ok := TakeInto(src, buf, n, pos);
      if !ok {
        break;
      }
    }
  }

  /** The IRDETO quirk on the collected buffer (memcmp of buf + 4 against "IRDETO"). */
  method FixIrdeto(buf: array<byte>, n: nat, ghost collected: seq<byte>)
    requires 2 <= n <= buf.Length == MaxAtrSize
    requires collected == buf[..n]
    modifies buf
    ensures buf[..n] == Quirk(collected)
  {
    assert n > 9 ==> buf[4..10] == collected[4..10];
    if buf[0] != DirectTs && buf[0] != InverseTsStd && n > 9 && buf[4..10] == Irdeto {
      buf[0] := DirectTs;
      assert buf[..n] == [DirectTs] + collected[1..];
    }
  }

  /** The chain loop, the expected length, and the historical-byte loop of Sci_Read_ATR. */
  method CollectBytes(src: Source, buf: array<byte>, tdi: byte, ghost header: Cursor)
    returns (n: nat, pos: nat, atrlength: nat, ghost chain: Cursor)
    requires buf.Length == MaxAtrSize && header == Cursor(buf[..2], 2)
    modifies buf
    ensures 2 <= n <= MaxAtrSize
    ensures Acquired(chain, LowNibble(tdi), Cursor(buf[..n], pos)) == Collect(src, header, tdi)
    ensures atrlength == |chain.buf| + LowNibble(tdi)
  {
    var historical := LowNibble(tdi);
    n, pos := WalkChain(src, buf, 2, 2, tdi, header);
    chain := Cursor(buf[..n], pos);
    atrlength := n + historical;
    n, pos := ReadHistorical(src, buf, n, pos, atrlength, chain);
  }

  /** Decode written out for a card that delivers TS and T0. */
  lemma DecodeOf(card: Card, timeout: u32, validate: Validator, src: Source, ts: byte, b: byte, a: Acquired)
    requires src == Open(card, timeout)
    requires src.Next(0) == Some(ts) && src.Next(1) == Some(b)
    requires a == Collect(src, Cursor([src.Norm(ts), src.Norm(b)], 2), src.Norm(b))
    ensures Decode(card, timeout, validate)
            == AtrResult(Dispatch(validate(Quirk(a.at.buf), |a.at.buf|)), Some(Quirk(a.at.buf)), |a.at.buf| != a.Expected())
  {
    assert Acquire(src) == Some(a);
  }

  /** The reads of TS and T0: TS decides the convention, and both are stored normalized. */
  method ReadHeader(card: Card, timeout: u32, buf: array<byte>)
    returns (ok: bool, src: Source, tdi: byte, ghost ts: byte, ghost b: byte)
    requires buf.Length == MaxAtrSize
    modifies buf
    ensures ok <==> card.transport(timeout, 0).Some? && card.transport(timeout, 1).Some?
    ensures ok ==> && src == Open(card, timeout)
                   && src.Next(0) == Some(ts) && src.Next(1) == Some(b)
                   && tdi == src.Norm(b) && buf[..2] == [src.Norm(ts), tdi]
  {
    var n: nat := 0;
    src, tdi := Open(card, timeout), 0;
    var first := card.transport(timeout, 0);
    if first.None? {
      return false, src, tdi, 0, 0;
    }
    buf[n] := first.value;
    var inverse := false;
    if buf[0] == RawInverseTs {
      inverse := true;
      buf[n] := !card.invert(buf[n]);
    }
    n := n + 1;
    src := Source(card, timeout, inverse);
    var second := card.transport(timeout, 1);
    if second.None? {
      return false, src, tdi, 0, 0;
    }
    buf[n] := second.value;
    if inverse {
      buf[n] := !card.invert(buf[n]);
    }
    tdi := buf[n];
    ok, ts, b := true, first.value, second.value;
  }

  /** Reads and checks the ATR of the card in a reader of clock class `mhz`. */
  method ReadAtr(mhz: i32, card: Card, validate: Validator)
    returns (ret: Status, handed: Option<seq<byte>>, shortfall: bool)
    ensures AtrResult(ret, handed, shortfall) == Decode(card, SciParams.AtrTimeout(mhz), validate)
  {
    var timeout := SciParams.AtrTimeout(mhz);
    var buf := new byte[MaxAtrSize];
    var ok, src, tdi, ts, b := ReadHeader(card, timeout, buf);
    if !ok {
      return ERROR, None, false;
    }
    ghost var header := Cursor(buf[..2], 2);
    var n: nat, pos: nat, atrlength: nat;
    ghost var chain: Cursor;
    n, pos, atrlength, chain := CollectBytes(src, buf, tdi, header);
    shortfall := n != atrlength;
    ghost var collected := buf[..n];
    FixIrdeto(buf, n, collected);

    handed := Some(buf[..n]);
    var verdict := validate(buf[..n], n);
    DecodeOf(card, timeout, validate, src, ts, b, Acquired(chain, LowNibble(tdi), Cursor(collected, pos)));
    if verdict == AtrError {
      return ERROR, handed, shortfall;
    }
    return OK, handed, shortfall;
  }
}
