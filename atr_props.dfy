/**
  Properties of the ATR acquisition: what the stored bytes are, how the historical-byte
  count and the expected length come about, when the length warning is logged, and that a
  card delivering an ATR of TS, T0, the interface characters chained as in ISO/IEC 7816-3
  and the K historical characters (the driver reads no check character TCK) is read exactly.
*/
module AtrProps {
  import opened SciTypes
  import opened AtrDecode
  import opened Iso7816

  // ---------------------------------------------------------------------------------------
  // Stored bytes are the normalized successful reads

  lemma TakeReceived(src: Source, c: Cursor)
    requires c.buf == Received(src, c.pos)
    ensures Take(src, c).at.buf == Received(src, Take(src, c).at.pos)
  {
  }

  lemma FieldReceived(src: Source, s: Step, tdi: byte, mask: byte)
    requires mask == 0x10 || mask == 0x20 || mask == 0x40
    requires s.at.buf == Received(src, s.at.pos)
    ensures Field(src, s, tdi, mask).at.buf == Received(src, Field(src, s, tdi, mask).at.pos)
  {
    if s.ok && Present(tdi, mask) {
      TakeReceived(src, s.at);
    }
  }

  lemma GroupReceived(src: Source, c: Cursor, tdi: byte)
    requires c.buf == Received(src, c.pos)
    ensures Group(src, c, tdi).at.buf == Received(src, Group(src, c, tdi).at.pos)
  {
    var s1 := Field(src, Step(c, true), tdi, 0x10);
    FieldReceived(src, Step(c, true), tdi, 0x10);
    var s2 := Field(src, s1, tdi, 0x20);
    FieldReceived(src, s1, tdi, 0x20);
    var s3 := Field(src, s2, tdi, 0x40);
    FieldReceived(src, s2, tdi, 0x40);
    TakeReceived(src, s3.at);
  }

  lemma {:induction false} WalkReceived(src: Source, c: Cursor, tdi: byte)
    requires c.buf == Received(src, c.pos)
    ensures Walk(src, c, tdi).buf == Received(src, Walk(src, c, tdi).pos)
    decreases MaxAtrSize - |c.buf|
  {
    if |c.buf| < MaxAtrSize {
      var g := Group(src, c, tdi);
      GroupReceived(src, c, tdi);
      if g.next.Some? {
        WalkReceived(src, g.at, g.next.value);
      }
    }
  }

  lemma {:induction false} HistoricalReceived(src: Source, c: Cursor, target: nat)
    requires c.buf == Received(src, c.pos)
    ensures Historical(src, c, target).buf == Received(src, Historical(src, c, target).pos)
    decreases target - |c.buf|
  {
    if |c.buf| < target {
      var s := Take(src, c);
      TakeReceived(src, c);
      if s.ok {
        HistoricalReceived(src, s.at, target);
      }
    }
  }

  // ---------------------------------------------------------------------------------------
  // The loops break at the first failed read

  /** Read attempts from to to - 1 all succeeded. */
  ghost predicate Unbroken(src: Source, from: nat, to: int)
  {
    forall j :: from <= j < to ==> src.Next(j).Some?
  }

  /** A read makes at most one attempt, which succeeded when a byte was stored. */
  lemma TakeBreaks(src: Source, c: Cursor)
    ensures var d := Take(src, c);
            d.at.pos <= c.pos + 1 && (d.ok ==> Unbroken(src, c.pos, d.at.pos))
  {
  }

  /** A field read makes at most one attempt, none after an earlier failure of its group. */
  lemma FieldBreaks(src: Source, s: Step, tdi: byte, mask: byte)
    requires mask == 0x10 || mask == 0x20 || mask == 0x40
    ensures var r := Field(src, s, tdi, mask);
            r.at.pos <= s.at.pos + 1 && (r.ok ==> s.ok && Unbroken(src, s.at.pos, r.at.pos))
  {
    if s.ok && Present(tdi, mask) {
      TakeBreaks(src, s.at);
    }
  }

  /** Within one pass of the chain loop every attempt but the last succeeded, and all of them
      did when the chain goes on (the breaks of the TA, TB, TC and TD reads). */
  lemma GroupBreaks(src: Source, c: Cursor, tdi: byte)
    ensures var g := Group(src, c, tdi);
            Unbroken(src, c.pos, g.at.pos - 1) && (g.next.Some? ==> Unbroken(src, c.pos, g.at.pos))
  {
    var s1 := Field(src, Step(c, true), tdi, 0x10);
    var s2 := Field(src, s1, tdi, 0x20);
    var s3 := Field(src, s2, tdi, 0x40);
    FieldBreaks(src, Step(c, true), tdi, 0x10);
    FieldBreaks(src, s1, tdi, 0x20);
    FieldBreaks(src, s2, tdi, 0x40);
    if s3.ok {
      assert Unbroken(src, c.pos, s3.at.pos);
      if Present(tdi, 0x80) {
        TakeBreaks(src, s3.at);
      }
    } else if s2.ok {
      assert Unbroken(src, c.pos, s2.at.pos);
    } else if s1.ok {
      assert Unbroken(src, c.pos, s1.at.pos);
    }
  }

  /** The chain walk makes no attempt after a failed one: every attempt but its last succeeded. */
  lemma {:induction false} WalkBreaks(src: Source, c: Cursor, tdi: byte)
    ensures Unbroken(src, c.pos, Walk(src, c, tdi).pos - 1)
    decreases MaxAtrSize - |c.buf|, 1
  {
    if |c.buf| < MaxAtrSize {
      PassBreaks(src, c, tdi);
    }
  }

  lemma {:induction false} PassBreaks(src: Source, c: Cursor, tdi: byte)
    requires |c.buf| < MaxAtrSize
    ensures Unbroken(src, c.pos, Pass(src, c, tdi).pos - 1)
    decreases MaxAtrSize - |c.buf|, 0
  {
    var g := Group(src, c, tdi);
    GroupBreaks(src, c, tdi);
    if g.next.Some? {
      WalkBreaks(src, g.at, g.next.value);
    }
  }

  /** The historical loop makes no attempt after a failed one. */
  lemma {:induction false} HistoricalBreaks(src: Source, c: Cursor, target: nat)
    ensures Unbroken(src, c.pos, Historical(src, c, target).pos - 1)
    decreases target - |c.buf|
  {
    if |c.buf| < target {
      var s := Take(src, c);
      TakeBreaks(src, c);
      if s.ok {
        HistoricalBreaks(src, s.at, target);
      }
    }
  }

  /** Received only grows: the bytes of the first j attempts begin those of the first k. */
  lemma {:induction false} ReceivedGrows(src: Source, j: nat, k: nat)
    requires j <= k
    ensures Received(src, j) <= Received(src, k)
    decreases k - j
  {
    if j < k {
      ReceivedGrows(src, j, k - 1);
    }
  }

  /** The byte of a successful read attempt j is stored, normalized, right after the bytes of
      the attempts before it. */
  lemma ReceivedAt(src: Source, j: nat, k: nat)
    requires j < k && src.Next(j).Some?
    ensures |Received(src, j)| < |Received(src, k)|
    ensures Received(src, k)[|Received(src, j)|] == src.Norm(src.Next(j).value)
  {
    ReceivedGrows(src, j + 1, k);
  }

  /** The walk and the historical loop keep the buffer equal to the normalized successful reads. */
  lemma CollectReceived(src: Source, header: Cursor, t0: byte)
    requires header.buf == Received(src, header.pos)
    ensures var a := Collect(src, header, t0);
            a.chain.buf == Received(src, a.chain.pos) && a.at.buf == Received(src, a.at.pos)
  {
    WalkReceived(src, header, t0);
    var chain := Walk(src, header, t0);
    HistoricalReceived(src, chain, |chain.buf| + LowNibble(t0));
  }

  /** Each byte in the buffer — TS, T0, the interface bytes and the historical bytes — is the
      normalized form of a successful read, in the order of the reads, and nothing else is
      stored; T0 is byte 1 and K is its low nibble. */
  lemma AcquireStoresReceived(src: Source)
    requires Acquire(src).Some?
    ensures var a := Acquire(src).value;
            && a.chain.buf == Received(src, a.chain.pos)
            && a.at.buf == Received(src, a.at.pos)
            && a.at.buf[0] == src.Norm(src.Next(0).value)
            && a.at.buf[1] == src.Norm(src.Next(1).value)
            && a.k == LowNibble(a.at.buf[1])
  {
    var a := Acquire(src).value;
    var header := Cursor([src.Norm(src.Next(0).value), src.Norm(src.Next(1).value)], 2);
    assert Received(src, 1) == [src.Norm(src.Next(0).value)];
    assert header.buf == Received(src, 2);
    CollectReceived(src, header, header.buf[1]);
    assert a == Collect(src, header, header.buf[1]);
    assert 2 <= a.at.pos;
    ReceivedGrows(src, 2, a.at.pos);
  }

  /** Under the inverse convention (raw TS == 0x03) a stored byte is `~INVERT_BYTE(raw)`;
      otherwise it is the raw byte. */
  lemma ConventionOfStoredBytes(card: Card, timeout: u32, j: nat, k: nat)
    requires j < k && card.transport(timeout, j).Some?
    ensures |Received(Open(card, timeout), j)| < |Received(Open(card, timeout), k)|
    ensures var src := Open(card, timeout);
            var raw := card.transport(timeout, j).value;
            Received(src, k)[|Received(src, j)|]
            == if card.transport(timeout, 0) == Some(RawInverseTs) then !card.invert(raw) else raw
  {
    ReceivedAt(Open(card, timeout), j, k);
  }

  // ---------------------------------------------------------------------------------------
  // K, the expected length and the length warning

  /** LowNibble is the mask `T0 & 0x0F` of the driver. */
  lemma LowNibbleIsMask(t0: byte)
    ensures LowNibble(t0) == (t0 & 0x0F) as nat
  {
  }

  /** The historical loop reaches its target exactly when the target fits the buffer and every
      one of the reads it needs succeeds. */
  lemma {:induction false} HistoricalReachesTarget(src: Source, c: Cursor, target: nat)
    requires |c.buf| <= target && |c.buf| <= MaxAtrSize
    ensures var h := Historical(src, c, target);
            |h.buf| == target <==>
              target <= MaxAtrSize && forall j :: c.pos <= j < c.pos + (target - |c.buf|) ==> src.Next(j).Some?
    decreases target - |c.buf|
  {
    if |c.buf| < target {
      var s := Take(src, c);
      if s.ok {
        HistoricalReachesTarget(src, s.at, target);
        assert s.at == Cursor(c.buf + [src.Norm(src.Next(c.pos).value)], c.pos + 1);
        assert (forall j :: c.pos <= j < c.pos + (target - |c.buf|) ==> src.Next(j).Some?)
               <==> (forall j :: c.pos + 1 <= j < c.pos + (target - |c.buf|) ==> src.Next(j).Some?);
      } else if |c.buf| < MaxAtrSize {
        assert src.Next(c.pos).None?;
      }
    }
  }

  /** The validator is handed exactly the n collected bytes, quirked, with length n and not the
      expected length: the bytes of the successful reads, in order, of which there may be
      fewer than atrlength; the warning is raised exactly when there are fewer. */
  lemma HandedIsCollected(card: Card, timeout: u32, validate: Validator)
    requires Acquire(Open(card, timeout)).Some?
    ensures var src := Open(card, timeout);
            var a := Acquire(src).value;
            var r := Decode(card, timeout, validate);
            && r.handed == Some(Quirk(Received(src, a.at.pos)))
            && |r.handed.value| == |a.at.buf| <= a.Expected()
            && (r.shortfall <==> |a.at.buf| < a.Expected())
            && r.status == Dispatch(validate(r.handed.value, |a.at.buf|))
  {
    AcquireStoresReceived(Open(card, timeout));
  }

  /** The final n never exceeds the expected length, and equals it exactly when the expected
      length fits the buffer and none of the K historical reads fails; only then is the
      length warning not logged. */
  lemma LengthAccounting(card: Card, timeout: u32, validate: Validator)
    requires Acquire(Open(card, timeout)).Some?
    ensures var src := Open(card, timeout);
            var a := Acquire(src).value;
            && |a.at.buf| <= a.Expected()
            && (Decode(card, timeout, validate).shortfall
                <==> !(a.Expected() <= MaxAtrSize
                       && forall j :: a.chain.pos <= j < a.chain.pos + a.k ==> src.Next(j).Some?))
  {
    var src := Open(card, timeout);
    var a := Acquire(src).value;
    HistoricalReachesTarget(src, a.chain, a.Expected());
  }

  // ---------------------------------------------------------------------------------------
  // An ATR as the driver counts it (without TCK) is read exactly

  /** Read attempt k succeeds, and its byte, normalized, is t[k]. */
  ghost predicate DeliveredAt(src: Source, t: seq<byte>, k: nat)
    requires k < |t|
  {
    src.Next(k).Some? && src.Norm(src.Next(k).value) == t[k]
  }

  /** Read attempts from `from` on deliver bytes whose normalized forms are t[from..]. */
  ghost predicate Delivers(src: Source, t: seq<byte>, from: nat)
  {
    forall k :: from <= k < |t| ==> DeliveredAt(src, t, k)
  }

  /** A delivered read stores t[i]: the cursor moves from t[..i] to t[..j], j = i + 1. */
  lemma TakeDelivered(src: Source, t: seq<byte>, i: nat, j: nat)
    requires j == i + 1 && j <= |t| && i < MaxAtrSize && DeliveredAt(src, t, i)
    ensures Take(src, Cursor(t[..i], i)) == Step(Cursor(t[..j], j), true)
  {
    assert t[..i] + [t[i]] == t[..j];
  }

  /** An interface byte that tdi announces and the card delivers is read; one it does not
      announce is skipped without a read. */
  lemma FieldDelivered(src: Source, t: seq<byte>, i: nat, tdi: byte, mask: byte, j: nat)
    requires mask == 0x10 || mask == 0x20 || mask == 0x40
    requires j == i + (if tdi & mask != 0 then 1 else 0) && j <= |t|
    requires tdi & mask != 0 ==> i < MaxAtrSize && DeliveredAt(src, t, i)
    ensures Field(src, Step(Cursor(t[..i], i), true), tdi, mask) == Step(Cursor(t[..j], j), true)
  {
    if tdi & mask != 0 {
      TakeDelivered(src, t, i, j);
    }
  }

  /** TA, TB and TC of a group, when all that tdi announces of them is delivered, are read whole. */
  lemma FieldsDelivered(src: Source, t: seq<byte>, i: nat, tdi: byte, j: nat)
    requires Delivers(src, t, i) && j == i + Announced(tdi & 0x7F) && j <= |t| && j <= MaxAtrSize
    ensures Field(src, Field(src, Field(src, Step(Cursor(t[..i], i), true), tdi, 0x10), tdi, 0x20), tdi, 0x40)
            == Step(Cursor(t[..j], j), true)
  {
    var a := if tdi & 0x10 != 0 then 1 else 0;
    var b := if tdi & 0x20 != 0 then 1 else 0;
    var c := if tdi & 0x40 != 0 then 1 else 0;
    assert Announced(tdi & 0x7F) == a + b + c;
    FieldDelivered(src, t, i, tdi, 0x10, i + a);
    FieldDelivered(src, t, i + a, tdi, 0x20, i + a + b);
    FieldDelivered(src, t, i + a + b, tdi, 0x40, j);
  }

  /** A group whose announced characters are all delivered and fit the buffer is read whole,
      in the order TA, TB, TC, TD, ending at j; the chain goes on exactly when TD is announced. */
  lemma GroupDelivered(src: Source, t: seq<byte>, i: nat, tdi: byte, j: nat)
    requires Delivers(src, t, i) && j == i + Announced(tdi) && j <= |t| && j <= MaxAtrSize
    ensures Group(src, Cursor(t[..i], i), tdi)
            == GroupEnd(Cursor(t[..j], j), if tdi & 0x80 != 0 then Some(t[j - 1]) else None)
  {
    var f := Announced(tdi & 0x7F);
    if tdi & 0x80 != 0 {
      assert Announced(tdi) == f + 1;
      FieldsDelivered(src, t, i, tdi, i + f);
      TakeDelivered(src, t, i + f, j);
      assert t[..j][j - 1] == t[j - 1];
    } else {
      assert Announced(tdi) == f;
      FieldsDelivered(src, t, i, tdi, j);
    }
  }

  /** The interface characters after a chained group: they follow its TD, which announces them. */
  lemma NextGroup(t: seq<byte>, i: nat, tdi: byte)
    requires i <= |t| && InterfaceLength(t[i..], tdi).Some? && tdi & 0x80 != 0
    ensures var g := Announced(tdi);
            && 1 <= g && i + g <= |t|
            && InterfaceLength(t[i + g..], t[i + g - 1]).Some?
            && InterfaceLength(t[i..], tdi).value == g + InterfaceLength(t[i + g..], t[i + g - 1]).value
  {
    var u := t[i..];
    var g := Announced(tdi);
    InterfaceLengthChained(u, tdi);
    assert u[g..] == t[i + g..] && u[g - 1] == t[i + g - 1];
  }

  /** A pass of the chain walk that reads a TD goes on from the next group's characters. */
  lemma WalkChains(src: Source, t: seq<byte>, i: nat, tdi: byte, j: nat)
    requires Delivers(src, t, i) && i < MaxAtrSize && tdi & 0x80 != 0 && j <= |t|
    requires i + Announced(tdi) <= |t| && i + Announced(tdi) <= MaxAtrSize
    requires var g := Announced(tdi);
             Walk(src, Cursor(t[..i + g], i + g), t[i + g - 1]) == Cursor(t[..j], j)
    ensures Walk(src, Cursor(t[..i], i), tdi) == Cursor(t[..j], j)
  {
    var g := Announced(tdi);
    GroupDelivered(src, t, i, tdi, i + g);
    var e := Group(src, Cursor(t[..i], i), tdi);
    assert e.at == Cursor(t[..i + g], i + g) && e.next == Some(t[i + g - 1]);
  }

  /** A walk begun on a full buffer reads nothing: the chain loop's test at the top of a pass. */
  lemma WalkAtCapacity(src: Source, c: Cursor, tdi: byte)
    requires |c.buf| >= MaxAtrSize
    ensures Walk(src, c, tdi) == c
  {
  }

  /** A walk whose pass reads no TD ends after the characters of that pass (a walk begun at
      capacity is covered only when it has nothing left to read). */
  lemma WalkStops(src: Source, t: seq<byte>, i: nat, tdi: byte, j: nat)
    requires Delivers(src, t, i) && i <= |t| && (i >= MaxAtrSize || tdi & 0x80 == 0)
    requires InterfaceLength(t[i..], tdi).Some? && i + InterfaceLength(t[i..], tdi).value == j
    requires j <= MaxAtrSize
    ensures j <= |t| && Walk(src, Cursor(t[..i], i), tdi) == Cursor(t[..j], j)
  {
    InterfaceLengthWithin(t[i..], tdi);
    if i < MaxAtrSize {
      InterfaceLengthLast(t[i..], tdi);
      GroupDelivered(src, t, i, tdi, j);
    }
  }

  /** The chain walk over delivered characters reads exactly the interface characters that
      ISO/IEC 7816-3 chaining announces, and stops at the first TDi with bit 0x80 clear:
      it ends at j, i plus the interface length. */
  lemma {:induction false} WalkDelivered(src: Source, t: seq<byte>, i: nat, tdi: byte, j: nat)
    requires Delivers(src, t, i) && i <= |t|
    requires InterfaceLength(t[i..], tdi).Some? && i + InterfaceLength(t[i..], tdi).value == j
    requires j <= MaxAtrSize
    ensures j <= |t| && Walk(src, Cursor(t[..i], i), tdi) == Cursor(t[..j], j)
    decreases |t| - i
  {
    if i < MaxAtrSize && tdi & 0x80 != 0 {
      NextGroup(t, i, tdi);
      var g := Announced(tdi);
      WalkDelivered(src, t, i + g, t[i + g - 1], j);
      WalkChains(src, t, i, tdi, j);
    } else {
      WalkStops(src, t, i, tdi, j);
    }
  }

  /** The historical loop over delivered characters reads all of t, the target being |t|. */
  lemma {:induction false} HistoricalDelivered(src: Source, t: seq<byte>, i: nat, target: nat)
    requires Delivers(src, t, i) && i <= |t| <= MaxAtrSize && target == |t|
    ensures Historical(src, Cursor(t[..i], i), target) == Cursor(t, |t|)
    decreases |t| - i
  {
    if i < |t| {
      TakeDelivered(src, t, i, i + 1);
      HistoricalDelivered(src, t, i + 1, target);
    } else {
      assert t[..i] == t;
    }
  }

  /** Collect in terms of the results of its two loops. */
  lemma CollectOf(src: Source, header: Cursor, t0: byte, chain: Cursor, at: Cursor)
    requires Walk(src, header, t0) == chain
    requires Historical(src, chain, |chain.buf| + LowNibble(t0)) == at
    ensures Collect(src, header, t0) == Acquired(chain, LowNibble(t0), at)
  {
  }

  /** After delivered TS and T0, the walk reads the interface characters and the historical
      loop the K characters after them. */
  lemma CollectDelivered(src: Source, t: seq<byte>, l: nat)
    requires Delivers(src, t, 2) && 2 <= |t| <= MaxAtrSize
    requires InterfaceLength(t[2..], t[1]) == Some(l) && 2 + l + LowNibble(t[1]) == |t|
    ensures Collect(src, Cursor(t[..2], 2), t[1])
            == Acquired(Cursor(t[..2 + l], 2 + l), LowNibble(t[1]), Cursor(t, |t|))
  {
    var chain := Cursor(t[..2 + l], 2 + l);
    WalkDelivered(src, t, 2, t[1], 2 + l);
    HistoricalDelivered(src, t, 2 + l, |chain.buf| + LowNibble(t[1]));
    CollectOf(src, Cursor(t[..2], 2), t[1], chain, Cursor(t, |t|));
  }

  /** A card that delivers, in its own convention, an ATR t (without TCK) of at most
      SCI_MAX_ATR_SIZE bytes is read exactly: the buffer is t, n equals the expected length
      2 + (interface characters) + K, no length warning is logged, and the validator is
      handed t (after the IRDETO quirk) with length |t|. */
  lemma CompleteAtrIsReadExactly(card: Card, timeout: u32, validate: Validator, t: seq<byte>)
    requires Delivers(Open(card, timeout), t, 0)
    requires AtrLength(t) == Some(|t|) && |t| <= MaxAtrSize
    ensures Acquire(Open(card, timeout)).Some?
    ensures var a := Acquire(Open(card, timeout)).value;
            a.at == Cursor(t, |t|) && a.Expected() == |t|
    ensures Decode(card, timeout, validate) == AtrResult(Dispatch(validate(Quirk(t), |t|)), Some(Quirk(t)), false)
  {
    var src := Open(card, timeout);
    assert DeliveredAt(src, t, 0) && DeliveredAt(src, t, 1);
    var header := Cursor([src.Norm(src.Next(0).value), src.Norm(src.Next(1).value)], 2);
    assert header == Cursor(t[..2], 2);
    var l := InterfaceLength(t[2..], t[1]).value;
    LowNibbleIsMask(t[1]);
    CollectDelivered(src, t, l);
    assert Acquire(src) == Some(Acquired(Cursor(t[..2 + l], 2 + l), LowNibble(t[1]), Cursor(t, |t|)));
  }
}
