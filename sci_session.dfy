/**
  The reader as the driver drives it through its device handle: every control request
  the driver issues, and the ATR read between them, is appended to a log, and the parameter record the device holds is
  replaced by each parameter write and returned by each parameter read. On this state the
  cold reset, the fast reset and the parameter write issue their requests in the driver's
  order around the ATR read.
*/
module SciSession {
  import opened SciTypes
  import opened SciParams
  import opened AtrDecode
  import AtrRead

  /** A control request on the reader handle, or the ATR read between them (with the buffer
      it handed to the validator, if any). */
  datatype Command =
    | SetParameters(p: Params)
    | GetParameters
    | SetReset
    | AnswerRead(handed: Option<seq<byte>>)
    | SetAtrReady

  /** The requests of a cold reset around an ATR read whose result is a. */
  function ColdResetCommands(mhz: i32, a: AtrResult): seq<Command>
  {
    [SetParameters(DefaultParams(mhz)), SetReset, AnswerRead(a.handed), SetAtrReady]
  }

  /** The requests of a fast reset around an ATR read whose result is a. */
  function FastResetCommands(a: AtrResult): seq<Command>
  {
    [SetReset, AnswerRead(a.handed), SetAtrReady]
  }

  /** The requests of a parameter write: read the held record, send back the overlay. */
  function WriteSettingsCommands(held: Params, s: Settings): seq<Command>
  {
    [GetParameters, SetParameters(Overlay(held, s))]
  }

  /** Request i is a parameter write and no later request is one. */
  predicate LastWriteAt(cs: seq<Command>, i: int)
  {
    0 <= i < |cs| && cs[i].SetParameters? && forall j :: i < j < |cs| ==> !cs[j].SetParameters?
  }

  /** The record the device holds after a sequence of requests, starting from `held`. */
  function HeldAfter(held: Params, cs: seq<Command>): (p: Params)
    ensures (forall i :: 0 <= i < |cs| ==> !cs[i].SetParameters?) ==> p == held
    ensures |cs| > 0 && cs[|cs| - 1].SetParameters? ==> p == cs[|cs| - 1].p
    ensures forall i :: LastWriteAt(cs, i) ==> p == cs[i].p
    decreases |cs|
  {
    if cs == [] then held
    else
      var last := cs[|cs| - 1];
      if last.SetParameters? then last.p else HeldAfter(held, cs[..|cs| - 1])
  }

  /** A fast reset differs from a cold reset only in not pushing the default parameters first. */
  lemma FastResetOmitsParameters(mhz: i32, a: AtrResult)
    ensures ColdResetCommands(mhz, a) == [SetParameters(DefaultParams(mhz))] + FastResetCommands(a)
  {
  }

  /** After a cold reset the device holds the defaults of the reader's clock class, whatever
      it held before; a fast reset leaves the held record alone. */
  lemma {:induction false} ResetsAndHeldRecord(held: Params, mhz: i32, a: AtrResult)
    ensures HeldAfter(held, ColdResetCommands(mhz, a)) == DefaultParams(mhz)
    ensures HeldAfter(held, FastResetCommands(a)) == held
  {
    var cold := ColdResetCommands(mhz, a);
    assert cold[..|cold| - 1][..2] == [SetParameters(DefaultParams(mhz)), SetReset];
    assert HeldAfter(held, cold) == HeldAfter(held, cold[..|cold| - 1]);
    assert HeldAfter(held, cold[..|cold| - 1]) == HeldAfter(held, cold[..|cold| - 1][..2]);
    assert HeldAfter(held, cold[..|cold| - 1][..2]) == HeldAfter(held, [SetParameters(DefaultParams(mhz))]);
  }

  /** A parameter write leaves the device holding the overlay of the request on what it held. */
  lemma {:induction false} WriteSettingsHeldRecord(held: Params, s: Settings)
    ensures HeldAfter(held, WriteSettingsCommands(held, s)) == Overlay(held, s)
  {
  }

  /** The reader behind the handle: its clock class, the record it holds, the request log. */
  class Reader {
    const mhz: i32
    var held: Params
    var log: seq<Command>

    constructor (mhz: i32, held: Params)
      ensures this.mhz == mhz && this.held == held && log == []
    {
      this.mhz := mhz;
      this.held := held;
      log := [];
    }

    /** One entry of the log (an ioctl, or the ATR read between ioctls); a parameter write
        replaces the held record. */
    method Send(c: Command)
      modifies this
      ensures log == old(log) + [c]
      ensures held == HeldAfter(old(held), [c])
    {
      log := log + [c];
      if c.SetParameters? {
        held := c.p;
      }
    }

    /** Sci_Reset: push the clock-class defaults, assert reset, read the ATR, signal ATR ready,
        and answer with the ATR read's status. */
    method ColdReset(card: Card, validate: Validator) returns (ret: Status)
      modifies this
      ensures var a := Decode(card, AtrTimeout(mhz), validate);
              ret == a.status && log == old(log) + ColdResetCommands(mhz, a)
      ensures held == DefaultParams(mhz)
    {
      var params := DefaultParams(mhz);
      Send(SetParameters(params));
      Send(SetReset);
      var handed: Option<seq<byte>>, shortfall: bool;
      ret, handed, shortfall := AtrRead.ReadAtr(mhz, card, validate);
      Send(AnswerRead(handed));
      Send(SetAtrReady);
    }

    /** Sci_FastReset: the cold reset without the parameter push. */
    method FastReset(card: Card, validate: Validator) returns (ret: Status)
      modifies this
      ensures var a := Decode(card, AtrTimeout(mhz), validate);
              ret == a.status && log == old(log) + FastResetCommands(a)
      ensures held == old(held)
    {
      Send(SetReset);
      var handed: Option<seq<byte>>, shortfall: bool;
      ret, handed, shortfall := AtrRead.ReadAtr(mhz, card, validate);
      Send(AnswerRead(handed));
      Send(SetAtrReady);
    }

    /** Sci_WriteSettings: fetch the held record, overlay the request, send it back; always OK. */
    method WriteSettings(s: Settings) returns (ret: Status)
      modifies this
      ensures ret == OK
      ensures log == old(log) + WriteSettingsCommands(old(held), s)
      ensures held == Overlay(old(held), s)
    {
      Send(GetParameters);
      var params := held;
      params := Overlay(params, s);
      Send(SetParameters(params));
      return OK;
    }
  }
}
