/**
  The interface-character chaining of an Answer-to-Reset by ISO/IEC 7816-3:2006 clause 8.2,
  written over the (convention-normalized) characters alone, independently of how a reader
  collects them: TS, T0, then groups of interface characters, each announced by the indicator
  before it (T0 for the first group, TDi for the next), then the K historical characters that
  the low nibble of T0 announces. The check character TCK, which the standard adds whenever a
  TDi indicates a protocol other than T=0, is not counted: the driver never reads it.
*/
module Iso7816 {
  import opened SciTypes

  /** The number of interface characters (TA, TB, TC, TD) an indicator announces by its bits 5 to 8. */
  function Announced(y: byte): (g: nat)
    ensures g <= 4
    ensures y & 0x80 != 0 ==> g >= 1
  {
    (if y & 0x10 != 0 then 1 else 0) + (if y & 0x20 != 0 then 1 else 0)
    + (if y & 0x40 != 0 then 1 else 0) + (if y & 0x80 != 0 then 1 else 0)
  }

  /** The length of the interface characters at the start of t, whose first group is announced
      by y; None when t ends before the last announced group does. */
  function InterfaceLength(t: seq<byte>, y: byte): Option<nat>
    decreases |t|
  {
    var g := Announced(y);
    if g > |t| then None
    else if y & 0x80 == 0 then Some(g)
    else
      match InterfaceLength(t[g..], t[g - 1])
      case None => None
      case Some(l) => Some(g + l)
  }

  /** The length of the ATR that starts t without its check character TCK: 2 + interface
      characters + K; None when t is too short to hold its interface characters. */
  function AtrLength(t: seq<byte>): Option<nat>
  {
    if |t| < 2 then None
    else
      match InterfaceLength(t[2..], t[1])
      case None => None
      case Some(l) => Some(2 + l + (t[1] & 0x0F) as nat)
  }

  /** The interface characters lie within the sequence they are counted in. */
  lemma {:induction false} InterfaceLengthWithin(t: seq<byte>, y: byte)
    requires InterfaceLength(t, y).Some?
    ensures Announced(y) <= InterfaceLength(t, y).value <= |t|
    decreases |t|
  {
    var g := Announced(y);
    if y & 0x80 != 0 {
      InterfaceLengthWithin(t[g..], t[g - 1]);
    }
  }

  /** A chained group: the indicator's TD is the last of its g characters, and the rest of the
      interface characters follow it. */
  lemma InterfaceLengthChained(t: seq<byte>, y: byte)
    requires InterfaceLength(t, y).Some? && y & 0x80 != 0
    ensures 1 <= Announced(y) <= |t|
    ensures var g := Announced(y);
            var rest := InterfaceLength(t[g..], t[g - 1]);
            rest.Some? && InterfaceLength(t, y).value == g + rest.value
  {
  }

  lemma InterfaceLengthLast(t: seq<byte>, y: byte)
    requires InterfaceLength(t, y).Some? && y & 0x80 == 0
    ensures InterfaceLength(t, y).value == Announced(y) <= |t|
  {
  }
}
