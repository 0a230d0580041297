# SCI reader driver: ATR acquisition, session parameters and resets

This project models the internal smart-card interface (SCI) driver of oscam,
`trunk/csctapi/ifd_sci.c`. It covers five parts:

- **Sci_Read_ATR.** The Answer-to-Reset read. It reads TS and T0 and detects the inverse
  convention from a raw TS of 0x03. Under the inverse convention it stores every byte as `~INVERT_BYTE` of the raw byte;
  otherwise it stores the raw bytes.
  It walks the chain of interface bytes TA/TB/TC/TD announced by each TDi, then reads the
  K historical bytes announced by the low nibble of T0. Finally it applies the IRDETO
  first-byte quirk and hands the buffer to the ATR validator.
- **Sci_Reset default parameters.** The defaults a cold reset derives from the reader's
  clock class.
- **Sci_WriteSettings.** The overlay of a parameter write onto the record the reader holds.
- **Command order.** The order in which `Sci_Reset`, `Sci_FastReset` and `Sci_WriteSettings`
  issue their control requests around the ATR read.
- **The buffer overrun.** The driver as written can store past the end of its ATR buffer.
  This is stated under "## Findings".

Modules:

- `SciTypes` (sci_types.dfy): bytes as `bv8`, the C integer widths, status and verdict codes, and the
  buffer capacity.
- `SciParams` (sci_params.dfy): the SCI_PARAMETERS record, the default branches, the ATR
  timeout and the parameter overlay, all as pure functions.
- `AtrDecode` (atr_decode.dfy): the ATR read as functions over a card. A card is a transport that
  answers the k-th read attempt with a byte or a failure, plus INVERT_BYTE. `Decode` is the
  whole of Sci_Read_ATR as a function of the card, the timeout and the validator.
- `AtrRead` (atr_read.dfy): Sci_Read_ATR as the driver runs it. It fills one array `buf` in
  place with an index `n`, runs the chain loop with its breaks and the historical loop,
  and applies the quirk in place. Every method is proved equal to its `AtrDecode` function,
  and `ReadAtr` is proved equal to `Decode`.
- `Iso7816` (iso7816.dfy): an independent reference definition of the interface-character
  chaining of ISO/IEC 7816-3:2006 clause 8.2, and of the ATR length as the driver counts it
  (TS, T0, interface characters, K historical characters, without the check character TCK),
  with no reader in it.
- `AtrProps` (atr_props.dfy): the properties of the decoder. Every stored byte is a
  normalized successful read, in order. The convention is applied to every stored byte.
  The length is accounted for, and so is the length warning. An ATR that fits is read
  exactly, with its length as `Iso7816` defines it. The chain walk and the historical loop
  make no read after a failed one.
- `SciSession` (sci_session.dfy): a `Reader` class holding the record the device holds and
  a log of the requests issued on the handle, with the ATR read between them as an entry of
  its own. `ColdReset`, `FastReset` and `WriteSettings`
  are proved to issue exactly the driver's request sequences.
- `AtrOverflow` (atr_overflow.dfy): the driver's unchecked reads, with a card on which they
  overrun the buffer, beside the checked model.

The capacity bound of the chain loop does not guard every interface-byte read. The code
tests `n < SCI_MAX_ATR_SIZE` only at the top of a pass (ifd_sci.c:105), so a pass begun at
n = 32 writes buf[32..35], three bytes past the end. The model keeps the top-of-pass test and
adds a capacity check before each store; the unchecked reads are modelled separately under
"## Findings".

## Model

| member | source | states |
|---|---|---|
| SciParams.PllDivisor | trunk/csctapi/ifd_sci.c:46 | the divisor for a PLL reader is mhz/100 rounded half up: mhz lies within 50 of 100·fs |
| SciParams.DefaultParams | trunk/csctapi/ifd_sci.c:37-65 | T=0 and ETU=372 always; up to 2000 EGT=3 and fs=5; above 2000 EGT=0 and fs=mhz/100 rounded; at 8300 fs=16 overriding; every other field is zero from the memset |
| SciParams.AtrTimeout | trunk/csctapi/ifd_sci.c:75-85 | the byte timeout is 800, or 800000 for a reader above 2000 |
| SciParams.Overlay | trunk/csctapi/ifd_sci.c:165-179 | T, fs, EGT, WWT, BWT and CWT are always taken from the request; ETU, P and I are taken when nonzero and kept from the held record otherwise; clock-stop polarity, check and U are kept |
| SciParams.OverlayIdempotent | trunk/csctapi/ifd_sci.c:165-187 | writing the same request twice leaves the record as one write did |
| SciParams.OverlayDependsOnlyOnKeptFields | trunk/csctapi/ifd_sci.c:165-179 | the held record influences the result only through the optional fields left at zero and the reader-owned fields |
| SciParams.OverlayOfHeldIsIdentity | trunk/csctapi/ifd_sci.c:165-179 | writing back the held values changes nothing |
| SciParams.DefaultExamples | trunk/csctapi/ifd_sci.c:37-85 | clock classes 1000, 4000, 8300 and 8350 select fs 5, 40, 16 and 84; the timeouts are 800 and 800000 |
| AtrDecode.Open | trunk/csctapi/ifd_sci.c:90-94 | the inverse convention is on exactly when the raw first byte is 0x03 |
| AtrDecode.Received | trunk/csctapi/ifd_sci.c:107-141 | the normalized bytes of the successful reads among the first k attempts; never more than k of them |
| AtrDecode.Present | trunk/csctapi/ifd_sci.c:106-124 | the test `TDi & mask != 0` is equivalent to the driver's test of TDi OR the complemented mask against 0xFF, for each of the four masks |
| AtrDecode.LowNibble | trunk/csctapi/ifd_sci.c:102 | K is below 16 |
| AtrDecode.Source.Norm | trunk/csctapi/ifd_sci.c:93-140 | no ensures of its own: the stored form of a raw byte, `~INVERT_BYTE(b)` under the inverse convention and b otherwise, at lines 93, 100, 108, 114, 120, 126 and 140; AtrProps.ConventionOfStoredBytes states it for every stored byte |
| AtrDecode.Take | trunk/csctapi/ifd_sci.c:107-141 | no ensures of its own: one read with the added capacity check; TakeReceived, TakeBreaks and TakeDelivered state what it stores and reads, and AtrRead.TakeInto is proved equal to it |
| AtrDecode.Field | trunk/csctapi/ifd_sci.c:106-123 | a field read stores at most one byte and never grows a buffer past capacity; after a failed read none follows |
| AtrDecode.Group | trunk/csctapi/ifd_sci.c:105-131 | one pass stores at most four bytes within capacity; the chain goes on only when TD was announced and read, and the next TDi is the byte just stored |
| AtrDecode.Walk | trunk/csctapi/ifd_sci.c:105-132 | the chain walk only appends (the starting buffer is a prefix of the result), reads forward, and stays within capacity |
| AtrDecode.Pass | trunk/csctapi/ifd_sci.c:105-132 | a pass begun below capacity only appends and ends within it |
| AtrDecode.Historical | trunk/csctapi/ifd_sci.c:138-142 | the historical loop only appends (the starting buffer is a prefix of the result), reads forward, stays within capacity and never passes its target |
| AtrDecode.Collect | trunk/csctapi/ifd_sci.c:133-142 | K is the low nibble of T0, and the final length lies between the chain's length and the expected length, within capacity |
| AtrDecode.Acquire | trunk/csctapi/ifd_sci.c:86-99 | there is no collection exactly when the first or the second read fails |
| AtrDecode.Quirk | trunk/csctapi/ifd_sci.c:146-147 | byte 0 changes, to 0x3B, exactly when it is neither 0x3B nor 0x3F, n > 9 and bytes 4..9 read "IRDETO"; no other byte changes and the length is kept |
| AtrDecode.Dispatch | trunk/csctapi/ifd_sci.c:151-157 | the result is ERROR exactly when the validator says invalid; a malformed ATR is OK |
| AtrDecode.Decode | trunk/csctapi/ifd_sci.c:73-158 | the validator is never called exactly when TS or T0 cannot be read, and the result is then ERROR; otherwise it is handed 2 to 33 bytes, and the result is ERROR exactly when it answers invalid (which bytes it is handed is stated by AtrProps.HandedIsCollected) |
| AtrRead.TakeInto | trunk/csctapi/ifd_sci.c:107-110 | one read stores the normalized byte at buf[n] and advances n, as the guarded read function says |
| AtrRead.ReadField | trunk/csctapi/ifd_sci.c:106-123 | the TA/TB/TC read, made when TDi OR the complemented mask is 0xFF, is the field read function |
| AtrRead.ReadGroup | trunk/csctapi/ifd_sci.c:106-131 | one pass of the chain loop over the array is the group function, the next TDi included |
| AtrRead.WalkChain | trunk/csctapi/ifd_sci.c:105-132 | the chain loop over the array, with its breaks, leaves exactly the walk's bytes in buf[..n] |
| AtrRead.ReadHistorical | trunk/csctapi/ifd_sci.c:138-142 | the historical loop over the array leaves exactly the historical function's bytes in buf[..n] |
| AtrRead.FixIrdeto | trunk/csctapi/ifd_sci.c:146-147 | the in-place quirk leaves the quirk function of the collected bytes in buf[..n] |
| AtrRead.CollectBytes | trunk/csctapi/ifd_sci.c:105-142 | the two loops collect what the collection function does, and atrlength is the chain's n plus K |
| AtrRead.ReadHeader | trunk/csctapi/ifd_sci.c:86-104 | both header reads succeed exactly when the transport delivers attempts 0 and 1; buf[0..2] then holds TS and T0 normalized, and TDi is T0 |
| AtrRead.ReadAtr | trunk/csctapi/ifd_sci.c:73-158 | the driver's read over the array returns the status, the buffer handed to the validator and the warning flag that the decoding function gives |
| Iso7816.Announced | trunk/csctapi/ifd_sci.c:106-131 | an indicator announces at most four interface characters, and at least one when it announces TD |
| Iso7816.InterfaceLengthWithin | trunk/csctapi/ifd_sci.c:105-132 | the interface characters of an ATR lie within it, at least those of the first group |
| AtrProps.TakeReceived | trunk/csctapi/ifd_sci.c:107-110 | a read keeps the buffer equal to the normalized successful reads so far |
| AtrProps.FieldReceived | trunk/csctapi/ifd_sci.c:106-123 | a field read keeps the buffer equal to the normalized successful reads |
| AtrProps.GroupReceived | trunk/csctapi/ifd_sci.c:105-131 | a pass keeps the buffer equal to the normalized successful reads |
| AtrProps.WalkReceived | trunk/csctapi/ifd_sci.c:105-132 | the chain walk keeps the buffer equal to the normalized successful reads |
| AtrProps.HistoricalReceived | trunk/csctapi/ifd_sci.c:138-142 | the historical loop keeps the buffer equal to the normalized successful reads |
| AtrProps.TakeBreaks | trunk/csctapi/ifd_sci.c:107-110 | a read makes at most one attempt, and that attempt succeeded when a byte was stored |
| AtrProps.FieldBreaks | trunk/csctapi/ifd_sci.c:106-123 | a TA/TB/TC read makes at most one attempt, and stores only after its group's earlier reads succeeded |
| AtrProps.GroupBreaks | trunk/csctapi/ifd_sci.c:105-131 | within one pass every attempt but the last succeeded, and every attempt did when the chain goes on: a failed read breaks the pass |
| AtrProps.WalkBreaks | trunk/csctapi/ifd_sci.c:105-132 | the chain walk makes no attempt after a failed one: every attempt but its last succeeded |
| AtrProps.PassBreaks | trunk/csctapi/ifd_sci.c:105-132 | a pass and the walk after it make no attempt after a failed one |
| AtrProps.HistoricalBreaks | trunk/csctapi/ifd_sci.c:138-142 | the historical loop makes no attempt after a failed one |
| AtrProps.ReceivedGrows | trunk/csctapi/ifd_sci.c:107-141 | later reads only append to what earlier reads stored |
| AtrProps.ReceivedAt | trunk/csctapi/ifd_sci.c:107-141 | a successful read j is stored, normalized, at the position after the bytes of the reads before it |
| AtrProps.CollectReceived | trunk/csctapi/ifd_sci.c:105-142 | after the chain and after the historical bytes the buffer is the sequence of normalized successful reads |
| AtrProps.AcquireStoresReceived | trunk/csctapi/ifd_sci.c:86-142 | every byte stored is a normalized successful read, in order; byte 0 is TS, byte 1 is T0, and K is T0's low nibble |
| AtrProps.ConventionOfStoredBytes | trunk/csctapi/ifd_sci.c:91-140 | every stored byte equals `~INVERT_BYTE(raw)` when the raw TS is 0x03, and the raw byte otherwise |
| AtrProps.LowNibbleIsMask | trunk/csctapi/ifd_sci.c:102 | K is `T0 & 0x0F` |
| AtrProps.HistoricalReachesTarget | trunk/csctapi/ifd_sci.c:138-142 | the historical loop reaches atrlength exactly when atrlength fits the buffer and every read it needs succeeds |
| AtrProps.HandedIsCollected | trunk/csctapi/ifd_sci.c:133-157 | whenever TS and T0 are read, the validator is handed exactly the quirked bytes of the successful reads, in order, with their count n and not atrlength; n never exceeds atrlength, and the warning is raised exactly when n is smaller |
| AtrProps.LengthAccounting | trunk/csctapi/ifd_sci.c:133-144 | the final n never exceeds atrlength; the length warning is raised exactly when atrlength does not fit, or one of the K historical reads fails |
| AtrProps.TakeDelivered | trunk/csctapi/ifd_sci.c:107-110 | a read of a delivered byte appends it |
| AtrProps.FieldDelivered | trunk/csctapi/ifd_sci.c:106-123 | a field read on a delivered ATR appends the next byte exactly when it is announced |
| AtrProps.FieldsDelivered | trunk/csctapi/ifd_sci.c:106-123 | TA, TB and TC on a delivered ATR append the characters the indicator announces |
| AtrProps.GroupDelivered | trunk/csctapi/ifd_sci.c:105-131 | a pass on a delivered ATR reads the announced characters, and the chain goes on with TD when TD is announced |
| AtrProps.WalkChains | trunk/csctapi/ifd_sci.c:105-132 | a chained pass followed by the rest of the walk ends where the rest ends |
| AtrProps.WalkStops | trunk/csctapi/ifd_sci.c:105-132 | on a delivered ATR, a walk whose current TDi has bit 0x80 clear reads exactly that group's announced characters and stops |
| AtrProps.WalkAtCapacity | trunk/csctapi/ifd_sci.c:105 | a walk begun on a full buffer returns its cursor unchanged: no read is made and nothing is stored (Dafny proves it from Walk's definition alone) |
| AtrProps.WalkDelivered | trunk/csctapi/ifd_sci.c:105-132 | on a delivered ATR the chain walk reads exactly the interface characters as ISO/IEC 7816-3 counts them, and stops after the TDi whose bit 0x80 is clear |
| AtrProps.HistoricalDelivered | trunk/csctapi/ifd_sci.c:138-142 | on a delivered ATR the historical loop reads the remaining characters up to atrlength |
| AtrProps.CollectDelivered | trunk/csctapi/ifd_sci.c:105-142 | after TS and T0, a delivered ATR is collected exactly, with the chain ending after its interface characters |
| AtrProps.CompleteAtrIsReadExactly | trunk/csctapi/ifd_sci.c:73-158 | a card delivering an ATR without TCK of at most 33 bytes has it read exactly: n equals atrlength = 2 + interface characters + K, no warning is raised, and the validator receives the quirked ATR and its length |
| SciSession.ColdResetCommands | trunk/csctapi/ifd_sci.c:66-69 | no ensures of its own: the cold-reset trace; Reader.ColdReset is proved to log it, and FastResetOmitsParameters and ResetsAndHeldRecord state its content |
| SciSession.FastResetCommands | trunk/csctapi/ifd_sci.c:217-219 | no ensures of its own: the fast-reset trace; Reader.FastReset is proved to log it, and FastResetOmitsParameters and ResetsAndHeldRecord state its content |
| SciSession.WriteSettingsCommands | trunk/csctapi/ifd_sci.c:165-187 | no ensures of its own: the parameter-write trace; Reader.WriteSettings is proved to log it, and WriteSettingsHeldRecord states its effect on the held record |
| SciSession.HeldAfter | trunk/csctapi/ifd_sci.c:165-187 | the held record after any request sequence is the record of its last parameter write, wherever that write stands, and the starting record when there is none |
| SciSession.FastResetOmitsParameters | trunk/csctapi/ifd_sci.c:214-222 | a fast reset's requests are a cold reset's without the leading parameter push |
| SciSession.ResetsAndHeldRecord | trunk/csctapi/ifd_sci.c:66-70 | after a cold reset the device holds the defaults of the reader's clock class; a fast reset leaves the held record unchanged |
| SciSession.WriteSettingsHeldRecord | trunk/csctapi/ifd_sci.c:165-187 | after a parameter write the device holds the overlay of the request on the record it held |
| SciSession.Reader.Send | trunk/csctapi/ifd_sci.c:66-69 | a log entry (an ioctl, or the ATR read between ioctls) is appended, and a parameter write replaces the held record |
| SciSession.Reader.ColdReset | trunk/csctapi/ifd_sci.c:30-71 | push the defaults, assert reset, read the ATR, then signal ATR ready; return the ATR read's status; the device then holds the defaults |
| SciSession.Reader.FastReset | trunk/csctapi/ifd_sci.c:214-222 | assert reset, read the ATR, then signal ATR ready; return the ATR read's status; the held record is unchanged |
| SciSession.Reader.WriteSettings | trunk/csctapi/ifd_sci.c:160-189 | get the parameters, then set their overlay with the request; always OK |
| AtrOverflow.TakeAsWritten | trunk/csctapi/ifd_sci.c:107-141 | no ensures of its own: one read stored at buf + n whatever n is; its effect is stated by FloodHistoricalAsWritten and DriverOverrunsBuffer |
| AtrOverflow.FieldAsWritten | trunk/csctapi/ifd_sci.c:106-123 | no ensures of its own: a TA/TB/TC read as written, through TakeAsWritten; stated through FloodWalkAsWritten |
| AtrOverflow.GroupAsWritten | trunk/csctapi/ifd_sci.c:106-131 | a pass as written stores at least one more byte when the chain goes on; FloodWalkAsWritten states it on the flooding card |
| AtrOverflow.WalkAsWritten | trunk/csctapi/ifd_sci.c:105-132 | no ensures of its own: the chain loop with the capacity tested at the top of a pass only; FloodWalkAsWritten and DriverOverrunsBuffer state its overrun |
| AtrOverflow.HistoricalAsWritten | trunk/csctapi/ifd_sci.c:138-142 | no ensures of its own: the historical loop bounded by atrlength alone; FloodHistoricalAsWritten and DriverOverrunsBuffer state its overrun |
| AtrOverflow.FloodWalkAsWritten | trunk/csctapi/ifd_sci.c:105-132 | the chain loop as written, on a card answering 0xFF, ends with 34 bytes stored from any 2 + 4m |
| AtrOverflow.FloodHistoricalAsWritten | trunk/csctapi/ifd_sci.c:138-142 | the historical loop as written, on that card, stores up to atrlength whatever the capacity |
| AtrOverflow.DriverOverrunsBuffer | trunk/csctapi/ifd_sci.c:105-142 | on that card the driver as written stores 34 bytes in the chain loop and 49 in all into its 33-byte buffer |
| AtrOverflow.FloodWalk | trunk/csctapi/ifd_sci.c:105-132 | with the capacity check, the chain walk on that card stops at 33 bytes |
| AtrOverflow.FloodingAtrIsCutAtCapacity | trunk/csctapi/ifd_sci.c:105-144 | with the capacity check, the validator is handed the 33 bytes the buffer holds, and the length warning is raised |

## Left out

- The ioctl channel is not executed. Its requests are entries in `Reader.log`,
  and a parameter read returns `Reader.held`. `IO_Serial_Read` is the card's `transport`
  function. Failures of the ioctls themselves are not modelled, because the driver ignores
  their return values.
- The busy-wait on IOCTL_GET_ATR_STATUS at ifd_sci.c:78-82 is left out. It is an unbounded
  hardware poll with no termination argument, and the model assumes readiness.
- ATR_InitFromArray is the `Validator` parameter. The ATR record it fills is not part of
  this model.
- The INVERT_BYTE macro is defined in a header that is not part of this model. It is an
  uninterpreted `invert` function of the card.
- All rdr_debug_mask and cs_log logging is left out. The length warning at ifd_sci.c:144
  is kept as the `shortfall` flag.
- The floating-point `reader->mhz / 100.0 + 0.5` is replaced by `(mhz + 50) / 100`. For
  positive 32-bit clock classes both forms give the same value.
- Sci_GetStatus, Sci_Activate and Sci_Deactivate are left out. They are thin ioctl wrappers
  with no logic.
- The `__SH4__` build-time choice of the activation request is left out, because it only
  concerns Sci_Activate.
- The check character TCK is never read. ISO/IEC 7816-3 adds it whenever a TDi
  indicates a protocol other than T=0, but the driver reads only the K historical bytes after
  the chain (ifd_sci.c:133-142), so the model does not read it either. For such an ATR the
  expected length and the buffer miss the last byte.
- SCI_MAX_ATR_SIZE is taken as 33, the ISO/IEC 7816-3 maximum ATR length. The header that
  defines it is not part of this model.
- AtrDecode.Take, AtrRead.TakeInto and AtrRead.ReadHistorical: each store is guarded by a
  capacity check that the driver does not make at ifd_sci.c:105-142. On a full buffer the
  read is not made and the loop ends. The unchecked form is modelled separately under
  "## Findings".
- Every read attempt, failed or not, takes the next index of the transport. After a failed
  chain read, the first historical read is therefore attempt k + 1. The driver's serial
  reads are consumed the same way, but timing is not modelled.

## Findings

| source | as written | input that shows it | evidently intended | confidence | as-written member | corrected member |
|---|---|---|---|---|---|---|
| trunk/csctapi/ifd_sci.c:105-142 | the chain loop tests `n < SCI_MAX_ATR_SIZE` only at the top of a pass, and the historical loop tests `n < atrlength` only, so `buf + n` is written past the 33-byte buffer | a card answering 0xFF to every read (TS 0xFF, T0 0xFF, every TDi 0xFF): the chain loop stores bytes up to index 33, and the historical loop up to index 48 | no byte is stored beyond the buffer; an ATR longer than the buffer is cut at capacity and reported by the length warning | high (proved on the model, not executed) | AtrOverflow.DriverOverrunsBuffer | AtrOverflow.FloodingAtrIsCutAtCapacity |
