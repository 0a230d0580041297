/** Basic types shared by the model of the internal SCI card reader driver. */
module SciTypes {

  /** One byte on the wire; a bit-vector so that the driver's mask tests can be written as they are. */
  type byte = bv8

  /** C `int32_t`, the type of the reader's clock class `mhz`. */
  type i32 = x: int | -0x8000_0000 <= x < 0x8000_0000

  /** C `uint32_t`. */
  type u32 = x: int | 0 <= x < 0x1_0000_0000

  /** C `unsigned char` used as a small number. */
  type u8 = x: int | 0 <= x < 0x100

  /** The buffer capacity SCI_MAX_ATR_SIZE: TS plus the at most 32 further characters an ATR may have. */
  const MaxAtrSize: nat := 33

  /** The driver's return codes OK (0) and ERROR (1). */
  datatype Status = OK | ERROR

  /** The three outcomes of the external ATR validator. */
  datatype Verdict = AtrOk | AtrMalformed | AtrError

  datatype Option<T> = None | Some(value: T)
}
