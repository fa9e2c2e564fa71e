/**
 Fixed protocol constants of the MB85RC family of I2C FRAM chips, as the
 driver declares them in its nested `MB85RC` class. Both are one byte wide,
 as in the driver.
 */
module Mb85rc {

  /** The default I2C address of the chip. */
  const DefaultAddress: bv8 := 0x50

  /** The slave id the driver declares for the device-ID query. */
  const SlaveId: bv8 := 0xF8

  /** I2C slave addresses are seven bits wide. */
  predicate IsSevenBitAddress(a: bv8) {
    a < 0x80
  }

  /** The two constants have their declared values, and the default address
      is a valid seven-bit I2C address. */
  lemma ProtocolConstants()
    ensures DefaultAddress == 0x50 && IsSevenBitAddress(DefaultAddress)
    ensures SlaveId == 0xF8
  {
  }
}
