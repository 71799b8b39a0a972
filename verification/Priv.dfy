/**
 Privilege modes and the mstatus register as its fields. `others` stands for the bits that trap entry,
 trap return and translation neither read nor write.
 */
module Priv {
  datatype Mode = U | S | M

  /** A two-bit field. */
  type Bits2 = n: nat | n < 4

  datatype Mstatus = Mstatus(
    sie: bool, mie: bool, spie: bool, mpie: bool, spp: bool, mpp: Bits2,
    mprv: bool, sum: bool, mxr: bool, tw: bool, others: nat)

  function Level(m: Mode): Bits2 {
    match m
    case U => 0
    case S => 1
    case M => 3
  }
}
