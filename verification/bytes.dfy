/** A byte, shared by the modules that work on wire formats. */
module Bytes {
  type Byte = b: nat | b < 0x100

  /** The number that octets stand for, the first one most significant. */
  function Number(b: seq<Byte>): nat {
    if b == [] then 0 else Number(b[..|b| - 1]) * 0x100 + b[|b| - 1]
  }
}
