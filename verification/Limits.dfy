/** The largest values of the source's saturating counters. */
module Limits {
  const U8_MAX: nat := 0xFF
  const U32_MAX: nat := 0xFFFF_FFFF
}
