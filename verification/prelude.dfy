// Types that several components share
module Prelude {
  datatype Option<+T> = None | Some(value: T)

  datatype Result<+T, +E> = Ok(value: T) | Err(error: E)

  // A 128-bit identifier, ordered as its bytes are
  type Guid = g: nat | g < 0x1_0000_0000_0000_0000_0000_0000_0000_0000 witness 0

  // A reading of the monotonic clock, in nanoseconds
  type Instant = nat

  function SinceSaturating(now: Instant, earlier: Instant): nat {
    if now < earlier then 0 else now - earlier
  }

  const U64_MAX: nat := 0xFFFF_FFFF_FFFF_FFFF

  // The value of an unsigned 64-bit counter that saturates
  function Capped(x: nat): nat { if x > U64_MAX then U64_MAX else x }
}
