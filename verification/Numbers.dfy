/** The program's unsigned integer widths, and sums that stop at the widest. */
module Numbers {
  const U32_MAX: nat := 0xFFFF_FFFF
  const U64_MAX: nat := 0xFFFF_FFFF_FFFF_FFFF

  function Clip(n: nat): nat {
    if n <= U64_MAX then n else U64_MAX
  }

  function SatAdd(a: nat, b: nat): nat {
    Clip(a + b)
  }
}
