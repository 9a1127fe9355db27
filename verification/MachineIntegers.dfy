/** The C integer types that the programs use. */
module MachineIntegers {
  const U32 := 0x1_0000_0000
  const INT_MAX := 0x7fff_ffff

  type uint8 = n: int | 0 <= n < 0x100
  type uint16 = n: int | 0 <= n < 0x1_0000
  type uint32 = n: int | 0 <= n < U32
  type uint64 = n: int | 0 <= n < 0x1_0000_0000_0000_0000
}
