/** 32-bit flash addresses. */
module Addresses {
  const ADDRESS_SPACE: nat := 0x1_0000_0000

  type Address = a: nat | a < ADDRESS_SPACE

  /** 32-bit address arithmetic. */
  function Advance(addr: Address, n: nat): Address {
    (addr + n) % ADDRESS_SPACE
  }
}
