/** Fixed-width machine words, page arithmetic and little-endian cells, as the C sources use them. */
module Words {
  const TWO_16: int := 0x1_0000
  const TWO_32: int := 0x1_0000_0000
  const TWO_64: int := 0x1_0000_0000_0000_0000

  type u8 = x: int | 0 <= x < 0x100
  type u16 = x: int | 0 <= x < 0x1_0000
  type u32 = x: int | 0 <= x < 0x1_0000_0000
  type u64 = x: int | 0 <= x < 0x1_0000_0000_0000_0000

  /** Unsigned 64-bit addition, wrapping around. */
  function Add64(x: int, y: int): u64 { (x + y) % TWO_64 }

  /** Unsigned 64-bit subtraction, wrapping around. */
  function Sub64(x: int, y: int): u64 { (x - y) % TWO_64 }

  const PAGE_SIZE: int := 0x1000

  /** `LShiftU64 (n, EFI_PAGE_SHIFT)`: the byte size of n pages, modulo the word width. */
  function PagesToBytes(n: u64): u64 { n * PAGE_SIZE % TWO_64 }

  /** `EFI_SIZE_TO_PAGES`: the smallest number of pages that hold `size` bytes. */
  function SizeToPages(size: nat): (n: nat)
    ensures (n - 1) * 0x1000 < size <= n * 0x1000
  {
    size / PAGE_SIZE + if size % PAGE_SIZE != 0 then 1 else 0
  }

  /** Rounding down to a page boundary. */
  function PageFloor(x: nat): nat { x / PAGE_SIZE * PAGE_SIZE }
}
