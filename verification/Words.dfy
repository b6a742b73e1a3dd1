/**
 The machine words and address constants that several components share.
 */
module Words {

  // Unsigned words and addresses are the numbers below 2^32.
  const WORD_RANGE: nat := 0x1_0000_0000

  const PAGE_SIZE: nat := 4096
  const PAGE_OFFSET: nat := 0xC000_0000

  // Unsigned arithmetic wraps around.
  function U32(x: int): (r: nat)
    ensures 0 <= x < WORD_RANGE ==> r == x
    ensures r < WORD_RANGE
  {
    x % WORD_RANGE
  }

  function Min(a: nat, b: nat): nat { if a < b then a else b }

  function Max(a: nat, b: nat): nat { if a > b then a else b }
}
