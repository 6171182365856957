/** The sizeAndTags word of a block header (uw_cse351/lab5/mm.c:94-122).
    The size, a multiple of 8 bytes, sits in the high bits; bit 0 says that the
    block is used and bit 1 that the block before it in memory is used. */
module Tags {

  /** MIN_BLOCK_SIZE in words: header, next, prev and footer. */
  const MIN_WORDS := 4

  /** SIZE(x), in words of 8 bytes. */
  function Words(x: int): int { x / 8 }

  /** x & TAG_USED. */
  predicate UsedBit(x: int) { var t := x % 8; t == 1 || t == 3 || t == 5 || t == 7 }

  /** x & TAG_PRECEDING_USED. */
  predicate PrecBit(x: int) { var t := x % 8; t == 2 || t == 3 || t == 6 || t == 7 }

  lemma Halves(x: int, k: int, t: int)
    requires x == 2 * k + t
    ensures x % 2 == t % 2 && x / 2 == k + t / 2
  {
  }

  /** They are the two lowest bits. */
  lemma TagBits(x: int)
    ensures UsedBit(x) <==> x % 2 == 1
    ensures PrecBit(x) <==> x / 2 % 2 == 1
  {
    var q, t := x / 8, x % 8;
    Halves(x, 4 * q, t);
    Halves(x / 2, 2 * q, t / 2);
  }

  /** A header word for `n` words with the given tags. */
  function Header(n: int, used: bool, prec: bool): (x: int)
    ensures Words(x) == n && UsedBit(x) == used && PrecBit(x) == prec
  {
    8 * n + (if prec then 2 else 0) + (if used then 1 else 0)
  }

  /** x | TAG_USED. */
  function SetUsed(x: int): (r: int)
    ensures UsedBit(r) && Words(r) == Words(x) && PrecBit(r) == PrecBit(x)
  {
    if UsedBit(x) then x else x + 1
  }

  /** x & ~TAG_USED. */
  function ClearUsed(x: int): (r: int)
    ensures !UsedBit(r) && Words(r) == Words(x) && PrecBit(r) == PrecBit(x)
  {
    if UsedBit(x) then x - 1 else x
  }

  /** x | TAG_PRECEDING_USED. */
  function SetPrec(x: int): (r: int)
    ensures PrecBit(r) && Words(r) == Words(x) && UsedBit(r) == UsedBit(x)
  {
    if PrecBit(x) then x else x + 2
  }

  /** x & ~TAG_PRECEDING_USED. */
  function ClearPrec(x: int): (r: int)
    ensures !PrecBit(r) && Words(r) == Words(x) && UsedBit(r) == UsedBit(x)
  {
    if PrecBit(x) then x - 2 else x
  }
}
