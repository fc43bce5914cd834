/** Small shared vocabulary: optional results, bytes and a few numeric helpers. */
module Wrappers {

  datatype Option<+T> = None | Some(value: T)

  /** An unsigned 8-bit value; the source's u8 and uint8_t. */
  type byte = b: int | 0 <= b < 256

  /** Largest value of the source's 32-bit unsigned counters (u32, and usize on this chip). */
  const U32_MAX := 0xFFFF_FFFF

  function Min(a: int, b: int): int { if a <= b then a else b }

  function Max(a: int, b: int): int { if a <= b then b else a }

  /** saturating_add on u32. */
  function SaturatingAdd(a: nat, b: nat): nat { Min(a + b, U32_MAX) }

  /** saturating_sub on u32. */
  function SaturatingSub(a: nat, b: nat): nat { if a <= b then 0 else a - b }

  /** ASCII digits. */
  predicate IsDigit(c: char) { '0' <= c <= '9' }

  /** The lower-case form of an ASCII letter; anything else is left alone. */
  function Lower(c: char): char {
    if 'A' <= c <= 'Z' then (c as int - 'A' as int + 'a' as int) as char else c
  }

  lemma Associative<T>(a: seq<T>, b: seq<T>, c: seq<T>)
    ensures (a + b) + c == a + (b + c)
  {
  }
}
