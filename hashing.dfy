/**
 * Java's hash codes for the value classes: `String.hashCode` and
 * `Objects.hash`, both computed in 32-bit two's-complement arithmetic that
 * wraps around on overflow.
 */
module Hashing {
  import opened Wrappers

  const TwoTo32: int := 0x1_0000_0000

  /** Narrowing of an unbounded integer to a Java `int`. */
  function Int32(x: int): (r: int)
    ensures -0x8000_0000 <= r < 0x8000_0000
    ensures (x - r) % TwoTo32 == 0
  {
    var m := x % TwoTo32;
    if m >= 0x8000_0000 then m - TwoTo32 else m
  }

  /** `s.hashCode()`: h = 31 * h + c over the characters, wrapping. */
  function StringHash(s: string): (h: int)
    ensures -0x8000_0000 <= h < 0x8000_0000
  {
    if s == [] then 0 else Int32(31 * StringHash(s[..|s| - 1]) + s[|s| - 1] as int)
  }

  /** The hash of a nullable string as `Objects.hash` sees it: null hashes to 0. */
  function NullableHash(o: Option<string>): int {
    match o
    case None => 0
    case Some(s) => StringHash(s)
  }

  /** `Objects.hash(a, b, ...)` given the hashes of its arguments: r = 31 * r + h, from r = 1. */
  function ObjectsHash(hs: seq<int>): (h: int)
    ensures hs != [] ==> -0x8000_0000 <= h < 0x8000_0000
  {
    if hs == [] then 1 else Int32(31 * ObjectsHash(hs[..|hs| - 1]) + hs[|hs| - 1])
  }
}
