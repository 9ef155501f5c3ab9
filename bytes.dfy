// Fixed-width integers as the example programs store them: uint8 frame bytes,
// uint16 and uint32 counters, and the wrap-around of C's unsigned arithmetic.
module Bytes {

  /** One octet of a frame buffer (`uint8`). */
  newtype byte = b: int | 0 <= b < 256

  /** 2^16 and 2^32: the moduli of `uint16` and `uint32` arithmetic. */
  const U16: int := 0x1_0000
  const U32: int := 0x1_0000_0000

  /** The ASCII characters used as address octets in the frames. */
  const AsciiR: byte := 82
  const AsciiT: byte := 84
  const AsciiX: byte := 88

  /** `b++` on a `uint8`: 255 wraps to 0. */
  function Inc(b: byte): (r: byte)
    ensures r as int == (b as int + 1) % 256
    ensures r != b
  {
    if b == 255 then 0 else b + 1
  }

  /** `k` successive `b++`. */
  function IncTimes(b: byte, k: nat): byte
    decreases k
  {
    if k == 0 then b else IncTimes(Inc(b), k - 1)
  }

  /** `k` increments of a `uint8` add `k` modulo 256. */
  lemma {:induction false} IncTimesAdds(b: byte, k: nat)
    ensures IncTimes(b, k) as int == (b as int + k) % 256
    decreases k
  {
    if k > 0 {
      IncTimesAdds(Inc(b), k - 1);
      assert (Inc(b) as int + (k - 1)) % 256 == (b as int + k) % 256 by {
        assert Inc(b) as int == (b as int + 1) % 256;
      }
    }
  }

  /** `IncTimes(b, i + 1)` is one more increment after `IncTimes(b, i)`. */
  lemma {:induction false} IncTimesStep(b: byte, i: nat)
    ensures IncTimes(b, i + 1) == Inc(IncTimes(b, i))
    decreases i
  {
    if i > 0 {
      IncTimesStep(Inc(b), i - 1);
    }
  }
}
