/** The JDK's hash-code conventions that `Objects.hash` relies on, with Java's 32-bit `int` arithmetic. */
module JavaHash {

  const TwoTo32: int := 0x1_0000_0000

  /** Java `int` wrap-around: the unique value in [-2^31, 2^31) congruent to `x` modulo 2^32. */
  function Int32(x: int): (r: int)
    ensures -0x8000_0000 <= r < 0x8000_0000
    ensures (x - r) % TwoTo32 == 0
  {
    var m := x % TwoTo32;
    if m < 0x8000_0000 then m else m - TwoTo32
  }

  /** `Arrays.hashCode(Object[])`, which `Objects.hash(a1, …, an)` returns: start from 1 and
      fold each element's hash code in as `31 * result + h`, in `int` arithmetic. */
  function ArraysHash(hs: seq<int>): (r: int)
    ensures -0x8000_0000 <= r < 0x8000_0000
  {
    if hs == [] then 1 else Int32(31 * ArraysHash(hs[..|hs| - 1]) + hs[|hs| - 1])
  }
}
