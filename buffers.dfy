/**
 * Node's `Buffer` as far as the authentication core uses it: a byte string,
 * and `crypto.timingSafeEqual`, which throws when the two buffers differ in
 * length and otherwise compares them byte for byte.
 */
module Buffers {
  import opened Wrappers

  type byte = x: int | 0 <= x < 256

  /**
   * `crypto.timingSafeEqual(a, b)`: `None` stands for the exception thrown on
   * a length mismatch, `Some(eq)` for the comparison's answer. The constant-time
   * behaviour itself is not expressible here.
   */
  function TimingSafeEqual<T(==)>(a: seq<T>, b: seq<T>): (r: Option<bool>)
    ensures r.None? <==> |a| != |b|
    ensures r == Some(true) <==> a == b
  {
    if |a| != |b| then None else Some(a == b)
  }
}
