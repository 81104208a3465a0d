/** Bytes, and what writing over part of a buffer leaves. */
module Bytes {
  newtype byte = x: int | 0 <= x < 256

  /** `after` is `before` with `w` written from position `at` on. */
  ghost predicate Overwritten<T>(before: seq<T>, after: seq<T>, at: nat, w: seq<T>) {
    && at + |w| <= |before| == |after|
    && forall k :: 0 <= k < |before| ==> after[k] == if at <= k < at + |w| then w[k - at] else before[k]
  }
}
