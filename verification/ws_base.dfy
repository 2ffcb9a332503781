/** `swapByteOrder` (src/websockets-base.cpp): reverse a byte range in place, walking one
    pointer up from the start and one down from the last byte until they meet. The buffer is a
    sequence and the two pointers are indices into it. */
module WebSocketBase {

  /** Reference definition: the elements of `s` in the opposite order. */
  function Reverse<T>(s: seq<T>): (r: seq<T>)
    ensures |r| == |s|
    ensures forall k | 0 <= k < |s| :: r[k] == s[|s| - 1 - k]
  {
    if |s| == 0 then [] else Reverse(s[1..]) + [s[0]]
  }

  lemma {:induction false} ReverseReverse<T>(s: seq<T>)
    ensures Reverse(Reverse(s)) == s
  {
    var r := Reverse(Reverse(s));
    assert forall k | 0 <= k < |s| :: r[k] == s[k];
  }

  /** The buffer with the range [start, end) reversed and everything else kept. */
  function Swapped<T>(buf: seq<T>, start: nat, end: nat): (r: seq<T>)
    requires start <= end <= |buf|
    ensures |r| == |buf|
  {
    buf[..start] + Reverse(buf[start..end]) + buf[end..]
  }

  /** `swapByteOrder(pStart, pEnd)`: the end pointer is first moved onto the last byte, so an
      empty range leaves the loop before its first swap. */
  method SwapByteOrder<T>(buf: seq<T>, start: nat, end: nat) returns (r: seq<T>)
    requires start <= end <= |buf|
    ensures |r| == |buf|
    ensures r[..start] == buf[..start] && r[end..] == buf[end..]
    ensures forall k | start <= k < end :: r[k] == buf[start + end - 1 - k]
    ensures r == Swapped(buf, start, end)
  {
    r := buf;
    var lo: int := start;
    var hi: int := end - 1;
    while lo < hi
      invariant start <= lo <= hi + 1 && hi <= end - 1 && lo + hi == start + end - 1
      invariant |r| == |buf|
      invariant r[..start] == buf[..start] && r[end..] == buf[end..]
      invariant forall k | start <= k < lo :: r[k] == buf[start + end - 1 - k]
      invariant forall k | hi < k < end :: r[k] == buf[start + end - 1 - k]
      invariant forall k | lo <= k <= hi :: r[k] == buf[k]
      decreases hi - lo
    {
      var tmp := r[lo];
      r := r[lo := r[hi]][hi := tmp];
      lo := lo + 1;
      hi := hi - 1;
    }
    SwappedIsPointwise(buf, start, end, r);
  }

  /** The loop computes the reference definition. */
  lemma {:induction false} SwappedIsPointwise<T>(buf: seq<T>, start: nat, end: nat, r: seq<T>)
    requires start <= end <= |buf| && |r| == |buf|
    requires r[..start] == buf[..start] && r[end..] == buf[end..]
    requires forall k | start <= k < end :: r[k] == buf[start + end - 1 - k]
    ensures r == Swapped(buf, start, end)
  {
    var s := Swapped(buf, start, end);
    forall k | 0 <= k < |buf|
      ensures r[k] == s[k]
    {
      if k < start {
        assert r[k] == r[..start][k];
      } else if k >= end {
        assert r[k] == r[end..][k - end];
        assert s[k] == buf[end..][k - end];
      } else {
        assert s[k] == Reverse(buf[start..end])[k - start];
      }
    }
  }

  /** Swapping the same range twice restores the buffer. */
  lemma {:induction false} SwapTwice<T>(buf: seq<T>, start: nat, end: nat)
    requires start <= end <= |buf|
    ensures Swapped(Swapped(buf, start, end), start, end) == buf
  {
    var once := Swapped(buf, start, end);
    assert once[start..end] == Reverse(buf[start..end]);
    ReverseReverse(buf[start..end]);
    assert once[..start] == buf[..start];
    assert once[end..] == buf[end..];
    assert buf == buf[..start] + buf[start..end] + buf[end..];
  }

  /** A range of zero or one bytes is left as it is. */
  lemma {:induction false} ShortRangeUnchanged<T>(buf: seq<T>, start: nat, end: nat)
    requires start <= end <= |buf| && end - start <= 1
    ensures Swapped(buf, start, end) == buf
  {
    assert Reverse(buf[start..end]) == buf[start..end];
    assert buf == buf[..start] + buf[start..end] + buf[end..];
  }
}
