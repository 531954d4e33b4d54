/** Byte strings: zero padding to a 4-byte boundary and Python's clamping slice. */
module Bytes {

  type Byte = bv8

  function Min(a: int, b: int): int { if a <= b then a else b }
  function Max(a: int, b: int): int { if a <= b then b else a }

  /** `n` zero bytes. */
  function Zeros(n: nat): seq<Byte>
  {
    if n == 0 then [] else Zeros(n - 1) + [0]
  }

  lemma {:induction false} ZerosSpec(n: nat)
    ensures |Zeros(n)| == n
    ensures forall k :: 0 <= k < n ==> Zeros(n)[k] == 0
  {
    if n > 0 {
      ZerosSpec(n - 1);
    }
  }

  /** `n` rounded up to the next multiple of 4 (the length of `pad4` of `n` bytes). */
  function PaddedLength(n: nat): nat
  {
    n + (4 - n % 4) % 4
  }

  /** The padded length is the least multiple of 4 that is at least `n`. */
  lemma PaddedLengthSpec(n: nat)
    ensures PaddedLength(n) % 4 == 0 && n <= PaddedLength(n) < n + 4
    ensures forall m :: n <= m && m % 4 == 0 ==> PaddedLength(n) <= m
  {
  }

  /** `pad4`: `data` followed by zero bytes up to the next multiple of 4 (Pad4Spec states it). */
  function Pad4(data: seq<Byte>): seq<Byte>
  {
    data + Zeros((4 - |data| % 4) % 4)
  }

  /**
   * `pad4(d)` is `d` followed by 0 to 3 zero bytes, and its length is the least multiple of 4
   * that is at least `|d|`; data whose length is already a multiple of 4 is returned unchanged.
   */
  lemma Pad4Spec(data: seq<Byte>)
    ensures |Pad4(data)| == PaddedLength(|data|)
    ensures PaddedLength(|data|) % 4 == 0 && |data| <= PaddedLength(|data|) < |data| + 4
    ensures Pad4(data)[..|data|] == data
    ensures forall k :: |data| <= k < |Pad4(data)| ==> Pad4(data)[k] == 0
    ensures |data| % 4 == 0 ==> Pad4(data) == data
  {
    var n := (4 - |data| % 4) % 4;
    ZerosSpec(n);
    PaddedLengthSpec(|data|);
    assert Pad4(data)[..|data|] == data;
    if n == 0 {
      assert Zeros(0) == [];
    }
  }

  /**
   * Python's `s[a:b]` for non-negative bounds: empty when the range is empty or starts past
   * the end, and truncated at the end of `s` otherwise.
   */
  function Slice(s: seq<Byte>, a: nat, b: nat): seq<Byte>
  {
    if a >= |s| || b <= a then [] else s[a..Min(b, |s|)]
  }

  /** Inside the bounds, Python's slice is the plain subsequence. */
  lemma SliceInBounds(s: seq<Byte>, a: nat, b: nat)
    requires a <= b <= |s|
    ensures Slice(s, a, b) == s[a..b]
  {
  }
}
