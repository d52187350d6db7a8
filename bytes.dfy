/** Fixed-width integer types, failure wrappers and the array-copy primitive
    shared by every other module of the model. */
module Bytes {

  type uint8 = x: int | 0 <= x < 0x100
  type uint16 = x: int | 0 <= x < 0x1_0000
  type uint32 = x: int | 0 <= x < 0x1_0000_0000
  type uint64 = x: int | 0 <= x < 0x1_0000_0000_0000_0000
  type int32 = x: int | -0x8000_0000 <= x < 0x8000_0000

  /** A reference that may be null. */
  datatype Option<+T> = None | Some(value: T)

  /** The result of a call that either returns normally or throws an exception
      (which the emulator's worker loop catches). */
  datatype Outcome<+T> = Normal(value: T) | Threw

  /** `dst` after `src` is copied into it at position `at` (Array.Copy, CopyTo). */
  function Overlay(dst: seq<uint8>, at: nat, src: seq<uint8>): (r: seq<uint8>)
    requires at + |src| <= |dst|
    ensures |r| == |dst|
    ensures r[..at] == dst[..at] && r[at..at + |src|] == src && r[at + |src|..] == dst[at + |src|..]
  {
    dst[..at] + src + dst[at + |src|..]
  }

  /** A sequence that agrees with `src` on the slot and with `dst` elsewhere is the overlay. */
  lemma OverlayPointwise(dst: seq<uint8>, at: nat, src: seq<uint8>, r: seq<uint8>)
    requires at + |src| <= |dst| && |r| == |dst|
    requires forall k :: 0 <= k < |src| ==> r[at + k] == src[k]
    requires forall k :: 0 <= k < |r| && !(at <= k < at + |src|) ==> r[k] == dst[k]
    ensures r == Overlay(dst, at, src)
  {
    var o := Overlay(dst, at, src);
    forall k | 0 <= k < |r|
      ensures r[k] == o[k]
    {
      if k < at {
        assert o[..at][k] == o[k];
      } else if k < at + |src| {
        assert o[at..at + |src|][k - at] == o[k];
      } else {
        assert o[at + |src|..][k - at - |src|] == o[k];
      }
    }
  }

  /** A freshly allocated byte array of length `n`. */
  function Zeros(n: nat): (r: seq<uint8>)
    ensures |r| == n
    ensures forall i :: 0 <= i < n ==> r[i] == 0
  {
    seq(n, _ => 0)
  }

  /** Array.Copy of all of `src` into `dst` at `at`; the bounds check is the caller's. */
  method CopyInto(src: seq<uint8>, dst: array<uint8>, at: nat)
    requires at + |src| <= dst.Length
    modifies dst
    ensures dst[..] == Overlay(old(dst[..]), at, src)
  {
    forall i | 0 <= i < |src| {
      dst[at + i] := src[i];
    }
    assert dst[..] == Overlay(old(dst[..]), at, src);
  }
}
