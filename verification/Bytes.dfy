/** Bytes as integers, and the few bit operations that the packet code uses on them. */
module Bytes {
  type byte = b: int | 0 <= b < 256

  datatype Option<+T> = None | Some(value: T)

  function OfBits(v: bv8): byte {
    v as int
  }

  /** The bit vector that stands for b, counted up from zero: the solver has no cheaper way from integers to bits. */
  function ToBits(b: byte): (r: bv8)
    ensures OfBits(r) == b
  {
    if b == 0 then 0 else ToBits(b - 1) + 1
  }

  lemma SameInteger(v: bv8, w: bv8)
    requires OfBits(v) == OfBits(w)
    ensures v == w
  {
  }

  lemma SameBits(v: bv8)
    ensures ToBits(OfBits(v)) == v
  {
    SameInteger(ToBits(OfBits(v)), v);
  }

  /** Is a bit of the mask set in b? */
  predicate HasBit(b: byte, mask: bv8) {
    ToBits(b) & mask != 0
  }

  /** b | mask */
  function SetBit(b: byte, mask: bv8): byte {
    OfBits(ToBits(b) | mask)
  }

  lemma SetBitSets(b: byte, mask: bv8)
    ensures ToBits(SetBit(b, mask)) == ToBits(b) | mask
    ensures ToBits(b) & mask == mask ==> SetBit(b, mask) == b
  {
    hide ToBits, OfBits;
    SameBits(ToBits(b) | mask);
    if ToBits(b) & mask == mask {
      assert ToBits(b) | mask == ToBits(b) by {
        MaskedAlready(ToBits(b), mask);
      }
    }
  }

  lemma MaskedAlready(v: bv8, mask: bv8)
    requires v & mask == mask
    ensures v | mask == v
  {
  }

  function Sum(s: seq<byte>): nat {
    if s == [] then 0 else Sum(s[..|s| - 1]) + s[|s| - 1]
  }

  lemma {:induction false} SumOfUpdate(s: seq<byte>, i: nat, b: byte)
    requires i < |s|
    ensures Sum(s[i := b]) == Sum(s) - s[i] + b
  {
    var last := |s| - 1;
    if i < last {
      SumOfUpdate(s[..last], i, b);
      assert s[i := b][..last] == s[..last][i := b];
    } else {
      assert s[i := b][..last] == s[..last];
    }
  }

  /** The byte that completes a sum to a multiple of 256. */
  lemma ComplementCancels(s: nat, c: byte)
    ensures (s + c) % 256 == 0 <==> c == (256 - s % 256) % 256
  {
  }

  /** Sums that differ by less than 256 are completed by different bytes. */
  lemma ComplementsDiffer(s: nat, t: nat)
    requires s != t && -256 < t - s < 256
    ensures (256 - s % 256) % 256 != (256 - t % 256) % 256
  {
  }

  lemma PartOfPart<T>(s: seq<T>, i: nat, n: nat, from: nat, to: nat)
    requires i + n <= |s| && from <= to <= n
    ensures s[i..i + n][from..to] == s[i + from..i + to]
  {
    var a, b := s[i..i + n][from..to], s[i + from..i + to];
    assert |a| == |b|;
    forall k | 0 <= k < |a|
      ensures a[k] == b[k]
    {
      assert a[k] == s[i..i + n][from + k] == s[i + (from + k)];
    }
  }

  function Min(a: nat, b: nat): nat {
    if a < b then a else b
  }

  // Buffers

  /** Elements put into a buffer at a position; a buffer without room stays as it is. */
  function Patch<T>(buf: seq<T>, at: nat, from: seq<T>): (r: seq<T>)
    ensures |r| == |buf|
  {
    if at + |from| <= |buf| then buf[..at] + from + buf[at + |from|..] else buf
  }

  lemma PatchNothing<T>(buf: seq<T>, at: nat)
    ensures Patch(buf, at, []) == buf
  {
  }

  lemma PatchStep<T>(buf: seq<T>, at: nat, from: seq<T>, i: nat)
    requires at + |from| <= |buf| && i < |from|
    ensures Patch(buf, at, from[..i])[at + i := from[i]] == Patch(buf, at, from[..i + 1])
  {
  }

  /** memcpy(buf + at, from, |from|) */
  method CopyIn<T>(buf: array<T>, at: nat, from: seq<T>)
    requires at + |from| <= buf.Length
    modifies buf
    ensures buf[..] == Patch(old(buf[..]), at, from)
    ensures buf[..at + |from|] == old(buf[..at]) + from
  {
    ghost var before := buf[..];
    PatchNothing(before, at);
    for i := 0 to |from|
      invariant buf[..] == Patch(before, at, from[..i])
    {
      hide Patch;
      ghost var now := buf[..];
      PatchStep(before, at, from, i);
      buf[at + i] := from[i];
      assert buf[..] == now[at + i := from[i]];
    }
    assert from[..|from|] == from;
    assert buf[..at + |from|] == buf[..][..at + |from|];
  }
}
