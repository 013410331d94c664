/** Values shared by every module: bytes, 64-bit limits and fallible results. */
module Basics {

  type byte = x: int | 0 <= x < 256

  const U64_MAX: nat := 0xffff_ffff_ffff_ffff

  /** The error classes a reader reports; messages are not modelled. */
  datatype Error = OutOfBounds | Malformed | Unsupported | BadRequest | ChecksumMismatch | Incomplete

  datatype Result<+T> = Ok(value: T) | Err(error: Error)

  datatype Option<+T> = None | Some(value: T)

  function Min(a: int, b: int): int {
    if a <= b then a else b
  }

  function Max(a: int, b: int): int {
    if a <= b then b else a
  }

  /** `u64::saturating_add`. */
  function SaturatingAdd(a: nat, b: nat): nat {
    Min(a + b, U64_MAX)
  }

  /** `u64::saturating_sub`. */
  function SaturatingSub(a: nat, b: nat): nat {
    if a <= b then 0 else a - b
  }

  /** A synchronous read of a file held as its bytes: a short read is an error, never a truncation. */
  function ReadFile(file: seq<byte>, offset: nat, len: nat): Result<seq<byte>> {
    if offset + len > |file| then Err(OutOfBounds) else Ok(file[offset..offset + len])
  }

  /** A read of the file, or of the page cache in front of it, which answers an empty read anywhere. */
  function SourceRead(file: seq<byte>, paged: bool, offset: nat, len: nat): Result<seq<byte>> {
    if paged && len == 0 then Ok([]) else ReadFile(file, offset, len)
  }

  /** What a concurrent cache drops at each tick of its clock: any entry, at any time. */
  type Evictions = nat -> set<nat>

  /** Everything dropped at the ticks `from..to`. */
  ghost function Dropped(evictions: Evictions, from: nat, to: nat): set<nat> {
    if from >= to then {} else Dropped(evictions, from, to - 1) + evictions(to - 1)
  }

  lemma {:induction false} DroppedSplit(evictions: Evictions, from: nat, mid: nat, to: nat)
    requires from <= mid <= to
    ensures Dropped(evictions, from, to) == Dropped(evictions, from, mid) + Dropped(evictions, mid, to)
  {
    if mid < to {
      DroppedSplit(evictions, from, mid, to - 1);
    }
  }

  lemma {:induction false} DroppedNone(evictions: Evictions, from: nat)
    ensures Dropped(evictions, from, from) == {}
  {
  }

  lemma {:induction false} DroppedNext(evictions: Evictions, from: nat, to: nat)
    requires from <= to
    ensures Dropped(evictions, from, to + 1) == Dropped(evictions, from, to) + evictions(to)
    ensures evictions(from) <= Dropped(evictions, from, to + 1)
  {
    DroppedFirst(evictions, from, to + 1);
  }

  lemma {:induction false} DroppedFirst(evictions: Evictions, from: nat, to: nat)
    requires from < to
    ensures evictions(from) <= Dropped(evictions, from, to)
  {
    DroppedSplit(evictions, from, from + 1, to);
    assert Dropped(evictions, from, from + 1) == Dropped(evictions, from, from) + evictions(from);
  }

  lemma {:induction false} SliceOfSlice<T>(s: seq<T>, a: nat, b: nat, x: nat, y: nat)
    requires a <= b <= |s| && x <= y <= b - a
    ensures s[a..b][x..y] == s[a + x..a + y]
  {
    var t := s[a..b];
    assert forall i :: 0 <= i < |t| ==> t[i] == s[a + i];
  }

  lemma {:induction false} SliceExtend<T>(s: seq<T>, a: nat, b: nat, c: nat)
    requires a <= b <= c <= |s|
    ensures s[a..b] + s[b..c] == s[a..c]
  {
  }
}
