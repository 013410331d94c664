/** What unwritten storage reads as (`crates/oxcdf-hdf5/src/message/fillvalue.rs`). */
module FillValues {
  import opened Basics
  import opened Arith
  import opened Elements

  /** Byte `i` of a filled buffer: the fill value repeated, or zero when it is undefined or of the wrong width. */
  function FillByte(fill: Option<seq<byte>>, width: nat, i: nat): byte {
    if fill.Some? && |fill.value| == width && width > 0 then fill.value[Rem(i, width)] else 0
  }

  /** One filled element. */
  function FillElement(fill: Option<seq<byte>>, width: nat): seq<byte> {
    seq(width, i requires 0 <= i < width => FillByte(fill, width, i))
  }

  /** Tile the buffer by doubling: each pass copies everything already written. */
  method Fill(fill: Option<seq<byte>>, buf: array<byte>, width: nat)
    modifies buf
    ensures forall i :: 0 <= i < buf.Length ==> buf[i] == FillByte(fill, width, i)
    ensures fill.Some? && |fill.value| == width > 0 ==>
              forall i :: 0 <= i < buf.Length ==> buf[i] == fill.value[i % width]
    ensures fill.None? || |fill.value| != width || width == 0 ==> forall i :: 0 <= i < buf.Length ==> buf[i] == 0
  {
    if fill.None? || |fill.value| == 0 || width == 0 || |fill.value| != width {
      forall i | 0 <= i < buf.Length {
        buf[i] := 0;
      }
      FilledMeans(fill, buf[..], width);
      return;
    }
    var bytes := fill.value;
    var head := Min(width, buf.Length);
    forall i | 0 <= i < head {
      buf[i] := bytes[i];
    }
    var done := head;
    while done < buf.Length
      invariant 0 < done <= buf.Length || done == buf.Length == 0
      invariant forall i :: 0 <= i < done ==> buf[i] == bytes[Rem(i, width)]
      invariant Rem(done, width) == 0 || done == buf.Length
    {
      var take := Min(done, buf.Length - done);
      Double(buf, done, take, bytes, width);
      done := done + take;
    }
    FilledMeans(fill, buf[..], width);
  }

  /** One doubling step: the written prefix is copied over the bytes that follow it. */
  method Double(buf: array<byte>, done: nat, take: nat, ghost bytes: seq<byte>, ghost width: nat)
    requires take <= done && done + take <= buf.Length
    requires |bytes| == width > 0 && Rem(done, width) == 0
    requires take == done || done + take == buf.Length
    requires forall i :: 0 <= i < done ==> buf[i] == bytes[Rem(i, width)]
    modifies buf
    ensures forall i :: 0 <= i < done + take ==> buf[i] == bytes[Rem(i, width)]
    ensures Rem(done + take, width) == 0 || done + take == buf.Length
  {
    hide Rem;
    forall k | 0 <= k < take {
      buf[done + k] := buf[k];
    }
    forall i | done <= i < done + take ensures buf[i] == bytes[Rem(i, width)] {
      RemShift(i - done, done, width);
    }
    RemShift(take, done, width);
  }

  lemma {:induction false} FilledMeans(fill: Option<seq<byte>>, buf: seq<byte>, width: nat)
    requires forall i :: 0 <= i < |buf| ==> buf[i] == FillByte(fill, width, i)
    ensures fill.Some? && |fill.value| == width > 0 ==> forall i :: 0 <= i < |buf| ==> buf[i] == fill.value[i % width]
    ensures fill.None? || |fill.value| != width || width == 0 ==> forall i :: 0 <= i < |buf| ==> buf[i] == 0
  {
    hide Rem;
    if fill.Some? && |fill.value| == width > 0 {
      forall i | 0 <= i < |buf| ensures buf[i] == fill.value[i % width] {
        QuotRemIs(i, width);
      }
    }
  }

  /** Byte `k` of a filled element. */
  lemma {:induction false} FillElementByte(fill: Option<seq<byte>>, width: nat, k: nat)
    requires k < width
    ensures |FillElement(fill, width)| == width
    ensures FillElement(fill, width)[k] == if fill.Some? && |fill.value| == width then fill.value[k] else 0
  {
  }

  lemma {:induction false} RemShift(i: nat, done: nat, width: nat)
    requires width > 0 && Rem(done, width) == 0
    ensures Rem(done + i, width) == Rem(i, width)
  {
    hide Rem;
    hide Mul;
    QuotRem(i, width);
    QuotRem(done, width);
    MulAdd(Quot(done, width), Quot(i, width), width);
    QuotRemUnique(Quot(done, width) + Quot(i, width), Rem(i, width), width);
  }

  /** A filled buffer holds the fill element at every element position. */
  lemma {:induction false} FilledElement(fill: Option<seq<byte>>, buf: seq<byte>, width: nat, e: nat)
    requires forall i :: 0 <= i < |buf| ==> buf[i] == FillByte(fill, width, i)
    requires Has(buf, 0, e, width)
    ensures Element(buf, e, width) == FillElement(fill, width)
  {
    forall b | 0 <= b < width ensures buf[Mul(e, width) + b] == FillByte(fill, width, b) {
      QuotRemUnique(e, b, width);
    }
  }
}
