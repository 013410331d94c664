/** Powers of two and little-endian integers of any width (`crates/oxcdf-hdf5/src/cursor.rs`). */
module LittleEndian {
  import opened Basics

  function Pow2(n: nat): (p: nat)
    ensures p > 0
  {
    if n == 0 then 1 else 2 * Pow2(n - 1)
  }

  lemma {:induction false} Pow2Monotone(a: nat, b: nat)
    requires a <= b
    ensures Pow2(a) <= Pow2(b)
  {
    if a < b {
      Pow2Monotone(a, b - 1);
    }
  }

  lemma {:induction false} Pow2Byte(n: nat)
    ensures Pow2(n + 8) == 256 * Pow2(n)
  {
    assert Pow2(n + 2) == 4 * Pow2(n);
    assert Pow2(n + 4) == 4 * Pow2(n + 2);
    assert Pow2(n + 6) == 4 * Pow2(n + 4);
    assert Pow2(n + 8) == 4 * Pow2(n + 6);
  }

  lemma {:induction false} Pow2Word()
    ensures Pow2(8) == 256 && Pow2(32) == 0x1_0000_0000
  {
    Pow2Byte(0);
    Pow2Byte(8);
    Pow2Byte(16);
    Pow2Byte(24);
  }

  function ToLittle(x: nat, width: nat): (b: seq<byte>)
    ensures |b| == width
  {
    if width == 0 then [] else [x % 256] + ToLittle(x / 256, width - 1)
  }

  function FromLittle(b: seq<byte>): nat {
    if b == [] then 0 else b[0] as int + 256 * FromLittle(b[1..])
  }

  /** Later bytes weigh more: each place is worth 256 times the one before it. */
  lemma {:induction false} LittlePlaces(a: seq<byte>, b: seq<byte>)
    ensures FromLittle(a + b) == FromLittle(a) + Pow2(8 * |a|) * FromLittle(b)
    ensures |b| == 1 ==> FromLittle(b) == b[0] as int
  {
    if a == [] {
      assert a + b == b && Pow2(8 * |a|) == 1;
    } else {
      LittlePlaces(a[1..], b);
      assert (a + b)[1..] == a[1..] + b;
      Shifted(8 * (|a| - 1), FromLittle(b));
    }
  }

  lemma {:induction false} Shifted(n: nat, x: nat)
    ensures Pow2(n + 8) * x == 256 * (Pow2(n) * x)
  {
    Pow2Byte(n);
  }

  lemma {:induction false} LittleFour(b: seq<byte>)
    requires |b| == 4
    ensures FromLittle(b) == b[0] as int + 0x100 * b[1] as int + 0x1_0000 * b[2] as int + 0x100_0000 * b[3] as int
  {
    assert b[1..][1..] == b[2..] && b[2..][1..] == b[3..] && b[3..][1..] == [];
    assert FromLittle(b[3..]) == b[3] as int;
    assert FromLittle(b[2..]) == b[2] as int + 256 * FromLittle(b[3..]);
  }

  /** A number that fits its width is read back as it was written. */
  lemma {:induction false} LittleRoundTrip(x: nat, width: nat)
    requires x < Pow2(8 * width)
    ensures FromLittle(ToLittle(x, width)) == x
  {
    if width > 0 {
      Pow2Byte(8 * (width - 1));
      LittleRoundTrip(x / 256, width - 1);
    }
  }
}
