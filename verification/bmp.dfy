/**
 * The little-endian field codecs of bmp/bmp.c, which read and write the
 * 32-bit and 16-bit fields of a Windows BMP header: `ToL` and `ToS` assemble
 * a signed value from bytes, `FromL` and `FromS` store a signed value as
 * bytes, least significant first. Values are two's complement, so a byte
 * pattern with the top bit set reads back as a negative number.
 *
 * The shifts and masks of the C code act on disjoint bit ranges; they are
 * written here as the equivalent arithmetic on the unsigned bit pattern
 * (`b << 8k` is `b * 256^k`, `(u & (0xff << 8k)) >> 8k` is `u / 256^k % 256`).
 */
module Bmp {
  import opened CTypes
  import opened Arith

  function Power256(n: nat): (p: nat)
    ensures p >= 1
  {
    if n == 0 then 1 else 256 * Power256(n - 1)
  }

  /** The unsigned value of the little-endian bytes `b`. */
  function Unsigned(b: seq<Byte>): (u: nat)
    ensures u < Power256(|b|)
  {
    if b == [] then 0 else b[0] + 256 * Unsigned(b[1..])
  }

  /** The `n` low bytes of `u`, least significant first. */
  function LittleEndian(u: nat, n: nat): (b: seq<Byte>)
    ensures |b| == n
  {
    if n == 0 then [] else [u % 256] + LittleEndian(u / 256, n - 1)
  }

  /** Bytes that hold a value read back as that value. */
  lemma {:induction false} UnsignedOfLittleEndian(u: nat, n: nat)
    requires u < Power256(n)
    ensures Unsigned(LittleEndian(u, n)) == u
  {
    if n > 0 {
      var b := LittleEndian(u, n);
      assert b[1..] == LittleEndian(u / 256, n - 1);
      UnsignedOfLittleEndian(u / 256, n - 1);
    }
  }

  /** Reading bytes and storing the value gives the same bytes back. */
  lemma {:induction false} LittleEndianOfUnsigned(b: seq<Byte>)
    ensures LittleEndian(Unsigned(b), |b|) == b
  {
    if b != [] {
      var u := Unsigned(b);
      assert u % 256 == b[0] && u / 256 == Unsigned(b[1..]) by {
        DivModUnique(u, 256, Unsigned(b[1..]), b[0]);
      }
      LittleEndianOfUnsigned(b[1..]);
    }
  }

  /** `ToL`: the `gint32` whose two's-complement bytes are `b[0..4)`, low byte first. */
  function ToL(b: seq<Byte>): (v: Int32)
    requires |b| >= 4
    ensures v % 0x1_0000_0000 == Unsigned(b[..4])
  {
    var u := b[0] as int + b[1] as int * 0x100 + b[2] as int * 0x1_0000 + b[3] as int * 0x100_0000;
    assert Unsigned(b[..4]) == u by {
      var c := b[..4];
      assert Unsigned(c[3..]) == b[3] by { assert c[3..][1..] == []; }
      assert Unsigned(c[2..]) == b[2] as int + 256 * b[3] as int by { assert c[2..][1..] == c[3..]; }
      assert Unsigned(c[1..]) == b[1] as int + 256 * (b[2] as int + 256 * b[3] as int) by { assert c[1..][1..] == c[2..]; }
    }
    if u >= 0x8000_0000 then
      ModAddMultiple(u, -1, 0x1_0000_0000);
      u - 0x1_0000_0000
    else
      ModSmall(u, 0x1_0000_0000);
      u
  }

  /** `ToS`: the `gint16` whose two's-complement bytes are `b[0..2)`, low byte first. */
  function ToS(b: seq<Byte>): (v: Int16)
    requires |b| >= 2
    ensures v % 0x1_0000 == Unsigned(b[..2])
  {
    var u := b[0] as int + b[1] as int * 0x100;
    assert Unsigned(b[..2]) == u by {
      var c := b[..2];
      assert Unsigned(c[1..]) == b[1] by { assert c[1..][1..] == []; }
    }
    if u >= 0x8000 then
      ModAddMultiple(u, -1, 0x1_0000);
      u - 0x1_0000
    else
      ModSmall(u, 0x1_0000);
      u
  }

  /** `FromL`: stores `wert` into `bopuffer[0..4)`, low byte first. */
  method FromL(wert: Int32, bopuffer: array<Byte>)
    requires bopuffer.Length >= 4
    modifies bopuffer
    ensures bopuffer[..4] == LittleEndian(wert % 0x1_0000_0000, 4)
    ensures bopuffer[4..] == old(bopuffer[4..])
  {
    var u := wert % 0x1_0000_0000;
    bopuffer[0] := u % 0x100;
    bopuffer[1] := u / 0x100 % 0x100;
    bopuffer[2] := u / 0x1_0000 % 0x100;
    bopuffer[3] := u / 0x100_0000 % 0x100;
    DivDiv(u, 0x100, 0x100);
    DivDiv(u, 0x1_0000, 0x100);
    assert LittleEndian(u / 0x100_0000, 1) == [bopuffer[3]];
    assert LittleEndian(u / 0x1_0000, 2) == [bopuffer[2]] + [bopuffer[3]];
    assert LittleEndian(u / 0x100, 3) == [bopuffer[1]] + [bopuffer[2], bopuffer[3]];
    assert LittleEndian(u, 4) == [bopuffer[0]] + [bopuffer[1], bopuffer[2], bopuffer[3]];
  }

  /** `FromS`: stores `wert` into `bopuffer[0..2)`, low byte first. */
  method FromS(wert: Int16, bopuffer: array<Byte>)
    requires bopuffer.Length >= 2
    modifies bopuffer
    ensures bopuffer[..2] == LittleEndian(wert % 0x1_0000, 2)
    ensures bopuffer[2..] == old(bopuffer[2..])
  {
    var u := wert % 0x1_0000;
    bopuffer[0] := u % 0x100;
    bopuffer[1] := u / 0x100 % 0x100;
  }

  /** Two values of one width that agree modulo `2^width` are equal. */
  lemma SameBits(a: int, b: int, half: int)
    requires half > 0 && -half <= a < half && -half <= b < half && a % (2 * half) == b % (2 * half)
    ensures a == b
  {
    if a != b {
      ModInjective(a, b, 2 * half);
    }
  }

  /** Every `gint32` survives `FromL` followed by `ToL`. */
  lemma ToLFromL(v: Int32)
    ensures ToL(LittleEndian(v % 0x1_0000_0000, 4)) == v
  {
    var b := LittleEndian(v % 0x1_0000_0000, 4);
    UnsignedOfLittleEndian(v % 0x1_0000_0000, 4);
    assert b[..4] == b;
    SameBits(ToL(b), v, 0x8000_0000);
  }

  /** Every `gint16` survives `FromS` followed by `ToS`. */
  lemma ToSFromS(v: Int16)
    ensures ToS(LittleEndian(v % 0x1_0000, 2)) == v
  {
    var b := LittleEndian(v % 0x1_0000, 2);
    UnsignedOfLittleEndian(v % 0x1_0000, 2);
    assert b[..2] == b;
    SameBits(ToS(b), v, 0x8000);
  }

  /** Every 4-byte buffer survives `ToL` followed by `FromL`. */
  lemma FromLToL(b: seq<Byte>)
    requires |b| == 4
    ensures LittleEndian(ToL(b) % 0x1_0000_0000, 4) == b
  {
    assert b[..4] == b;
    LittleEndianOfUnsigned(b);
  }

  /** Every 2-byte buffer survives `ToS` followed by `FromS`. */
  lemma FromSToS(b: seq<Byte>)
    requires |b| == 2
    ensures LittleEndian(ToS(b) % 0x1_0000, 2) == b
  {
    assert b[..2] == b;
    LittleEndianOfUnsigned(b);
  }
}
