/**
 Frame assembly: the converter shifts out its 32-bit register as four bytes, most
 significant first, and `dataAvailable` packs them into the signed `long` `_data`
 with `_data = (_data << 8) + byte`.
 */
module Acquisition {
  import opened CLong

  /** The unsigned value of `bytes` read most significant byte first. */
  function BigEndian(bytes: seq<Byte>): (v: nat)
    ensures v < Pow2(8 * |bytes|)
  {
    if bytes == [] then 0
    else
      var init := bytes[..|bytes| - 1];
      Pow2Add(8 * |init|, 8);
      BigEndian(init) * 0x100 + bytes[|bytes| - 1]
  }

  /** The register word `_data` holds once the four bytes `spi` have been shifted in. */
  function Frame(spi: seq<Byte>): (d: Long)
    requires |spi| == 4
    ensures d == ToLong(spi[0] as int * 0x100_0000 + spi[1] as int * 0x1_0000 + spi[2] as int * 0x100 + spi[3] as int)
  {
    assert spi[..3][..2] == spi[..2] && spi[..2][..1] == spi[..1] && spi[..1][..0] == [];
    var b0, b1, b2 := spi[0] as int, spi[1] as int, spi[2] as int;
    assert BigEndian(spi[..1]) == b0;
    assert BigEndian(spi[..2]) == b0 * 0x100 + b1;
    assert BigEndian(spi[..3]) == (b0 * 0x100 + b1) * 0x100 + b2;
    ToLong(BigEndian(spi))
  }

  /**
   One pass of the assembly loop, `(_data << 8) + byte`: the sum never leaves the
   range of a `long` (the shift clears the low byte), and on the wrapped value of a
   prefix it gives the wrapped value of the longer prefix.
   */
  lemma ShiftInByte(v: int, b: Byte)
    ensures -0x8000_0000 <= Shl(ToLong(v), 8) + b <= 0x7FFF_FFFF
    ensures Shl(ToLong(v), 8) + b == ToLong(v * 0x100 + b)
  {
    var s := ToLong(v);
    var j := ToLongMultiple(v);
    var w := Shl(s, 8);
    assert w == ToLong(s as int * 0x100) by {
      assert Pow2(8) == 0x100;
    }
    var k := ToLongMultiple(s as int * 0x100);
    var t := s - k * 0x100_0000;
    assert w == 0x100 * t;
    assert -0x80_0000 <= t < 0x80_0000;
    ToLongUnique(v * 0x100 + b, j * 0x100 + k, w + b);
  }

  /** One pass of the assembly loop over a prefix of the bytes: the word for `spi[..i]` becomes the word for `spi[..i + 1]`. */
  lemma ShiftInPrefix(spi: seq<Byte>, i: nat)
    requires i < |spi|
    ensures -0x8000_0000 <= Shl(ToLong(BigEndian(spi[..i])), 8) + spi[i] <= 0x7FFF_FFFF
    ensures Shl(ToLong(BigEndian(spi[..i])), 8) + spi[i] == ToLong(BigEndian(spi[..i + 1]))
  {
    var pre, next := spi[..i], spi[..i + 1];
    assert BigEndian(next) == BigEndian(pre) * 0x100 + spi[i] by {
      assert next[..i] == pre;
    }
    ShiftInByte(BigEndian(pre), spi[i]);
  }

  /** The four bytes the converter sends for the register word `d`, most significant first. */
  function FrameBytes(d: Long): (spi: seq<Byte>)
    ensures |spi| == 4
  {
    [(d / 0x100_0000) % 0x100, (d / 0x1_0000) % 0x100, (d / 0x100) % 0x100, d % 0x100]
  }

  /** Every register word is assembled from the four bytes the converter sends for it. */
  lemma FrameOfFrameBytes(d: Long)
    ensures Frame(FrameBytes(d)) == d
  {
    var b0, b1, b2, b3 := (d / 0x100_0000) % 0x100, (d / 0x1_0000) % 0x100, (d / 0x100) % 0x100, d % 0x100;
    assert d % 0x1_0000_0000 == 0x100_0000 * b0 + d % 0x100_0000 by {
      ModSplit(d, 0x100_0000, 0x100);
    }
    assert d % 0x100_0000 == 0x1_0000 * b1 + d % 0x1_0000 by {
      ModSplit(d, 0x1_0000, 0x100);
    }
    assert d % 0x1_0000 == 0x100 * b2 + b3 by {
      ModSplit(d, 0x100, 0x100);
    }
    assert d % 0x1_0000_0000 == if d < 0 then d + 0x1_0000_0000 else d by {
      DivModUnique(d, 0x1_0000_0000, if d < 0 then -1 else 0, if d < 0 then d + 0x1_0000_0000 else d);
    }
    ToLongUnique(b0 * 0x100_0000 + b1 * 0x1_0000 + b2 * 0x100 + b3, if d < 0 then 1 else 0, d);
  }

  /** Assembly loses nothing: the four bytes are recovered from the word. */
  lemma FrameBytesOfFrame(spi: seq<Byte>)
    requires |spi| == 4
    ensures FrameBytes(Frame(spi)) == spi
  {
    var b0, b1, b2, b3 := spi[0] as int, spi[1] as int, spi[2] as int, spi[3] as int;
    var u := b0 * 0x100_0000 + b1 * 0x1_0000 + b2 * 0x100 + b3;
    var d := Frame(spi);
    var k := (u - d) / 0x1_0000_0000;
    assert d == -k * 0x1_0000_0000 + u;
    assert (d / 0x100_0000) % 0x100 == b0 by {
      BitsOfLayout(d, 24, 8, 0x100_0000, 0x100, -k, b0, b1 * 0x1_0000 + b2 * 0x100 + b3);
    }
    assert (d / 0x1_0000) % 0x100 == b1 by {
      BitsOfLayout(d, 16, 8, 0x1_0000, 0x100, -k * 0x100 + b0, b1, b2 * 0x100 + b3);
    }
    assert (d / 0x100) % 0x100 == b2 by {
      BitsOfLayout(d, 8, 8, 0x100, 0x100, -k * 0x1_0000 + b0 * 0x100 + b1, b2, b3);
    }
    assert d % 0x100 == b3 by {
      BitsOfLayout(d, 0, 8, 1, 0x100, -k * 0x100_0000 + b0 * 0x1_0000 + b1 * 0x100 + b2, b3, 0);
    }
  }

  /** The assembled word is zero exactly when every byte is zero: one set bit anywhere makes it non-zero. */
  lemma FrameNonZero(spi: seq<Byte>)
    requires |spi| == 4
    ensures Frame(spi) != 0 <==> exists i | 0 <= i < 4 :: spi[i] != 0
  {
    var u := spi[0] as int * 0x100_0000 + spi[1] as int * 0x1_0000 + spi[2] as int * 0x100 + spi[3] as int;
    assert 0 <= u < 0x1_0000_0000;
    assert ToLong(u) == 0 <==> u == 0;
  }
}
