/**
 Field decoding of the MAX31855 register word, as `dataRead` computes it from the
 signed `long` `_data`.

 Layout (bit 31 first): bits 31..18 hold the hot-junction reading as a 14-bit two's-
 complement number of quarter degrees; bit 17 is reserved; bit 16 is the aggregate
 fault flag; bits 15..4 hold the cold-junction reading as a 12-bit two's-complement
 number of sixteenth degrees; bit 3 is reserved; bits 2..0 are the fault bits
 (short to VCC, short to GND, open circuit).

 Each function below computes one selector's result with the shifts and masks the
 driver uses; the lemma after it says which bit field of the word that result is.
 */
module Register {
  import opened CLong

  /** `_data >> 18`: the hot-junction reading in quarter degrees. */
  function HotField(data: Long): int
  {
    Shr(data, 18)
  }

  /** Selector 4, `_data & 0x7`. */
  function Fault(data: Long): (r: nat)
    ensures r <= 7
  {
    And(data, 0x7)
  }

  /** Selector 3, `(_data >> 18) & 0x3`. */
  function HotFraction(data: Long): (r: nat)
    ensures r <= 3
  {
    And(HotField(data), 0x3)
  }

  /** `(_data & 0xFFF0) >> 4`: the cold-junction bits before sign extension. */
  function ColdBits(data: Long): int
  {
    Shr(And(data, 0xFFF0), 4)
  }

  /**
   Selector 2: `ColdBits`, less 2^12 when bit 15 is set. The driver adds `0xFFFFF000`
   in its `long` instead, which `ColdSignExtendIsOr` shows comes to the same.
   */
  function ColdFixed(data: Long): int
  {
    if BitRead(data, 15) == 1 then ColdBits(data) - 0x1000 else ColdBits(data)
  }

  /** Selector 1, `(_data >> 18) >> 2`. */
  function HotInteger(data: Long): int
  {
    Shr(HotField(data), 2)
  }

  /** Any other selector: `(_data >> 18) >> 2`, plus one when `(_data >> 18) & 0x3` is at least 2. */
  function HotRounded(data: Long): int
  {
    var h := HotField(data);
    var decBits := And(h, 0x3);
    var t := Shr(h, 2);
    if decBits >= 2 then t + 1 else t
  }

  // ---------------------------------------------------------------------------
  // What each selector returns

  /** Selector 4 returns the three fault bits 2..0 and nothing else. */
  lemma FaultIsLowBits(data: Long)
    ensures Fault(data) == Bits(data, 0, 3)
    ensures 0 <= Fault(data) < 8
  {
    AndLowBits(data, 3);
  }

  /**
   The arithmetic shift by 18 sign-extends: the hot field is the 14-bit two's-complement
   value of bits 31..18.
   */
  lemma HotFieldIsSignedField(data: Long)
    ensures HotField(data) == SignExtend(Bits(data, 18, 14), 14)
    ensures -0x2000 <= HotField(data) < 0x2000
  {
    assert Pow2(13) == 0x2000 && Pow2(14) == 0x4000 && Pow2(18) == 0x4_0000;
  }

  /** Selector 3 returns bits 19..18, the quarter degrees, in 0..3 whatever the sign. */
  lemma HotFractionIsBits(data: Long)
    ensures HotFraction(data) == Bits(data, 18, 2)
    ensures 0 <= HotFraction(data) < 4
  {
    AndLowBits(HotField(data), 2);
  }

  /** `(_data & 0xFFF0) >> 4` is bits 15..4, and its top bit is set exactly when bit 15 is. */
  lemma ColdBitsIsField(data: Long)
    ensures ColdBits(data) == Bits(data, 4, 12)
    ensures 0 <= ColdBits(data) < 0x1000
    ensures ColdBits(data) >= 0x800 <==> BitRead(data, 15) == 1
  {
    var c := (data / 0x10) % 0x1000;
    assert ColdBits(data) == c by {
      ColdMask(data);
      assert Pow2(4) == 0x10;
    }
    assert Bits(data, 4, 12) == c by {
      assert Pow2(4) == 0x10 && Pow2(12) == 0x1000;
    }
    assert BitRead(data, 15) == (data / 0x8000) % 2 by {
      BitReadIsBit(data, 15);
      assert Pow2(15) == 0x8000;
    }
    assert c >= 0x800 <==> (data / 0x8000) % 2 == 1 by {
      ModSplit(data / 0x10, 0x800, 2);
      ModSplit(data, 0x10, 0x800);
    }
  }

  /** The cold-junction mask `0xFFF0` keeps bits 15..4 in place. */
  lemma ColdMask(data: int)
    ensures And(data, 0xFFF0) == 0x10 * ((data / 0x10) % 0x1000)
  {
    assert Pow2(4) == 0x10 && Pow2(12) == 0x1000;
    AndShifted(data, 0xFFF, 4);
    AndLowBits(data / 0x10, 12);
  }

  /**
   Selector 2 returns the 12-bit two's-complement value of bits 15..4 (sixteenth
   degrees): its low 12 bits are bits 15..4, and it is negative exactly when bit 15 is set.
   */
  lemma ColdFixedIsSignedField(data: Long)
    ensures ColdFixed(data) == SignExtend(Bits(data, 4, 12), 12)
    ensures -0x800 <= ColdFixed(data) < 0x800
    ensures ColdFixed(data) % 0x1000 == Bits(data, 4, 12)
    ensures ColdFixed(data) < 0 <==> Bits(data, 15, 1) == 1
  {
    var raw := Bits(data, 4, 12);
    assert ColdBits(data) == raw && 0 <= raw < 0x1000 by {
      ColdBitsIsField(data);
    }
    assert raw >= 0x800 <==> BitRead(data, 15) == 1 by {
      ColdBitsIsField(data);
    }
    assert BitRead(data, 15) == Bits(data, 15, 1) by {
      BitReadIsBit(data, 15);
    }
    assert Pow2(11) == 0x800 && Pow2(12) == 0x1000;
    var c := ColdFixed(data);
    assert c % 0x1000 == raw by {
      DivModUnique(c, 0x1000, if c < 0 then -1 else 0, raw);
    }
  }

  /**
   Adding `0xFFFFF000` to the cold-junction bits sets bits 12..31, exactly as OR-ing
   them in would, because those bits are zero; stored in a `long` the sum is the
   bits minus 2^12.
   */
  lemma ColdSignExtendIsOr(data: Long)
    ensures 0 <= ColdBits(data) && ColdBits(data) + 0xFFFF_F000 == Or(ColdBits(data), 0xFFFF_F000)
    ensures ToLong(ColdBits(data) + 0xFFFF_F000) == ColdBits(data) - 0x1000
  {
    var c := ColdBits(data);
    assert 0 <= c < 0x1000 by {
      ColdBitsIsField(data);
    }
    assert Or(c, 0xFFFF_F000) == c + 0xFFFF_F000 by {
      assert Pow2(12) == 0x1000;
      AddIsOr(c, 0xFFFF_F000, 12);
    }
    assert ToLong(c + 0xFFFF_F000) == c - 0x1000 by {
      ToLongUnique(c + 0xFFFF_F000, 1, c - 0x1000);
    }
  }

  /**
   Selector 1 returns the whole degrees of the hot junction: the word divided by 2^20
   and rounded down, which is the 12-bit two's-complement value of bits 31..20.
   */
  lemma HotIntegerIsFloor(data: Long)
    ensures HotInteger(data) == data / 0x10_0000
    ensures HotInteger(data) == SignExtend(Bits(data, 20, 12), 12)
    ensures -0x800 <= HotInteger(data) < 0x800
    ensures 4 * HotInteger(data) <= HotField(data) < 4 * HotInteger(data) + 4
  {
    assert Pow2(2) == 4 && Pow2(11) == 0x800 && Pow2(12) == 0x1000 && Pow2(18) == 0x4_0000;
    assert Pow2(20) == 0x10_0000 by {
      Pow2Add(18, 2);
    }
    ShrShr(data, 18, 2);
  }

  /**
   The default selector rounds the quarter-degree reading to the nearest degree, a
   half degree rounding up (towards plus infinity).
   */
  lemma HotRoundedIsNearest(data: Long)
    ensures -2 <= HotField(data) - 4 * HotRounded(data) < 2
    ensures HotRounded(data) == (HotField(data) + 2) / 4
    ensures -0x800 <= HotRounded(data) <= 0x800
  {
    HotFieldIsSignedField(data);
    AndLowBits(HotField(data), 2);
  }

  /**
   The rounded reading is the truncated one plus a carry from the fraction bits. This
   holds by the definitions of the three selectors; what the rounding means is
   `HotRoundedIsNearest`.
   */
  lemma RoundedIsIntegerPlusCarry(data: Long)
    ensures HotRounded(data) == HotInteger(data) + (if HotFraction(data) >= 2 then 1 else 0)
  {
  }

  /**
   The results read only bits 31..18, 15..4 and 2..0: the reserved bits 17 and 3 and
   the aggregate fault flag in bit 16 never change a result.
   */
  lemma OnlyDataBitsMatter(d1: Long, d2: Long)
    requires Bits(d1, 18, 14) == Bits(d2, 18, 14)
    requires Bits(d1, 4, 12) == Bits(d2, 4, 12)
    requires Bits(d1, 0, 3) == Bits(d2, 0, 3)
    ensures Fault(d1) == Fault(d2)
    ensures HotFraction(d1) == HotFraction(d2)
    ensures ColdFixed(d1) == ColdFixed(d2)
    ensures HotInteger(d1) == HotInteger(d2)
    ensures HotRounded(d1) == HotRounded(d2)
  {
    FaultIsLowBits(d1);
    FaultIsLowBits(d2);
    ColdFixedIsSignedField(d1);
    ColdFixedIsSignedField(d2);
    HotFieldIsSignedField(d1);
    HotFieldIsSignedField(d2);
    RoundedIsIntegerPlusCarry(d1);
    RoundedIsIntegerPlusCarry(d2);
  }

  // ---------------------------------------------------------------------------
  // Words the converter sends

  /**
   The register word the converter sends for a hot-junction reading of `hot` quarter
   degrees, a cold-junction reading of `cold` sixteenth degrees and the fault bits
   `fault`; bit 16 is set when any fault bit is, and the reserved bits are zero.
   */
  function Encode(hot: int, cold: int, fault: nat): Long
    requires -0x2000 <= hot < 0x2000 && -0x800 <= cold < 0x800 && fault < 8
  {
    ToLong((hot % 0x4000) * 0x4_0000 + (if fault != 0 then 0x1_0000 else 0) + (cold % 0x1000) * 0x10 + fault)
  }

  /** The three data fields of an encoded word hold the readings' bit patterns. */
  lemma EncodeFields(hot: int, cold: int, fault: nat)
    requires -0x2000 <= hot < 0x2000 && -0x800 <= cold < 0x800 && fault < 8
    ensures Bits(Encode(hot, cold, fault), 18, 14) == hot % 0x4000
    ensures Bits(Encode(hot, cold, fault), 4, 12) == cold % 0x1000
    ensures Bits(Encode(hot, cold, fault), 0, 3) == fault
  {
    var hb, cb, flag := hot % 0x4000, cold % 0x1000, if fault != 0 then 1 else 0;
    var u := hb * 0x4_0000 + flag * 0x1_0000 + cb * 0x10 + fault;
    var d := Encode(hot, cold, fault);
    var k := (u - d) / 0x1_0000_0000;
    assert d == u - k * 0x1_0000_0000;
    assert Bits(d, 18, 14) == hb by {
      BitsOfLayout(d, 18, 14, 0x4_0000, 0x4000, -k, hb, flag * 0x1_0000 + cb * 0x10 + fault);
    }
    assert Bits(d, 4, 12) == cb by {
      BitsOfLayout(d, 4, 12, 0x10, 0x1000, hb * 4 + flag - k * 0x1_0000, cb, fault);
    }
    assert Bits(d, 0, 3) == fault by {
      BitsOfLayout(d, 0, 3, 1, 8, hb * 0x8000 + flag * 0x2000 + cb * 2 - k * 0x2000_0000, fault, 0);
    }
  }

  /** A word whose bits 31..18 hold the 14-bit pattern of `hot` decodes to `hot` under selectors 3, 1 and 0. */
  lemma HotFromBits(d: Long, hot: int)
    requires -0x2000 <= hot < 0x2000 && Bits(d, 18, 14) == hot % 0x4000
    ensures HotField(d) == hot
    ensures HotFraction(d) == hot % 4
    ensures HotInteger(d) == hot / 4
    ensures HotRounded(d) == (hot + 2) / 4
  {
    assert HotField(d) == hot by {
      assert Pow2(13) == 0x2000 && Pow2(14) == 0x4000;
      HotFieldIsSignedField(d);
      SignExtendOfMod(hot, 14, Bits(d, 18, 14));
    }
    assert Pow2(2) == 4;
    assert HotFraction(d) == hot % 4 by {
      AndLowBits(hot, 2);
    }
  }

  /** A word whose bits 15..4 hold the 12-bit pattern of `cold` decodes to `cold` under selector 2. */
  lemma ColdFromBits(d: Long, cold: int)
    requires -0x800 <= cold < 0x800 && Bits(d, 4, 12) == cold % 0x1000
    ensures ColdFixed(d) == cold
  {
    assert Pow2(11) == 0x800 && Pow2(12) == 0x1000;
    ColdFixedIsSignedField(d);
    SignExtendOfMod(cold, 12, Bits(d, 4, 12));
  }

  /** Decoding a word the converter produced gives back every reading it encodes. */
  lemma DecodeEncode(hot: int, cold: int, fault: nat)
    requires -0x2000 <= hot < 0x2000 && -0x800 <= cold < 0x800 && fault < 8
    ensures Fault(Encode(hot, cold, fault)) == fault
    ensures HotField(Encode(hot, cold, fault)) == hot
    ensures HotFraction(Encode(hot, cold, fault)) == hot % 4
    ensures HotInteger(Encode(hot, cold, fault)) == hot / 4
    ensures HotRounded(Encode(hot, cold, fault)) == (hot + 2) / 4
    ensures ColdFixed(Encode(hot, cold, fault)) == cold
  {
    var d := Encode(hot, cold, fault);
    EncodeFields(hot, cold, fault);
    FaultIsLowBits(d);
    HotFromBits(d, hot);
    ColdFromBits(d, cold);
  }

  /** Reference frame: 25.00 degrees hot, no fault. */
  lemma ReferenceHot25()
    ensures HotRounded(0x0190_0000) == 25 && HotFraction(0x0190_0000) == 0 && Fault(0x0190_0000) == 0
  {
    FaultIsLowBits(0x0190_0000);
    HotFromBits(0x0190_0000, 100);
  }

  /** Reference frames: 25.25 degrees hot rounds down to 25, 25.50 rounds up to 26; both truncate to 25. */
  lemma ReferenceHotRounding()
    ensures HotRounded(0x0194_0000) == 25 && HotInteger(0x0194_0000) == 25
    ensures HotRounded(0x0198_0000) == 26 && HotInteger(0x0198_0000) == 25
  {
    HotFromBits(0x0194_0000, 101);
    HotFromBits(0x0198_0000, 102);
  }

  /** Reference frames: +3.0 and -10.0 degrees cold, in sixteenth degrees. */
  lemma ReferenceCold()
    ensures ColdFixed(0x0300) == 48 && ColdFixed(0xF600) == -160
  {
    assert Pow2(4) == 0x10 && Pow2(11) == 0x800 && Pow2(12) == 0x1000;
    assert Bits(0x0300, 4, 12) == 0x30;
    assert Bits(0xF600, 4, 12) == 0xF60;
    ColdFixedIsSignedField(0x0300);
    ColdFixedIsSignedField(0xF600);
  }
}
