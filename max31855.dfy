/**
 The driver object: `dataAvailable` shifts the converter's four bytes into `_data`,
 and `dataRead` decodes one field of `_data`, using `_extractedDataH` and
 `_extractedDataC` as scratch fields along the way.

 The serial transfer is not modelled: the four bytes `SPI.transfer(0x00)` returns,
 in order, are the argument `spi`. The chip-select pin, its delays and the required
 50 ms between acquisitions are hardware timing and are not modelled either.
 */
module Thermocouple {
  import opened CLong
  import opened Acquisition
  import opened Register

  class Max31855 {
    /** `_data`: the raw register word of the last acquisition. */
    var data: Long
    /** `_extractedDataH`: scratch for the hot-junction field. */
    var extractedH: Long
    /** `_extractedDataC`: scratch for the cold-junction field. */
    var extractedC: Long

    /** The driver's constructor only configures the bus and the chip-select pin; the fields keep whatever they hold. */
    constructor ()
    {
    }

    /**
     `dataAvailable`: shifts the four bytes into `data`, first byte highest, and
     reports whether the word is non-zero (an all-zero word means no data).
     */
    method DataAvailable(spi: seq<Byte>) returns (available: bool)
      requires |spi| == 4
      modifies this`data
      ensures data == Frame(spi)
      ensures available <==> data != 0
      ensures available <==> exists i | 0 <= i < 4 :: spi[i] != 0
    {
      data := 0;
      for i := 0 to 4
        invariant data == ToLong(BigEndian(spi[..i]))
      {
        ShiftInPrefix(spi, i);
        data := Shl(data, 8) + spi[i];
      }
      assert spi[..4] == spi;
      FrameNonZero(spi);
      if data != 0 {
        available := true;
      } else {
        available := false;
      }
    }

    /** `_extractedDataH = _data >> 18`: the hot-junction field, sign-extended by the shift. */
    method ExtractHot()
      modifies this`extractedH
      ensures extractedH == HotField(data)
    {
      assert -0x2000 <= HotField(data) < 0x2000 by {
        HotFieldIsSignedField(data);
      }
      extractedH := HotField(data);
    }

    /**
     `_extractedDataC = (_data & 0xFFF0) >> 4`, then `_extractedDataC += 0xFFFFF000` when
     bit 15 is set: the cold-junction field as a signed number.
     */
    method ExtractCold()
      modifies this`extractedC
      ensures extractedC == ColdFixed(data)
    {
      var d := data;
      assert ToLong(ColdBits(d) + 0xFFFF_F000) == ColdBits(d) - 0x1000 by {
        ColdSignExtendIsOr(d);
      }
      assert 0 <= ColdBits(d) < 0x1000 by {
        ColdBitsIsField(d);
      }
      extractedC := ColdBits(d);
      if BitRead(d, 15) == 1 {
        extractedC := ToLong(extractedC + 0xFFFF_F000);
      }
    }

    /**
     `dataRead`: the field `selectData` asks for. 4 gives the fault bits, 3 the hot
     fraction, 2 the cold junction in sixteenth degrees, 1 the hot junction in whole
     degrees, and every other value the hot junction rounded to the nearest degree.
     `data` is left as it is, so the result depends on `data` and `selectData` only;
     the scratch fields end up as the branch taken leaves them.
     */
    method DataRead(selectData: Byte) returns (r: int)
      modifies this`extractedH, this`extractedC
      ensures -0x8000 <= r <= 0x7FFF
      ensures selectData == 4 ==>
        r == Fault(data) && extractedH == old(extractedH) && extractedC == old(extractedC)
      ensures selectData == 3 ==>
        r == HotFraction(data) && extractedH == HotField(data) && extractedC == old(extractedC)
      ensures selectData == 2 ==>
        r == ColdFixed(data) && extractedH == HotField(data) && extractedC == ColdFixed(data)
      ensures selectData == 1 ==>
        r == HotInteger(data) && extractedH == HotField(data) && extractedC == Shr(ColdFixed(data), 2)
      ensures !(1 <= selectData <= 4) ==>
        r == HotRounded(data) && extractedH == HotRounded(data) && extractedC == Shr(ColdFixed(data), 2)
    {
      if selectData == 4 {
        assert Fault(data) < 8 by {
          FaultIsLowBits(data);
        }
        return And(data, 0x7);
      }
      ExtractHot();
      if selectData == 3 {
        return And(extractedH, 0x3);
      }
      ExtractCold();
      assert -0x800 <= extractedC < 0x800 by {
        ColdFixedIsSignedField(data);
      }
      if selectData == 2 {
        return extractedC;
      }
      assert -0x200 <= Shr(extractedC, 2) < 0x200 by {
        assert Pow2(2) == 4;
      }
      extractedC := Shr(extractedC, 2);
      assert -0x800 <= Shr(extractedH, 2) < 0x800 by {
        HotIntegerIsFloor(data);
      }
      if selectData == 1 {
        return Shr(extractedH, 2);
      }
      assert -0x800 <= HotRounded(data) <= 0x800 by {
        HotRoundedIsNearest(data);
      }
      var decBits := And(extractedH, 0x3);
      extractedH := Shr(extractedH, 2);
      if decBits >= 2 {
        extractedH := extractedH + 1;
      }
      return extractedH;
    }
  }

  /** Two `dataRead` calls with the same selector and no acquisition between them agree. */
  method ReadTwice(sensor: Max31855, selectData: Byte) returns (first: int, second: int)
    modifies sensor
    ensures first == second
    ensures sensor.data == old(sensor.data)
  {
    first := sensor.DataRead(selectData);
    second := sensor.DataRead(selectData);
  }
}
