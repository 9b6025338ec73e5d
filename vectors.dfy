/**
 * The register definitions of the coil test suite and the behaviour it
 * expects of each, stated on the codec.
 */
module Vectors {
  import opened Words
  import opened Codec
  import opened Coils

  const Signed8 := Configure(48739, "cool-offset-s1-48739", "Cool offset S1", S8)
  const Unsigned8 := Configure(123, "test", "test", U8)
  const Signed16 := Configure(123, "test", "test", S16, factor := 10, rawMin := Some(50), rawMax := Some(300))
  const Unsigned16 := Configure(123, "compressor-frequency-actual-43136", "Compressor Frequency, Actual", U16,
                                factor := 10)
  const Signed32 := Configure(43420, "tot-op-time-compr-eb100-ep14-43420", "Total compressorer operation time", S32)
  const Signed32Swapped := Signed32.(wordSwap := false)
  const Prio := Configure(123, "prio-43086", "Prio", U8, factor := 1,
                          mappings := [Entry(10, "Off"), Entry(20, "Hot Water"), Entry(30, "Heat"),
                                       Entry(40, "Pool"), Entry(41, "Pool 2"), Entry(50, "Transfer"),
                                       Entry(60, "Cooling")])
  const StatusCooling := Configure(43024, "status-cooling-43024", "Status Cooling", U8, factor := 1,
                                   mappings := [Entry(0, "Off"), Entry(1, "On")])
  const PeriodicHotWater := Configure(47050, "status-cooling-43024", "Periodic HW", S8, factor := 1,
                                      rawMin := Some(0), rawMax := Some(1), write := true)

  /** `swapwords(b"abcd") == b"cdab"`; a 2-byte buffer is returned unchanged. */
  lemma SwapWordsExamples()
    ensures SwapWords(['a' as Byte, 'b' as Byte, 'c' as Byte, 'd' as Byte]) ==
            ['c' as Byte, 'd' as Byte, 'a' as Byte, 'b' as Byte]
    ensures SwapWords(['a' as Byte, 'b' as Byte]) == ['a' as Byte, 'b' as Byte]
  {
  }

  /** Construction keeps address, name, title, the size's width class and the unknown attributes. */
  lemma CreateKeepsAttributes()
    ensures var d := Configure(123, "test_name", "test_title", ParseSize("u8").value,
                               other := map["unknown" := "some other"]);
      d.address == 123 && d.name == "test_name" && d.title == "test_title" &&
      d.size == U8 && d.size.Width() == 1 && !d.size.Signed() &&
      d.other["unknown"] == "some other"
  {
  }

  /** s8: `fc` reads as -4 from a 4-, 2- or 1-byte buffer. */
  lemma Signed8Decode()
    ensures Decode(Signed8, [0xfc, 0, 0, 0]) == Ok(Num(-4.0))
    ensures Decode(Signed8, [0xfc, 0]) == Ok(Num(-4.0))
    ensures Decode(Signed8, [0xfc]) == Ok(Num(-4.0))
  {
    Signed8Raw();
    assert Unscale(-4, 1) == -4.0;
    DecodeReadsLeadingBytes(Signed8, [0xfc], [0, 0, 0]);
    DecodeReadsLeadingBytes(Signed8, [0xfc], [0]);
  }

  /** The s8 byte `fc` holds -4, and an s8 register has no labels. */
  lemma Signed8Raw()
    ensures !Mapped(Signed8) && RawInt(Signed8, [0xfc]) == -4
  {
    assert FromLittleEndian([0xfc]) == 0xfc;
  }

  /** s8: -4 encodes as `fc 00 00 00`; 256 is accepted but does not encode. */
  lemma Signed8Encode()
    ensures Assign(Signed8, Num(-4.0)) == Ok(Num(-4.0))
    ensures Encode(Signed8, Num(-4.0)) == Ok([0xfc, 0, 0, 0])
    ensures Assign(Signed8, Num(256.0)) == Ok(Num(256.0))
    ensures Encode(Signed8, Num(256.0)) == Err(EncodeError)
  {
    Signed8Decode();
    DecodeThenEncodeNumber(Signed8, [0xfc], Num(-4.0));
    assert Canonical(Signed8, [0xfc]) == [0xfc, 0, 0, 0];
    EncodeOverflow(Signed8, 256.0);
    NumberRawInt(Signed8, 256.0);
  }

  /** u8: `01` reads as 1 from a 4-, 2- or 1-byte buffer. */
  lemma Unsigned8Decode()
    ensures Decode(Unsigned8, [1, 0, 0, 0]) == Ok(Num(1.0))
    ensures Decode(Unsigned8, [1, 0]) == Ok(Num(1.0))
    ensures Decode(Unsigned8, [1]) == Ok(Num(1.0))
  {
    Unsigned8Raw();
    assert Unscale(1, 1) == 1.0;
    DecodeReadsLeadingBytes(Unsigned8, [1], [0, 0, 0]);
    DecodeReadsLeadingBytes(Unsigned8, [1], [0]);
  }

  /** The u8 bytes `01` and `ff` hold 1 and 255, and a u8 register has no labels. */
  lemma Unsigned8Raw()
    ensures !Mapped(Unsigned8) && RawInt(Unsigned8, [1]) == 1 && RawInt(Unsigned8, [0xff]) == 0xff
  {
    assert FromLittleEndian([1]) == 1;
    assert FromLittleEndian([0xff]) == 0xff;
  }

  /** u8: 1 and 255 encode in the low byte; 256 is accepted but does not encode. */
  lemma Unsigned8Encode()
    ensures Encode(Unsigned8, Num(1.0)) == Ok([1, 0, 0, 0])
    ensures Encode(Unsigned8, Num(255.0)) == Ok([0xff, 0, 0, 0])
    ensures Assign(Unsigned8, Num(256.0)) == Ok(Num(256.0))
    ensures Encode(Unsigned8, Num(256.0)) == Err(EncodeError)
  {
    Unsigned8Decode();
    DecodeThenEncodeNumber(Unsigned8, [1], Num(1.0));
    assert Canonical(Unsigned8, [1]) == [1, 0, 0, 0];
    assert FromLittleEndian([0xff]) == 0xff;
    DecodeThenEncodeNumber(Unsigned8, [0xff], Num(255.0));
    assert Canonical(Unsigned8, [0xff]) == [0xff, 0, 0, 0];
    EncodeOverflow(Unsigned8, 256.0);
    NumberRawInt(Unsigned8, 256.0);
  }

  /** s16 with factor 10 and raw bounds 50..300: `min` 5.0, `max` 30.0, not boolean, not writable. */
  lemma Signed16Attributes()
    ensures EngMin(Signed16) == Some(5.0) && EngMax(Signed16) == Some(30.0)
    ensures Signed16.rawMin == Some(50) && Signed16.rawMax == Some(300)
    ensures !IsBoolean(Signed16) && !Signed16.writable
  {
  }

  /** s16 10x 50..300: 5.0 and 30 are accepted; 4, 4.9 and 30.1 are rejected. */
  lemma Signed16Bounds()
    ensures Assign(Signed16, Num(5.0)).Ok? && Assign(Signed16, Num(30.0)).Ok?
    ensures Assign(Signed16, Num(4.0)) == Err(Rejected)
    ensures Assign(Signed16, Num(4.9)) == Err(Rejected)
    ensures Assign(Signed16, Num(30.1)) == Err(Rejected)
  {
    assert !Mapped(Signed16);
  }

  /** s16 10x 50..300: `97 00` reads as 15.1; raw 49 and raw 4141 are decode errors. */
  lemma Signed16Decode()
    ensures Decode(Signed16, [0x97, 0]) == Ok(Num(15.1))
    ensures Decode(Signed16, [0x31, 0]) == Err(DecodeError(49))
    ensures Decode(Signed16, [0x2d, 0x10]) == Err(DecodeError(4141))
  {
    assert !Mapped(Signed16);
    assert FromLittleEndian([0x97, 0]) == 0x97 by { assert FromLittleEndian([0]) == 0; }
    assert FromLittleEndian([0x31, 0]) == 0x31 by { assert FromLittleEndian([0]) == 0; }
    assert FromLittleEndian([0x2d, 0x10]) == 0x102d by { assert FromLittleEndian([0x10]) == 0x10; }
  }

  /** s16 10x: 15.1 encodes as `97 00 00 00`. */
  lemma Signed16Encode()
    ensures Encode(Signed16, Num(15.1)) == Ok([0x97, 0, 0, 0])
  {
    Signed16Decode();
    DecodeThenEncodeNumber(Signed16, [0x97, 0], Num(15.1));
    assert Canonical(Signed16, [0x97, 0]) == [0x97, 0, 0, 0];
  }

  /** u16 10x: `01 00` reads as 0.1 with or without padding. */
  lemma Unsigned16Decode()
    ensures Decode(Unsigned16, [1, 0, 0, 0]) == Ok(Num(0.1))
    ensures Decode(Unsigned16, [1, 0]) == Ok(Num(0.1))
  {
    Unsigned16Buffers();
    DecodeReadsLeadingBytes(Unsigned16, [1, 0], [0, 0]);
  }

  /** u16 10x: 0.1 and 25.5 encode in the low bytes. */
  lemma Unsigned16Encode()
    ensures Encode(Unsigned16, Num(0.1)) == Ok([1, 0, 0, 0])
    ensures Encode(Unsigned16, Num(25.5)) == Ok([0xff, 0, 0, 0])
  {
    Unsigned16Buffers();
    DecodeThenEncodeNumber(Unsigned16, [1, 0], Num(0.1));
    DecodeThenEncodeNumber(Unsigned16, [0xff, 0], Num(25.5));
  }

  /** The u16 buffers `01 00` and `ff 00`: their raw integers, decoded values and canonical forms. */
  lemma Unsigned16Buffers()
    ensures !Mapped(Unsigned16)
    ensures Decode(Unsigned16, [1, 0]) == Ok(Num(0.1))
    ensures Decode(Unsigned16, [0xff, 0]) == Ok(Num(25.5))
    ensures Canonical(Unsigned16, [1, 0]) == [1, 0, 0, 0]
    ensures Canonical(Unsigned16, [0xff, 0]) == [0xff, 0, 0, 0]
  {
    assert FromLittleEndian([1, 0]) == 1 by { assert FromLittleEndian([0]) == 0; }
    assert FromLittleEndian([0xff, 0]) == 0xff by { assert FromLittleEndian([0]) == 0; }
  }

  /** s32, default word order: `32 54 00 00` and 21554 correspond, plain little endian. */
  lemma Signed32Codec()
    ensures Decode(Signed32, [0x32, 0x54, 0, 0]) == Ok(Num(21554.0))
    ensures Encode(Signed32, Num(21554.0)) == Ok([0x32, 0x54, 0, 0])
  {
    Signed32Buffer();
    DecodeThenEncodeNumber(Signed32, [0x32, 0x54, 0, 0], Num(21554.0));
  }

  /** The s32 buffer `32 54 00 00` holds 0x5432 and is already canonical. */
  lemma Signed32Buffer()
    ensures !Mapped(Signed32)
    ensures RawInt(Signed32, [0x32, 0x54, 0, 0]) == 0x5432
    ensures Canonical(Signed32, [0x32, 0x54, 0, 0]) == [0x32, 0x54, 0, 0]
  {
    assert FromLittleEndian([0x32, 0x54, 0, 0]) == 0x5432 by {
      assert FromLittleEndian([0, 0]) == 0 by { assert FromLittleEndian([0]) == 0; }
    }
    assert ZeroFill([0x32, 0x54, 0, 0], 4) == [0x32, 0x54, 0, 0];
  }

  /** s32 with `word_swap` off: `00 00 28 06` and 1576 correspond, the words swapped. */
  lemma Signed32SwappedCodec()
    ensures Decode(Signed32Swapped, [0, 0, 0x28, 0x06]) == Ok(Num(1576.0))
    ensures Encode(Signed32Swapped, Num(1576.0)) == Ok([0, 0, 0x28, 0x06])
  {
    Signed32SwappedBuffer();
    DecodeThenEncodeNumber(Signed32Swapped, [0, 0, 0x28, 0x06], Num(1576.0));
  }

  /** The swapped s32 buffer `00 00 28 06` holds 0x0628 and is already canonical. */
  lemma Signed32SwappedBuffer()
    ensures !Mapped(Signed32Swapped)
    ensures RawInt(Signed32Swapped, [0, 0, 0x28, 0x06]) == 0x0628
    ensures Canonical(Signed32Swapped, [0, 0, 0x28, 0x06]) == [0, 0, 0x28, 0x06]
  {
    assert WordOrder(Signed32Swapped, [0, 0, 0x28, 0x06]) == [0x28, 0x06, 0, 0];
    assert FromLittleEndian([0x28, 0x06, 0, 0]) == 0x0628 by {
      assert FromLittleEndian([0, 0]) == 0 by { assert FromLittleEndian([0]) == 0; }
    }
    assert ZeroFill([0x28, 0x06, 0, 0], 4) == [0x28, 0x06, 0, 0];
    assert WordOrder(Signed32Swapped, [0x28, 0x06, 0, 0]) == [0, 0, 0x28, 0x06];
  }

  /**
   * The label table of the Prio register: seven entries keyed as
   * configured, the first labelled "OFF", and no later label starting with
   * 'O', 'B' or 'U'.
   */
  lemma PrioTable()
    ensures |Table(Prio)| == 7 && Table(Prio)[0] == Entry(10, "OFF")
    ensures forall i :: 0 <= i < 7 ==> Table(Prio)[i].raw == Prio.mappings[i].raw
    ensures forall i :: 1 <= i < 7 ==>
      |Table(Prio)[i].display| > 0 && Table(Prio)[i].display[0] !in {'O', 'B', 'U'}
  {
    var t := Table(Prio);
    assert Upper("Off") == "OFF";
    forall i | 1 <= i < 7
      ensures |t[i].display| > 0 && t[i].display[0] !in {'O', 'B', 'U'}
    {
      assert t[i].display == Upper(Prio.mappings[i].display);
      assert t[i].display[0] == UpperChar(Prio.mappings[i].display[0]);
    }
  }

  /** "OFF" is the label of the first Prio entry and of no other. */
  lemma PrioOffKey()
    ensures RawOf(Table(Prio), "OFF") == Some(10)
    ensures LabelOf(Table(Prio), 10) == Some("OFF")
  {
    PrioOffLabelOnlyFirst();
    PrioTenKeyOnlyFirst();
  }

  lemma PrioOffLabelOnlyFirst()
    ensures RawOf(Table(Prio), "OFF") == Some(10)
  {
    PrioTable();
    var t := Table(Prio);
    var k := RawOf(t, "OFF").value;
    var i :| 0 <= i < |t| && t[i] == Entry(k, "OFF");
    assert i == 0;
  }

  lemma PrioTenKeyOnlyFirst()
    ensures LabelOf(Table(Prio), 10) == Some("OFF")
  {
    PrioDistinctKeys();
    TableLookup(Prio, 0);
    assert Upper("Off") == "OFF";
  }

  /** The Prio keys 10, 20, 30, 40, 41, 50, 60 are distinct. */
  lemma PrioDistinctKeys()
    ensures DistinctKeys(Prio.mappings)
  {
  }

  /** Prio has a mapping, so its values are labels. */
  lemma PrioMapped()
    ensures Mapped(Prio)
  {
    PrioTable();
  }

  /** Neither "Beer" nor "Unknown", upper-cased, is a Prio label. */
  lemma PrioUnknownLabels()
    ensures RawOf(Table(Prio), Upper("Beer")).None?
    ensures RawOf(Table(Prio), Upper("Unknown")).None?
  {
    UnknownInitials();
    PrioLacksInitial(Upper("Beer"));
    PrioLacksInitial(Upper("Unknown"));
  }

  /** "Beer" and "Unknown", upper-cased, start with 'B' and 'U'. */
  lemma UnknownInitials()
    ensures |Upper("Beer")| > 0 && Upper("Beer")[0] == 'B'
    ensures |Upper("Unknown")| > 0 && Upper("Unknown")[0] == 'U'
  {
  }

  /** No Prio label starts with 'B' or 'U'. */
  lemma PrioLacksInitial(s: string)
    requires |s| > 0 && (s[0] == 'B' || s[0] == 'U')
    ensures RawOf(Table(Prio), s).None?
  {
    PrioTable();
  }

  /** Raw 0 is not a Prio key. */
  lemma PrioUnmappedZero()
    ensures LabelOf(Table(Prio), 0).None?
  {
    PrioTable();
    var t := Table(Prio);
    assert forall i :: 0 <= i < |t| ==> t[i].raw != 0;
  }

  /** Prio: "off" is stored as "OFF". */
  lemma PrioAssignOff()
    ensures Assign(Prio, Label("off")) == Ok(Label("OFF"))
  {
    PrioMapped();
    PrioOffKey();
    UpperOff();
    AssignKnownLabel(Prio, "off");
  }

  /** "off" upper-cased is "OFF". */
  lemma UpperOff()
    ensures Upper("off") == "OFF"
  {
    var u := Upper("off");
    assert u[0] == 'O' && u[1] == 'F' && u[2] == 'F';
  }

  /** Prio: "Beer" and "Unknown" are rejected. */
  lemma PrioRejectsUnknown()
    ensures Assign(Prio, Label("Beer")) == Err(Rejected)
    ensures Assign(Prio, Label("Unknown")) == Err(Rejected)
  {
    PrioMapped();
    PrioUnknownLabels();
    AssignUnknownLabel(Prio, "Beer");
    AssignUnknownLabel(Prio, "Unknown");
  }

  /** Prio: raw 10 reads as "OFF"; raw 0 is not mapped and is a decode error. */
  lemma PrioDecode()
    ensures Decode(Prio, [0x0a]) == Ok(Label("OFF"))
    ensures Decode(Prio, [0]) == Err(DecodeError(0))
  {
    PrioMapped();
    PrioOffKey();
    PrioUnmappedZero();
    PrioRawInts();
  }

  /** Raw 10 and raw 0 in a one-byte Prio buffer. */
  lemma PrioRawInts()
    ensures RawInt(Prio, [0x0a]) == 10 && RawInt(Prio, [0]) == 0
  {
    assert FromLittleEndian([0x0a]) == 0x0a;
    assert FromLittleEndian([0]) == 0;
  }

  /** Packing 10 into a u8 register gives the byte `0a`. */
  lemma PackTen()
    ensures BuildInt(U8, 10) == Ok([0x0a])
  {
    assert ToLittleEndian(10, 1) == [0x0a];
  }

  /** Prio: "OFF" encodes as `0a 00 00 00`. */
  lemma PrioEncode()
    ensures Encode(Prio, Label("OFF")) == Ok([0x0a, 0, 0, 0])
  {
    PrioOffRawInt();
    PackTen();
    assert ZeroFill([0x0a], 4) == [0x0a, 0, 0, 0];
  }

  /** The Prio label "OFF" stands for raw 10. */
  lemma PrioOffRawInt()
    ensures ToRawInt(Prio, Label("OFF")) == Ok(10)
  {
    PrioMapped();
    PrioOffKey();
  }

  /** Status cooling, mapping {0: Off, 1: On}: boolean; "On" is stored as "ON", "ofF" as "OFF". */
  lemma StatusCoolingMapping()
    ensures IsBoolean(StatusCooling)
    ensures Assign(StatusCooling, Label("On")) == Ok(Label("ON"))
    ensures Assign(StatusCooling, Label("ofF")) == Ok(Label("OFF"))
  {
    assert Upper("Off") == "OFF" && Upper("On") == "ON" && Upper("ofF") == "OFF";
    assert Table(StatusCooling) == [Entry(0, "OFF"), Entry(1, "ON")];
  }

  /** Periodic HW, s8 with raw bounds 0..1: boolean; it takes "ON" and "OFF" like a mapping. */
  lemma PeriodicHotWaterBounds()
    ensures IsBoolean(PeriodicHotWater) && PeriodicHotWater.writable
    ensures Assign(PeriodicHotWater, Label("ON")) == Ok(Label("ON"))
    ensures Assign(PeriodicHotWater, Label("OFF")) == Ok(Label("OFF"))
  {
    assert Upper("OFF") == "OFF" && Upper("ON") == "ON";
    assert Table(PeriodicHotWater) == [Entry(0, "OFF"), Entry(1, "ON")];
  }

  /**
   * An s8 coil: `fc` assigned as a 4-, 2- and 1-byte buffer reads as -4
   * each time; -4 assigned reads back as `fc 00 00 00`; 256 is accepted
   * and then fails to encode.
   */
  method Signed8Scenario() returns (values: seq<Option<Value>>, raw: Result<seq<Byte>>,
                                    accepted: Outcome, overflow: Result<seq<Byte>>)
    ensures values == [Some(Num(-4.0)), Some(Num(-4.0)), Some(Num(-4.0))]
    ensures raw == Ok([0xfc, 0, 0, 0])
    ensures accepted == Pass && overflow == Err(EncodeError)
  {
    Signed8Decode();
    Signed8Encode();
    var coil := new Coil(48739, "cool-offset-s1-48739", "Cool offset S1", S8);
    assert coil.definition == Signed8;
    var o1 := coil.SetRaw([0xfc, 0, 0, 0]);
    values := [coil.value];
    var o2 := coil.SetRaw([0xfc, 0]);
    values := values + [coil.value];
    var o3 := coil.SetRaw([0xfc]);
    values := values + [coil.value];
    var o4 := coil.SetValue(Num(-4.0));
    raw := coil.GetRaw();
    accepted := coil.SetValue(Num(256.0));
    overflow := coil.GetRaw();
  }

  /**
   * A coil with mapping {0: Off, 1: On}: "On" assigned reads back as "ON",
   * then "ofF" assigned reads back as "OFF".
   */
  method BooleanMappingScenario() returns (first: Option<Value>, second: Option<Value>)
    ensures first == Some(Label("ON"))
    ensures second == Some(Label("OFF"))
  {
    StatusCoolingMapping();
    var coil := new Coil(43024, "status-cooling-43024", "Status Cooling", U8,
                         mappings := [Entry(0, "Off"), Entry(1, "On")]);
    assert coil.definition == StatusCooling;
    var o1 := coil.SetValue(Label("On"));
    first := coil.value;
    var o2 := coil.SetValue(Label("ofF"));
    second := coil.value;
  }
}
