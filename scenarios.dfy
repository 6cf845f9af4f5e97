/** Concrete schemas and packets, decoded end to end. */
module Scenarios {
  import opened Arith
  import opened Text
  import opened Bits
  import opened Schema
  import opened Decoder
  import opened Report

  /** A 2-byte counter with bounds and a 1-byte bitfield expecting three ones. */
  const SeqField := FieldSpec("seq", Int, 2, 0, false, "", Some(0), Some(65535), None)
  const FlagsField := FieldSpec("flags", Bitfield, 1, 0, false, "", None, None, Some(3))
  const CounterSchema := [SeqField, FlagsField]

  /** A 1-byte length followed by a text payload of that many bytes. */
  const LenField := FieldSpec("len", Int, 1, 0, false, "", None, None, None)
  const PayloadField := FieldSpec("payload", Char, 1, 10, true, "len", None, None, None)
  const PayloadSchema := [LenField, PayloadField]

  lemma SummaryOfTwo(m: map<string, Value>, floatText: seq<Byte> -> string, p: string, q: string)
    requires PartSet(m, floatText) == {p, q} && Less(p, q)
    ensures Summary(m, floatText) == p + ", " + q
  {
    var s := [p, q];
    assert Sorted(s);
    SortedUnique(s, SortedOf(PartSet(m, floatText)));
  }

  lemma PartSetTwo(k1: string, v1: Value, k2: string, v2: Value, floatText: seq<Byte> -> string)
    requires k1 != k2
    ensures PartSet(map[k1 := v1, k2 := v2], floatText) == {Part(k1, v1, floatText), Part(k2, v2, floatText)}
  {
    var m := map[k1 := v1, k2 := v2];
    assert m.Keys == {k1, k2};
    assert m[k1] == v1 && m[k2] == v2;
  }

  /** A two-field pass in terms of its two steps. */
  lemma RunTwo(mode: Mode, f: FieldSpec, g: FieldSpec, buf: seq<Byte>, a: Accum)
    ensures Run(mode, [f, g], buf, a) ==
      var o := Step(mode, f, buf, a);
      if o.status != Done then o
      else var o2 := Step(mode, g, buf, o.acc);
        if o2.status != Done then o2 else Outcome(o2.acc, Done)
  {
    assert [f, g][1..] == [g];
    assert [g][1..] == [];
    var o := Step(mode, f, buf, a);
    if o.status == Done {
      assert Run(mode, [f, g], buf, a) == Run(mode, [g], buf, o.acc);
      var o2 := Step(mode, g, buf, o.acc);
      if o2.status == Done {
        assert Run(mode, [g], buf, o.acc) == Run(mode, [], buf, o2.acc);
      }
    }
  }

  lemma BigEndianTwo(x: Byte, y: Byte)
    ensures BigEndian([x]) == x
    ensures BigEndian([x, y]) == x * 256 + y
  {
    assert [x, y][..1] == [x];
    assert [x][..0] == [];
  }

  /** The counter field of the first two bytes 0x00 0x05. */
  lemma CounterStep(mode: Mode, buf: seq<Byte>)
    requires |buf| >= 2 && buf[0] == 0x00 && buf[1] == 0x05
    ensures Step(mode, SeqField, buf, Init) ==
      Outcome(Accum(2, false, [], map["seq" := Num(5)], map["seq" := 5]), Done)
  {
    assert buf[0..2] == [0x00, 0x05];
    BigEndianTwo(0x00, 0x05);
  }

  /** The flags byte `b` as third byte. */
  lemma FlagsStep(mode: Mode, buf: seq<Byte>, a: Accum, pc: nat, bin: string)
    requires |buf| == 3 && a.offset == 2
    requires PopCount(buf[2]) == pc && BinaryString(buf[2], 8) == bin
    ensures Step(mode, FlagsField, buf, a) ==
      Outcome(a.(offset := 3,
                 dpiError := a.dpiError || (mode == PerEndpoint && pc != 3),
                 errors := a.errors + (if mode == PerEndpoint && pc != 3 then [BitCountMsg("flags", Some(3), pc)] else []),
                 values := a.values["flags" := Binary(bin)],
                 locals := a.locals["flags" := buf[2]]), Done)
  {
    assert buf[2..3] == [buf[2]];
    BigEndianTwo(buf[2], 0);
  }

  lemma NumPart(k: string, n: nat, digits: string, floatText: seq<Byte> -> string)
    requires NatToString(n) == digits
    ensures Part(k, Num(n), floatText) == k + "=" + digits
  {
  }

  lemma StaticText()
    ensures "Static: " + ("flags=00000011" + ", " + "seq=5") == "Static: flags=00000011, seq=5"
  {
    var r := "Static: flags=00000011, seq=5";
    assert r[..8] == "Static: " && r[8..22] == "flags=00000011" && r[22..24] == ", " && r[24..] == "seq=5";
    assert r == r[..8] + (r[8..22] + r[22..24] + r[24..]);
  }

  lemma Seven()
    ensures PopCount(7) == 3 && BinaryString(7, 8) == "00000111"
  {
  }

  lemma Three()
    ensures PopCount(3) == 2 && BinaryString(3, 8) == "00000011"
  {
  }

  const CleanValues := map["seq" := Num(5), "flags" := Binary("00000111")]
  const MismatchValues := map["seq" := Num(5), "flags" := Binary("00000011")]
  const PayloadValues := map["len" := Num(3), "payload" := Str([0x61, 0x62, 0x63])]

  lemma CleanPacketPass(mode: Mode)
    ensures Dissection(mode, CounterSchema, [0x00, 0x05, 0x07])
      == Outcome(Accum(3, false, [], CleanValues, map["seq" := 5, "flags" := 7]), Done)
  {
    var buf: seq<Byte> := [0x00, 0x05, 0x07];
    assert Dissection(mode, CounterSchema, buf) == Run(mode, [SeqField, FlagsField], buf, Init);
    RunTwo(mode, SeqField, FlagsField, buf, Init);
    CounterStep(mode, buf);
    CleanFlagsStep(mode, buf);
  }

  lemma CleanFlagsStep(mode: Mode, buf: seq<Byte>)
    requires buf == [0x00, 0x05, 0x07]
    ensures Step(mode, FlagsField, buf, Accum(2, false, [], map["seq" := Num(5)], map["seq" := 5]))
      == Outcome(Accum(3, false, [], CleanValues, map["seq" := 5, "flags" := 7]), Done)
  {
    var a1 := Accum(2, false, [], map["seq" := Num(5)], map["seq" := 5]);
    Seven();
    FlagsStep(mode, buf, a1, 3, "00000111");
    assert a1.values["flags" := Binary("00000111")] == CleanValues;
  }

  lemma CleanParts(floatText: seq<Byte> -> string)
    ensures PartSet(CleanValues, floatText) == {"flags=00000111", "seq=5"}
  {
    PartSetTwo("seq", Num(5), "flags", Binary("00000111"), floatText);
    assert Part("seq", Num(5), floatText) == "seq=5" by {
      NumPart("seq", 5, "5", floatText);
      assert "seq" + "=" + "5" == "seq=5";
    }
    assert Part("flags", Binary("00000111"), floatText) == "flags=00000111" by {
      assert "flags" + "=" + "00000111" == "flags=00000111";
    }
  }

  lemma CleanSummary(floatText: seq<Byte> -> string)
    ensures Summary(CleanValues, floatText) == "flags=00000111, seq=5"
  {
    CleanParts(floatText);
    FlagsBeforeSeq("flags=00000111");
    SummaryOfTwo(CleanValues, floatText, "flags=00000111", "seq=5");
    CleanText();
  }

  /** Every `flags=` part sorts before the `seq=` part. */
  lemma FlagsBeforeSeq(p: string)
    requires |p| > 0 && p[0] == 'f'
    ensures Less(p, "seq=5")
  {
  }

  lemma CleanText()
    ensures "flags=00000111" + ", " + "seq=5" == "flags=00000111, seq=5"
  {
    var r := "flags=00000111, seq=5";
    assert r[..14] == "flags=00000111" && r[14..16] == ", " && r[16..] == "seq=5";
    assert r == r[..14] + r[14..16] + r[16..];
  }

  /** Three ones as expected: no message, the summary in byte order. */
  lemma CleanPacket(floatText: seq<Byte> -> string)
    ensures var o := Dissection(PerEndpoint, CounterSchema, [0x00, 0x05, 0x07]);
      o.status == Done && o.acc.errors == [] && !o.acc.dpiError && o.acc.offset == 3
      && o.acc.values == map["seq" := Num(5), "flags" := Binary("00000111")]
      && InfoColumn(PerEndpoint, o, floatText) == Some("flags=00000111, seq=5")
  {
    CleanPacketPass(PerEndpoint);
    CleanSummary(floatText);
  }

  lemma MismatchPass(mode: Mode)
    ensures Dissection(mode, CounterSchema, [0x00, 0x05, 0x03])
      == Outcome(Accum(3, mode == PerEndpoint,
                       if mode == PerEndpoint then [BitCountMsg("flags", Some(3), 2)] else [],
                       MismatchValues, map["seq" := 5, "flags" := 3]), Done)
  {
    var buf: seq<Byte> := [0x00, 0x05, 0x03];
    assert Dissection(mode, CounterSchema, buf) == Run(mode, [SeqField, FlagsField], buf, Init);
    RunTwo(mode, SeqField, FlagsField, buf, Init);
    CounterStep(mode, buf);
    MismatchFlagsStep(mode, buf);
  }

  lemma MismatchFlagsStep(mode: Mode, buf: seq<Byte>)
    requires buf == [0x00, 0x05, 0x03]
    ensures Step(mode, FlagsField, buf, Accum(2, false, [], map["seq" := Num(5)], map["seq" := 5]))
      == Outcome(Accum(3, mode == PerEndpoint, if mode == PerEndpoint then [BitCountMsg("flags", Some(3), 2)] else [], MismatchValues, map["seq" := 5, "flags" := 3]), Done)
  {
    var a1 := Accum(2, false, [], map["seq" := Num(5)], map["seq" := 5]);
    Three();
    FlagsStep(mode, buf, a1, 2, "00000011");
    assert a1.values["flags" := Binary("00000011")] == MismatchValues;
  }

  lemma MismatchMessage()
    ensures BitCountMsg("flags", Some(3), 2) == "Bitfield flags expected 3 bits set, got 2"
  {
    Digits();
    assert "Bitfield " + "flags" + " expected " + "3" + " bits set, got " + "2"
      == "Bitfield flags expected 3 bits set, got 2";
  }

  lemma Digits()
    ensures NatToString(2) == "2" && IntToString(3) == "3"
  {
    assert NatToString(3) == "3";
  }

  /** Two ones where three are expected: the Info column is the error report. */
  lemma BitCountMismatch(floatText: seq<Byte> -> string)
    ensures var o := Dissection(PerEndpoint, CounterSchema, [0x00, 0x05, 0x03]);
      o.status == Done && o.acc.errors == ["Bitfield flags expected 3 bits set, got 2"]
      && InfoColumn(PerEndpoint, o, floatText) == Some("[DPI Error: " + "Bitfield flags expected 3 bits set, got 2" + "]")
  {
    MismatchPass(PerEndpoint);
    MismatchMessage();
    var msg := "Bitfield flags expected 3 bits set, got 2";
    assert Join([msg], "; ") == msg;
  }

  lemma MismatchParts(floatText: seq<Byte> -> string)
    ensures PartSet(MismatchValues, floatText) == {"flags=00000011", "seq=5"}
  {
    PartSetTwo("seq", Num(5), "flags", Binary("00000011"), floatText);
    assert Part("seq", Num(5), floatText) == "seq=5" by {
      NumPart("seq", 5, "5", floatText);
      assert "seq" + "=" + "5" == "seq=5";
    }
    assert Part("flags", Binary("00000011"), floatText) == "flags=00000011" by {
      assert "flags" + "=" + "00000011" == "flags=00000011";
    }
  }

  lemma MismatchSummary(floatText: seq<Byte> -> string)
    ensures "Static: " + Summary(MismatchValues, floatText) == "Static: flags=00000011, seq=5"
  {
    MismatchParts(floatText);
    FlagsBeforeSeq("flags=00000011");
    SummaryOfTwo(MismatchValues, floatText, "flags=00000011", "seq=5");
    StaticText();
  }

  /** The same packet in the static dissector: no message, the summary. */
  lemma BitCountMismatchStatic(floatText: seq<Byte> -> string)
    ensures var o := Dissection(Static, CounterSchema, [0x00, 0x05, 0x03]);
      o.status == Done && o.acc.errors == []
      && InfoColumn(Static, o, floatText) == Some("Static: flags=00000011, seq=5")
  {
    MismatchPass(Static);
    MismatchSummary(floatText);
  }

  /** A fixed field cut short: the dissector returns with nothing recorded
      and the Info column is not written. */
  lemma TruncatedCounter(floatText: seq<Byte> -> string)
    ensures var o := Dissection(PerEndpoint, CounterSchema, [0x00]);
      o.status == Returned && o.acc == Init && InfoColumn(PerEndpoint, o, floatText) == None
  {
    RunTwo(PerEndpoint, SeqField, FlagsField, [0x00], Init);
  }

  /** A bitfield cut short: the message is recorded, then the dissector returns. */
  lemma TruncatedFlags(floatText: seq<Byte> -> string)
    ensures var o := Dissection(PerEndpoint, CounterSchema, [0x00, 0x05]);
      o.status == Returned && o.acc.errors == ["Not enough bytes for flags"] && o.acc.dpiError
      && o.acc.offset == 2 && InfoColumn(PerEndpoint, o, floatText) == None
  {
    var buf: seq<Byte> := [0x00, 0x05];
    RunTwo(PerEndpoint, SeqField, FlagsField, buf, Init);
    CounterStep(PerEndpoint, buf);
    var a := Accum(2, false, [], map["seq" := Num(5)], map["seq" := 5]);
    assert Step(PerEndpoint, FlagsField, buf, a) == Outcome(Record(a, NotEnoughMsg("flags")), Returned);
    assert NotEnoughMsg("flags") == "Not enough bytes for flags";
  }

  /** The first byte read as the 1-byte `len` field. */
  lemma LengthStep(mode: Mode, buf: seq<Byte>)
    requires |buf| >= 1
    ensures Step(mode, LenField, buf, Init) ==
      Outcome(Accum(1, false, [], map["len" := Num(buf[0])], map["len" := buf[0]]), Done)
  {
    assert buf[0..1] == [buf[0]];
    BigEndianTwo(buf[0], 0);
  }

  lemma PayloadPass()
    ensures Dissection(PerEndpoint, PayloadSchema, [0x03, 0x61, 0x62, 0x63])
      == Outcome(Accum(4, false, [], PayloadValues, map["len" := 3]), Done)
  {
    var buf: seq<Byte> := [0x03, 0x61, 0x62, 0x63];
    RunTwo(PerEndpoint, LenField, PayloadField, buf, Init);
    LengthStep(PerEndpoint, buf);
    var a := Accum(1, false, [], map["len" := Num(3)], map["len" := 3]);
    var bytes: seq<Byte> := [0x61, 0x62, 0x63];
    assert buf[1..4] == bytes;
    assert Step(PerEndpoint, PayloadField, buf, a) == Outcome(Store(a, PayloadField, bytes), Done);
  }

  lemma PayloadParts(floatText: seq<Byte> -> string)
    ensures PartSet(PayloadValues, floatText) == {"len=3", "payload=abc"}
  {
    var bytes: seq<Byte> := [0x61, 0x62, 0x63];
    PartSetTwo("len", Num(3), "payload", Str(bytes), floatText);
    assert Part("len", Num(3), floatText) == "len=3" by {
      NumPart("len", 3, "3", floatText);
      assert "len" + "=" + "3" == "len=3";
    }
    assert Part("payload", Str(bytes), floatText) == "payload=abc" by {
      assert BytesText(bytes) == "abc";
      assert "payload" + "=" + "abc" == "payload=abc";
    }
  }

  lemma PayloadSummary(floatText: seq<Byte> -> string)
    ensures Summary(PayloadValues, floatText) == "len=3, payload=abc"
  {
    PayloadParts(floatText);
    PayloadOrder();
    SummaryOfTwo(PayloadValues, floatText, "len=3", "payload=abc");
  }

  lemma PayloadOrder()
    ensures Less("len=3", "payload=abc")
    ensures "len=3" + ", " + "payload=abc" == "len=3, payload=abc"
  {
    assert "len=3"[0] < "payload=abc"[0];
  }

  /** A payload whose length comes from the preceding field. */
  lemma DynamicPayload(floatText: seq<Byte> -> string)
    ensures var o := Dissection(PerEndpoint, PayloadSchema, [0x03, 0x61, 0x62, 0x63]);
      o.status == Done && o.acc.errors == [] && o.acc.offset == 4
      && o.acc.values == map["len" := Num(3), "payload" := Str([0x61, 0x62, 0x63])]
      && InfoColumn(PerEndpoint, o, floatText) == Some("len=3, payload=abc")
  {
    PayloadPass();
    PayloadSummary(floatText);
  }

  lemma OverlongPass()
    ensures Dissection(PerEndpoint, PayloadSchema, [0x0B, 0x61]).status == Returned
    ensures Dissection(PerEndpoint, PayloadSchema, [0x0B, 0x61]).acc.errors
      == [LengthMsg("payload"), NotEnoughMsg("payload")]
  {
    var buf: seq<Byte> := [0x0B, 0x61];
    RunTwo(PerEndpoint, LenField, PayloadField, buf, Init);
    LengthStep(PerEndpoint, buf);
    var a := Accum(1, false, [], map["len" := Num(11)], map["len" := 11]);
    assert Step(PerEndpoint, PayloadField, buf, a)
      == Outcome(Record(Record(a, LengthMsg("payload")), NotEnoughMsg("payload")), Returned);
  }

  /** A length above max_size is reported but the bytes would still be
      decoded; here the buffer is then too short, so both messages are
      recorded before the dissector returns. */
  lemma OverlongPayload(floatText: seq<Byte> -> string)
    ensures var o := Dissection(PerEndpoint, PayloadSchema, [0x0B, 0x61]);
      o.status == Returned
      && o.acc.errors == ["payload length out of range", "Not enough bytes for payload"]
      && InfoColumn(PerEndpoint, o, floatText) == None
  {
    OverlongPass();
    PayloadMessages();
  }

  lemma PayloadMessages()
    ensures [LengthMsg("payload"), NotEnoughMsg("payload")]
      == ["payload length out of range", "Not enough bytes for payload"]
  {
    assert LengthMsg("payload") == "payload length out of range";
    assert NotEnoughMsg("payload") == "Not enough bytes for payload";
  }

  lemma BinaryA5()
    ensures BinaryString(0xA5, 8) == "10100101" && PopCount(0xA5) == 4
  {
    assert BinaryString(0, 0) == "";
    assert BinaryString(1, 1) == "1";
    assert BinaryString(2, 2) == "10";
    assert BinaryString(5, 3) == "101";
    assert BinaryString(10, 4) == "1010";
    assert BinaryString(20, 5) == "10100";
    assert BinaryString(41, 6) == "101001";
    assert BinaryString(82, 7) == "1010010";
    assert PopCount(5) == 2 && PopCount(20) == 2 && PopCount(82) == 3;
  }

  /** A bitfield of one byte rendered as its binary string counts its ones. */
  lemma BinaryOfFlags()
    ensures BinaryString(0xA5, 8) == "10100101"
    ensures Ones(BinaryString(0xA5, 8)) == PopCount(0xA5) == 4
    ensures FromBinary(BinaryString(0xA5, 8)) == 0xA5
  {
    BinaryA5();
    assert Pow2(8) == 256;
    BinaryOnes(0xA5, 8);
    BinaryRoundTrip(0xA5, 8);
  }

  /** The registration list of a schema with a decomposed field. */
  lemma RegistrationExample()
    ensures Registrations([FieldSpec("word", Int, 2, 0, false, "", None, None, Some(2)), FlagsField])
      == ["f_word", "f_word_bf0", "f_word_bf1", "f_flags"]
  {
    var w := FieldSpec("word", Int, 2, 0, false, "", None, None, Some(2));
    assert [w, FlagsField][..1] == [w];
    assert [w][..0] == [];
    assert SubfieldName("word", 0) == "word_bf0" by { assert NatToString(0) == "0"; }
    assert SubfieldName("word", 1) == "word_bf1" by { assert NatToString(1) == "1"; }
    assert "f_" + "word_bf0" == "f_word_bf0" && "f_" + "word_bf1" == "f_word_bf1";
    assert "f_" + "word" == "f_word" && "f_" + "flags" == "f_flags";
    var subs := SubfieldEntries("word", 2);
    assert subs[0] == "f_word_bf0" && subs[1] == "f_word_bf1";
    assert subs == ["f_word_bf0", "f_word_bf1"];
    assert SubfieldEntries("flags", 0) == [];
    assert SubfieldCount(w) == 2;
    assert Entries(w) == ["f_word"] + subs;
    assert Registrations([w]) == Entries(w);
  }
}
