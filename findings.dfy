/** The dynamic-field branch of the static dissector as the generator emits
    it. That dissector declares only `offset` and `field_values`, yet this
    branch appends to `error_messages`, which is nil there, both when the
    length is out of range and when the buffer is short. `table.insert` on
    nil raises, so the branch raises where the rest of the static dissector
    only annotates the tree or returns. The decoder's `DynamicStep` in
    `Static` mode is the evidently intended branch. */
module Findings {
  import opened Bits
  import opened Schema
  import opened Decoder

  /** The branch as emitted: either `table.insert` raises; otherwise the
      field is read as in every other dissector. */
  function StaticDynamicStepAsWritten(f: FieldSpec, buf: seq<Byte>, a: Accum): Outcome
  {
    if f.sizeField !in a.locals then Outcome(a, Raised)
    else
      var len := a.locals[f.sizeField];
      if len < f.minSize || len > f.maxSize then Outcome(a, Raised)
      else if |buf| < a.offset + len then Outcome(a, Raised)
      else Outcome(Store(a, f, buf[a.offset..a.offset + len]), Done)
  }

  /** As emitted, a known length raises exactly when it is out of range or
      the buffer is short, and otherwise the field is stored. */
  lemma StaticDynamicAsWrittenRaises(f: FieldSpec, buf: seq<Byte>, a: Accum)
    requires f.sizeField in a.locals
    ensures var len := a.locals[f.sizeField];
      var o := StaticDynamicStepAsWritten(f, buf, a);
      (o.status == Raised <==> len < f.minSize || len > f.maxSize || |buf| < a.offset + len)
      && (o.status != Raised ==> o == Outcome(Store(a, f, buf[a.offset..a.offset + len]), Done))
  {
  }

  /** The intended branch never raises on a known length, records no
      message, returns exactly on a short buffer, and agrees with the
      emitted branch wherever that one does not raise. */
  lemma StaticDynamicIntended(f: FieldSpec, buf: seq<Byte>, a: Accum)
    requires f.sizeField in a.locals
    ensures var len := a.locals[f.sizeField];
      var o := DynamicStep(Static, f, buf, a);
      o.status != Raised
      && o.acc.errors == a.errors && o.acc.dpiError == a.dpiError
      && (o.status == Done <==> a.offset + len <= |buf|)
      && (o.status == Returned ==> o.acc == a)
      && (StaticDynamicStepAsWritten(f, buf, a).status != Raised ==> StaticDynamicStepAsWritten(f, buf, a) == o)
  {
  }

  /** A length byte of 11 ahead of eleven payload bytes, against a payload
      limited to 10 bytes: the emitted branch raises, the intended one
      stores the payload. */
  lemma OverlongPayloadRaises(buf: seq<Byte>)
    requires |buf| == 12
    ensures var f := FieldSpec("payload", Char, 1, 10, true, "len", None, None, None);
      var a := Accum(1, false, [], map["len" := Num(11)], map["len" := 11]);
      StaticDynamicStepAsWritten(f, buf, a).status == Raised
      && DynamicStep(Static, f, buf, a) == Outcome(Store(a, f, buf[1..12]), Done)
  {
    var a := Accum(1, false, [], map["len" := Num(11)], map["len" := 11]);
    assert a.locals["len"] == 11;
  }

  /** A length byte of 3 with only two payload bytes: the emitted branch
      raises, the intended one returns without touching the accumulators. */
  lemma ShortPayloadRaises(buf: seq<Byte>)
    requires |buf| == 3
    ensures var f := FieldSpec("payload", Char, 1, 10, true, "len", None, None, None);
      var a := Accum(1, false, [], map["len" := Num(3)], map["len" := 3]);
      StaticDynamicStepAsWritten(f, buf, a).status == Raised
      && DynamicStep(Static, f, buf, a) == Outcome(a, Returned)
  {
    var a := Accum(1, false, [], map["len" := Num(3)], map["len" := 3]);
    assert a.locals["len"] == 3;
  }
}
