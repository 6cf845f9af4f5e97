/** The decode pass every generated dissector runs over its buffer: an
    `offset` cursor from 0, the `dpi_error` flag, the `error_messages` list,
    the `parsed_values` table (`field_values` in the static dissector) and
    the Lua locals that hold each integer field's value. Fields are taken in
    declaration order; a short buffer makes the dissector `return`, and a
    size field that holds no integer makes the Lua code raise. */
module Decoder {
  import opened Arith
  import opened Text
  import opened Bits
  import opened Schema

  /** What `parsed_values` holds: a number, the string read by
      `TvbRange:string()`, the bytes of an IEEE float (decoded by the host),
      or a bitfield's binary string. */
  datatype Value = Num(n: nat) | Str(bytes: seq<Byte>) | Ieee(raw: seq<Byte>) | Binary(digits: string)

  /** The dissector's accumulators. `locals` holds the Lua local of every
      decoded integer or bitfield field, which later dynamic fields read. */
  datatype Accum = Accum(
    offset: nat,
    dpiError: bool,
    errors: seq<string>,
    values: map<string, Value>,
    locals: map<string, nat>)

  const Init := Accum(0, false, [], map[], map[])

  /** Done: the pass goes on (or finished); Returned: the dissector executed
      `return`; Raised: the Lua code raised an error. */
  datatype Status = Done | Returned | Raised

  datatype Outcome = Outcome(acc: Accum, status: Status)

  function NotEnoughMsg(name: string): string { "Not enough bytes for " + name }
  function RangeMsg(name: string): string { name + " out of range" }
  function LengthMsg(name: string): string { name + " length out of range" }

  /** The expected count is formatted by Python into the Lua text, so a null
      count reads `None`. */
  function BitCountMsg(name: string, expected: Option<int>, got: nat): (m: string)
    ensures expected == None ==> m == "Bitfield " + name + " expected None bits set, got " + NatToString(got)
  {
    "Bitfield " + name + " expected "
      + (match expected case None => "None" case Some(c) => IntToString(c))
      + " bits set, got " + NatToString(got)
  }

  /** `dpi_error = true` together with `table.insert(error_messages, msg)`. */
  function Record(a: Accum, msg: string): Accum
  {
    a.(dpiError := true, errors := a.errors + [msg])
  }

  function ExtractValue(f: FieldSpec, bytes: seq<Byte>): Value
  {
    match ExtractorFor(f)
    case ReadUInt => Num(BigEndian(bytes))
    case ReadUInt64 => Num(BigEndian(bytes))
    case ReadFloat => Ieee(bytes)
    case ReadDouble => Ieee(bytes)
    case ReadString => Str(bytes)
  }

  /** The per-endpoint range test: int, bool and long fields whose schema
      gives both bounds, compared inclusively. */
  predicate OutOfRange(f: FieldSpec, v: Value)
    ensures OutOfRange(f, v) ==> IsIntegerType(f.fieldType) && f.minValue.Some? && f.maxValue.Some?
    ensures f.fieldType == Float || f.fieldType == Double || f.fieldType == Char ==> !OutOfRange(f, v)
  {
    IsIntegerType(f.fieldType) && f.minValue.Some? && f.maxValue.Some? && v.Num?
      && (v.n < f.minValue.value || v.n > f.maxValue.value)
  }

  /** `parsed_values[name_bf i] = group i` for i = 0 .. k-1, in that order. */
  function Decomposed(m: map<string, Value>, name: string, v: nat, width: nat, count: nat, k: nat): (r: map<string, Value>)
    requires k <= count
    ensures m.Keys <= r.Keys
    ensures forall i :: 0 <= i < k ==> SubfieldName(name, i) in r
    decreases k
  {
    if k == 0 then m
    else Decomposed(m, name, v, width, count, k - 1)[SubfieldName(name, k - 1) := Num(GroupAt(v, width, count, k - 1))]
  }

  /** The sub-field entries of a non-bitfield field of `bits` bits. The group
      width is `bits / count` rounded down. */
  function WithSubfields(m: map<string, Value>, f: FieldSpec, v: nat, bits: nat): (r: map<string, Value>)
    ensures m.Keys <= r.Keys
    ensures forall i :: 0 <= i < SubfieldCount(f) ==> SubfieldName(f.name, i) in r
  {
    var count := SubfieldCount(f);
    if count == 0 then m else Decomposed(m, f.name, v, Quot(bits, count), count, count)
  }

  /** The stores after a successful read of a fixed or dynamic field: the
      value, the sub-field entries, the integer local and the new cursor. */
  function Store(a: Accum, f: FieldSpec, bytes: seq<Byte>): Accum
  {
    a.(offset := a.offset + |bytes|,
       values := WithSubfields(a.values[f.name := ExtractValue(f, bytes)], f, BigEndian(bytes), |bytes| * 8),
       locals := if IsIntegerType(f.fieldType) then a.locals[f.name := BigEndian(bytes)] else a.locals)
  }

  /** A bitfield: `min_size` bytes, even when the field is marked dynamic. */
  function BitfieldStep(mode: Mode, f: FieldSpec, buf: seq<Byte>, a: Accum): (o: Outcome)
    ensures o.status != Raised
    ensures o.status == Done <==> a.offset + f.minSize <= |buf|
    ensures o.status == Done ==> o.acc.offset == a.offset + f.minSize && f.name in o.acc.values
    ensures o.status == Returned ==> o.acc.offset == a.offset && o.acc.values == a.values
    ensures a.errors <= o.acc.errors && |o.acc.errors| <= |a.errors| + 1
    ensures mode == Static ==> o.acc.errors == a.errors && o.acc.dpiError == a.dpiError
  {
    var len := f.minSize;
    if |buf| < a.offset + len then
      Outcome(if mode == PerEndpoint then Record(a, NotEnoughMsg(f.name)) else a, Returned)
    else
      var v := BigEndian(buf[a.offset..a.offset + len]);
      var pc := PopCount(v);
      var a1 := if mode == PerEndpoint && f.bitfieldsCount != Some(pc)
                then Record(a, BitCountMsg(f.name, f.bitfieldsCount, pc)) else a;
      Outcome(a1.(offset := a.offset + len,
                  values := a.values[f.name := Binary(BinaryString(v, len * 8))],
                  locals := a.locals[f.name := v]), Done)
  }

  /** A fixed field: a short buffer returns without a message. */
  function FixedStep(mode: Mode, f: FieldSpec, buf: seq<Byte>, a: Accum): (o: Outcome)
    ensures o.status != Raised
    ensures o.status == Done <==> a.offset + f.minSize <= |buf|
    ensures o.status == Done ==> o.acc.offset == a.offset + f.minSize && f.name in o.acc.values
    ensures o.status == Returned ==> o.acc == a
    ensures a.errors <= o.acc.errors && |o.acc.errors| <= |a.errors| + 1
    ensures mode == Static ==> o.acc.errors == a.errors && o.acc.dpiError == a.dpiError
  {
    var len := f.minSize;
    if |buf| < a.offset + len then Outcome(a, Returned)
    else
      var bytes := buf[a.offset..a.offset + len];
      var a1 := if mode == PerEndpoint && OutOfRange(f, ExtractValue(f, bytes)) then Record(a, RangeMsg(f.name)) else a;
      Outcome(Store(a1, f, bytes), Done)
  }

  /** A dynamic field: its length is its size field's local; reading a size
      field that holds no integer raises. */
  function DynamicStep(mode: Mode, f: FieldSpec, buf: seq<Byte>, a: Accum): (o: Outcome)
    ensures o.status == Raised <==> f.sizeField !in a.locals
    ensures o.status == Raised ==> o.acc == a
    ensures o.status == Done <==> f.sizeField in a.locals && a.offset + a.locals[f.sizeField] <= |buf|
    ensures o.status == Done ==> o.acc.offset == a.offset + a.locals[f.sizeField] && f.name in o.acc.values
    ensures o.status == Returned ==> o.acc.offset == a.offset && o.acc.values == a.values
    ensures a.errors <= o.acc.errors && |o.acc.errors| <= |a.errors| + 2
    ensures mode == Static ==> o.acc.errors == a.errors && o.acc.dpiError == a.dpiError
  {
    if f.sizeField !in a.locals then Outcome(a, Raised)
    else
      var len := a.locals[f.sizeField];
      var a1 := if mode == PerEndpoint && (len < f.minSize || len > f.maxSize) then Record(a, LengthMsg(f.name)) else a;
      if |buf| < a.offset + len then
        Outcome(if mode == PerEndpoint then Record(a1, NotEnoughMsg(f.name)) else a1, Returned)
      else
        Outcome(Store(a1, f, buf[a.offset..a.offset + len]), Done)
  }

  /** Processing one field: the body the generator emits for it. */
  function Step(mode: Mode, f: FieldSpec, buf: seq<Byte>, a: Accum): (o: Outcome)
    ensures a.offset <= o.acc.offset
    ensures o.status == Done ==> o.acc.offset <= |buf|
    ensures o.status != Done ==> o.acc.offset == a.offset
    ensures a.errors <= o.acc.errors
    ensures mode == Static ==> o.acc.errors == a.errors && o.acc.dpiError == a.dpiError
  {
    if f.fieldType == Bitfield then BitfieldStep(mode, f, buf, a)
    else if !f.isDynamic then FixedStep(mode, f, buf, a)
    else DynamicStep(mode, f, buf, a)
  }

  /** The fields in order, stopping at the first that does not finish. */
  function Run(mode: Mode, fields: seq<FieldSpec>, buf: seq<Byte>, a: Accum): (o: Outcome)
    ensures a.offset <= o.acc.offset
    ensures a.offset <= |buf| ==> o.acc.offset <= |buf|
    ensures a.errors <= o.acc.errors
    ensures mode == Static ==> o.acc.errors == a.errors && o.acc.dpiError == a.dpiError
    decreases |fields|
  {
    if fields == [] then Outcome(a, Done)
    else
      var o := Step(mode, fields[0], buf, a);
      if o.status != Done then o else Run(mode, fields[1..], buf, o.acc)
  }

  /** A whole dissector call: an empty buffer returns before any field. */
  function Dissection(mode: Mode, fields: seq<FieldSpec>, buf: seq<Byte>): (o: Outcome)
    ensures o.acc.offset <= |buf|
    ensures o.status == Done ==> |buf| > 0
    ensures mode == Static ==> o.acc.errors == [] && !o.acc.dpiError
  {
    if |buf| == 0 then Outcome(Init, Returned) else Run(mode, fields, buf, Init)
  }

  // ---------------------------------------------------------------------
  // The emitted code, statement by statement.

  /** The decomposition loop: `bits_per_field`, then for each i the shift,
      the mask `(1 << bits_per_field) - 1` and the store of `name_bf i`. */
  method Decompose(values: map<string, Value>, name: string, v: nat, bits: nat, count: nat)
    returns (r: map<string, Value>)
    requires count > 0
    ensures r == Decomposed(values, name, v, Quot(bits, count), count, count)
  {
    var bitsPerField := Quot(bits, count);
    r := values;
    for i := 0 to count
      invariant r == Decomposed(values, name, v, bitsPerField, count, i)
    {
      var k: nat := count - 1 - i;
      var shift := k * bitsPerField;
      var mask := Pow2(bitsPerField) - 1;
      var bfValue := Shr(v, shift) % (mask + 1);
      assert bfValue == GroupAt(v, bitsPerField, count, i);
      r := r[SubfieldName(name, i) := Num(bfValue)];
    }
  }

  /** The code emitted for a bitfield. */
  method DecodeBitfield(mode: Mode, f: FieldSpec, buffer: seq<Byte>, a: Accum) returns (o: Outcome)
    requires f.fieldType == Bitfield
    ensures o == BitfieldStep(mode, f, buffer, a)
  {
    var offset, dpiError, errors := a.offset, a.dpiError, a.errors;
    if |buffer| < offset + f.minSize {
      if mode == PerEndpoint {
        dpiError := true;
        errors := errors + [NotEnoughMsg(f.name)];
      }
      return Outcome(a.(dpiError := dpiError, errors := errors), Returned);
    }
    var v := BigEndian(buffer[offset..offset + f.minSize]);
    var numBits := f.minSize * 8;
    var actualBitCount := Popcount(v);
    if mode == PerEndpoint && f.bitfieldsCount != Some(actualBitCount) {
      dpiError := true;
      errors := errors + [BitCountMsg(f.name, f.bitfieldsCount, actualBitCount)];
    }
    var binaryStr := ToBinaryStr(v, numBits);
    var values := a.values[f.name := Binary(binaryStr)];
    var locals := a.locals[f.name := v];
    offset := offset + f.minSize;
    o := Outcome(Accum(offset, dpiError, errors, values, locals), Done);
  }

  /** The stores shared by fixed and dynamic fields, once the bytes have
      been read: local, value, cursor, then the decomposition loop. */
  method StoreField(a: Accum, f: FieldSpec, bytes: seq<Byte>) returns (b: Accum)
    ensures b == Store(a, f, bytes)
  {
    var val := ExtractValue(f, bytes);
    var locals := a.locals;
    if IsIntegerType(f.fieldType) {
      locals := locals[f.name := BigEndian(bytes)];
    }
    var values := a.values[f.name := val];
    var count := SubfieldCount(f);
    if count > 0 {
      values := Decompose(values, f.name, BigEndian(bytes), |bytes| * 8, count);
    }
    b := a.(offset := a.offset + |bytes|, values := values, locals := locals);
  }

  /** The code emitted for a fixed field. */
  method DecodeFixed(mode: Mode, f: FieldSpec, buffer: seq<Byte>, a: Accum) returns (o: Outcome)
    requires f.fieldType != Bitfield && !f.isDynamic
    ensures o == FixedStep(mode, f, buffer, a)
  {
    if |buffer| < a.offset + f.minSize {
      return Outcome(a, Returned);
    }
    var bytes := buffer[a.offset..a.offset + f.minSize];
    var acc := a;
    if mode == PerEndpoint && OutOfRange(f, ExtractValue(f, bytes)) {
      acc := acc.(dpiError := true, errors := acc.errors + [RangeMsg(f.name)]);
    }
    acc := StoreField(acc, f, bytes);
    o := Outcome(acc, Done);
  }

  /** The code emitted for a dynamic field. */
  method DecodeDynamic(mode: Mode, f: FieldSpec, buffer: seq<Byte>, a: Accum) returns (o: Outcome)
    requires f.fieldType != Bitfield && f.isDynamic
    ensures o == DynamicStep(mode, f, buffer, a)
  {
    if f.sizeField !in a.locals {
      return Outcome(a, Raised);
    }
    var dynamicLength := a.locals[f.sizeField];
    var acc := a;
    if mode == PerEndpoint && (dynamicLength < f.minSize || dynamicLength > f.maxSize) {
      acc := acc.(dpiError := true, errors := acc.errors + [LengthMsg(f.name)]);
    }
    if |buffer| < a.offset + dynamicLength {
      if mode == PerEndpoint {
        acc := acc.(dpiError := true, errors := acc.errors + [NotEnoughMsg(f.name)]);
      }
      return Outcome(acc, Returned);
    }
    acc := StoreField(acc, f, buffer[a.offset..a.offset + dynamicLength]);
    o := Outcome(acc, Done);
  }

  /** The code emitted for one field, chosen by its kind. */
  method DecodeField(mode: Mode, f: FieldSpec, buffer: seq<Byte>, a: Accum) returns (o: Outcome)
    ensures o == Step(mode, f, buffer, a)
  {
    if f.fieldType == Bitfield {
      o := DecodeBitfield(mode, f, buffer, a);
    } else if !f.isDynamic {
      o := DecodeFixed(mode, f, buffer, a);
    } else {
      o := DecodeDynamic(mode, f, buffer, a);
    }
  }

  /** The dissector body: the empty-buffer return, then every field. */
  method Decode(mode: Mode, fields: seq<FieldSpec>, buffer: seq<Byte>) returns (o: Outcome)
    ensures o == Dissection(mode, fields, buffer)
  {
    if |buffer| == 0 {
      return Outcome(Init, Returned);
    }
    var acc := Init;
    var i := 0;
    while i < |fields|
      invariant 0 <= i <= |fields|
      invariant Run(mode, fields, buffer, Init) == Run(mode, fields[i..], buffer, acc)
    {
      assert fields[i..][0] == fields[i] && fields[i..][1..] == fields[i + 1..];
      var step := DecodeField(mode, fields[i], buffer, acc);
      if step.status != Done {
        return step;
      }
      acc := step.acc;
      i := i + 1;
    }
    o := Outcome(acc, Done);
  }

  // ---------------------------------------------------------------------
  // Properties of the pass.

  /** The field's length can be resolved: its size field holds an integer. */
  predicate LengthKnown(f: FieldSpec, a: Accum)
  {
    f.fieldType == Bitfield || !f.isDynamic || f.sizeField in a.locals
  }

  /** Bytes the field occupies: its declared size, or for a dynamic
      non-bitfield field the value of its size field. */
  function FieldLength(f: FieldSpec, a: Accum): nat
    requires LengthKnown(f, a)
  {
    if f.fieldType == Bitfield || !f.isDynamic then f.minSize else a.locals[f.sizeField]
  }

  function FieldBytes(f: FieldSpec, buf: seq<Byte>, a: Accum): seq<Byte>
    requires LengthKnown(f, a) && a.offset + FieldLength(f, a) <= |buf|
  {
    buf[a.offset..a.offset + FieldLength(f, a)]
  }

  /** A field raises exactly when its length cannot be resolved; otherwise
      it finishes exactly when the buffer holds its bytes, and then the
      cursor advances by its length. A field that does not finish leaves the
      cursor, the values and the locals as they were. */
  lemma StepCursor(mode: Mode, f: FieldSpec, buf: seq<Byte>, a: Accum)
    ensures Step(mode, f, buf, a).status == Raised <==> !LengthKnown(f, a)
    ensures LengthKnown(f, a) ==>
      (Step(mode, f, buf, a).status == Done <==> a.offset + FieldLength(f, a) <= |buf|)
    ensures Step(mode, f, buf, a).status == Done ==>
      Step(mode, f, buf, a).acc.offset == a.offset + FieldLength(f, a)
    ensures Step(mode, f, buf, a).status != Done ==>
      var b := Step(mode, f, buf, a).acc;
      b.offset == a.offset && b.values == a.values && b.locals == a.locals
  {
  }

  /** The cursor never moves back and never passes the end of the buffer. */
  lemma {:induction false} RunCursor(mode: Mode, fields: seq<FieldSpec>, buf: seq<Byte>, a: Accum)
    requires a.offset <= |buf|
    ensures a.offset <= Run(mode, fields, buf, a).acc.offset <= |buf|
    decreases |fields|
  {
    if fields != [] {
      var o := Step(mode, fields[0], buf, a);
      StepCursor(mode, fields[0], buf, a);
      if o.status == Done {
        RunCursor(mode, fields[1..], buf, o.acc);
      }
    }
  }

  /** Decoding a concatenation is decoding the first part and, only if it
      finished, going on with the second: no field after a `return` or an
      error is looked at. */
  lemma {:induction false} RunAppend(mode: Mode, xs: seq<FieldSpec>, ys: seq<FieldSpec>, buf: seq<Byte>, a: Accum)
    ensures Run(mode, xs + ys, buf, a) ==
      var o := Run(mode, xs, buf, a);
      if o.status != Done then o else Run(mode, ys, buf, o.acc)
    decreases |xs|
  {
    if xs != [] {
      assert (xs + ys)[0] == xs[0] && (xs + ys)[1..] == xs[1..] + ys;
      var o := Step(mode, xs[0], buf, a);
      if o.status == Done {
        RunAppend(mode, xs[1..], ys, buf, o.acc);
      }
    } else {
      assert xs + ys == ys;
    }
  }

  /** `dpi_error` is set exactly when some message has been recorded. */
  predicate FlagConsistent(a: Accum)
  {
    a.dpiError <==> a.errors != []
  }

  /** Messages are only ever appended; the static dissector appends none. */
  lemma StepErrors(mode: Mode, f: FieldSpec, buf: seq<Byte>, a: Accum)
    ensures var b := Step(mode, f, buf, a).acc;
      |a.errors| <= |b.errors| && b.errors[..|a.errors|] == a.errors
      && (|b.errors| > |a.errors| ==> b.dpiError)
      && (!a.dpiError && !b.dpiError ==> b.errors == a.errors)
      && (mode == Static ==> b.errors == a.errors && b.dpiError == a.dpiError)
  {
  }

  lemma {:induction false} RunErrors(mode: Mode, fields: seq<FieldSpec>, buf: seq<Byte>, a: Accum)
    requires FlagConsistent(a)
    ensures FlagConsistent(Run(mode, fields, buf, a).acc)
    ensures mode == Static ==> Run(mode, fields, buf, a).acc.errors == a.errors
    decreases |fields|
  {
    if fields != [] {
      var o := Step(mode, fields[0], buf, a);
      StepErrors(mode, fields[0], buf, a);
      assert FlagConsistent(o.acc);
      if o.status == Done {
        RunErrors(mode, fields[1..], buf, o.acc);
      }
    }
  }

  /** After any dissector call `dpi_error` is true exactly when a message
      was recorded, and the static dissector never records one. */
  lemma DissectionErrors(mode: Mode, fields: seq<FieldSpec>, buf: seq<Byte>)
    ensures FlagConsistent(Dissection(mode, fields, buf).acc)
    ensures mode == Static ==>
      Dissection(mode, fields, buf).acc.errors == [] && !Dissection(mode, fields, buf).acc.dpiError
  {
    if |buf| > 0 {
      RunErrors(mode, fields, buf, Init);
    }
  }

  /** Same cursor, values and locals: the state validation does not touch. */
  predicate SameDecoding(a: Accum, b: Accum)
  {
    a.offset == b.offset && a.values == b.values && a.locals == b.locals
  }

  /** Validation never changes what is decoded: the static dissector reads
      the same values, stops at the same field and ends in the same state as
      the per-endpoint one, apart from the error list and flag. */
  lemma {:induction false} StaticDecodesAsFull(fields: seq<FieldSpec>, buf: seq<Byte>, a: Accum, b: Accum)
    requires SameDecoding(a, b)
    ensures SameDecoding(Run(Static, fields, buf, a).acc, Run(PerEndpoint, fields, buf, b).acc)
    ensures Run(Static, fields, buf, a).status == Run(PerEndpoint, fields, buf, b).status
    decreases |fields|
  {
    if fields != [] {
      var s, p := Step(Static, fields[0], buf, a), Step(PerEndpoint, fields[0], buf, b);
      StepStaticAsFull(fields[0], buf, a, b);
      if s.status == Done {
        StaticDecodesAsFull(fields[1..], buf, s.acc, p.acc);
      }
    }
  }

  lemma StepStaticAsFull(f: FieldSpec, buf: seq<Byte>, a: Accum, b: Accum)
    requires SameDecoding(a, b)
    ensures SameDecoding(Step(Static, f, buf, a).acc, Step(PerEndpoint, f, buf, b).acc)
    ensures Step(Static, f, buf, a).status == Step(PerEndpoint, f, buf, b).status
  {
    if f.fieldType == Bitfield {
      assert SameDecoding(BitfieldStep(Static, f, buf, a).acc, BitfieldStep(PerEndpoint, f, buf, b).acc);
    } else if !f.isDynamic {
      FixedStaticAsFull(f, buf, a, b);
    } else {
      DynamicStaticAsFull(f, buf, a, b);
    }
  }

  lemma FixedStaticAsFull(f: FieldSpec, buf: seq<Byte>, a: Accum, b: Accum)
    requires SameDecoding(a, b)
    ensures SameDecoding(FixedStep(Static, f, buf, a).acc, FixedStep(PerEndpoint, f, buf, b).acc)
    ensures FixedStep(Static, f, buf, a).status == FixedStep(PerEndpoint, f, buf, b).status
  {
    if a.offset + f.minSize <= |buf| {
      var bytes := buf[a.offset..a.offset + f.minSize];
      var b1 := if OutOfRange(f, ExtractValue(f, bytes)) then Record(b, RangeMsg(f.name)) else b;
      assert FixedStep(Static, f, buf, a).acc == Store(a, f, bytes);
      assert FixedStep(PerEndpoint, f, buf, b).acc == Store(b1, f, bytes);
      StoreSame(a, b1, f, bytes);
    }
  }

  lemma DynamicStaticAsFull(f: FieldSpec, buf: seq<Byte>, a: Accum, b: Accum)
    requires SameDecoding(a, b)
    ensures SameDecoding(DynamicStep(Static, f, buf, a).acc, DynamicStep(PerEndpoint, f, buf, b).acc)
    ensures DynamicStep(Static, f, buf, a).status == DynamicStep(PerEndpoint, f, buf, b).status
  {
    if f.sizeField in a.locals {
      var len := a.locals[f.sizeField];
      if a.offset + len <= |buf| {
        var bytes := buf[a.offset..a.offset + len];
        var b1 := if len < f.minSize || len > f.maxSize then Record(b, LengthMsg(f.name)) else b;
        assert DynamicStep(Static, f, buf, a).acc == Store(a, f, bytes);
        assert DynamicStep(PerEndpoint, f, buf, b).acc == Store(b1, f, bytes);
        StoreSame(a, b1, f, bytes);
      }
    }
  }

  /** Two states that decode alike store alike. */
  lemma StoreSame(a: Accum, b: Accum, f: FieldSpec, bytes: seq<Byte>)
    requires SameDecoding(a, b)
    ensures SameDecoding(Store(a, f, bytes), Store(b, f, bytes))
  {
  }

  /** What a successful read stores: the cursor moves past the bytes, the
      field's key holds the extracted value, an integer field's local holds
      the big-endian value, no key is lost and the messages are untouched. */
  lemma StoreFacts(a: Accum, f: FieldSpec, bytes: seq<Byte>)
    ensures var b := Store(a, f, bytes);
      b.offset == a.offset + |bytes| && b.errors == a.errors && b.dpiError == a.dpiError
      && a.values.Keys <= b.values.Keys
      && f.name in b.values && b.values[f.name] == ExtractValue(f, bytes)
      && (IsIntegerType(f.fieldType) ==> f.name in b.locals && b.locals[f.name] == BigEndian(bytes))
  {
    var m := a.values[f.name := ExtractValue(f, bytes)];
    var c := SubfieldCount(f);
    if c > 0 {
      var v, w := BigEndian(bytes), Quot(|bytes| * 8, c);
      forall i | 0 <= i < c ensures f.name != SubfieldName(f.name, i) {
        SubfieldNameFresh(f.name, i);
      }
      DecomposedOther(m, f.name, v, w, c, c, f.name);
      forall key | key in m ensures key in Decomposed(m, f.name, v, w, c, c) {
        DecomposedKeep(m, f.name, v, w, c, c, key);
      }
    }
  }

  /** A non-bitfield field that finishes decodes as `Store` of its bytes on
      the state it started from. */
  lemma StepStores(mode: Mode, f: FieldSpec, buf: seq<Byte>, a: Accum)
    requires f.fieldType != Bitfield && Step(mode, f, buf, a).status == Done
    ensures LengthKnown(f, a) && a.offset + FieldLength(f, a) <= |buf|
    ensures SameDecoding(Step(mode, f, buf, a).acc, Store(a, f, FieldBytes(f, buf, a)))
  {
    if !f.isDynamic {
      FixedStores(mode, f, buf, a);
    } else {
      DynamicStores(mode, f, buf, a);
    }
  }

  lemma FixedStores(mode: Mode, f: FieldSpec, buf: seq<Byte>, a: Accum)
    requires f.fieldType != Bitfield && !f.isDynamic && Step(mode, f, buf, a).status == Done
    ensures LengthKnown(f, a) && a.offset + FieldLength(f, a) <= |buf|
    ensures SameDecoding(Step(mode, f, buf, a).acc, Store(a, f, FieldBytes(f, buf, a)))
  {
    var o := FixedStep(mode, f, buf, a);
    assert Step(mode, f, buf, a) == o;
    var bytes := buf[a.offset..a.offset + f.minSize];
    assert FieldBytes(f, buf, a) == bytes;
    var a1 := if mode == PerEndpoint && OutOfRange(f, ExtractValue(f, bytes)) then Record(a, RangeMsg(f.name)) else a;
    assert o.acc == Store(a1, f, bytes);
    StoreSame(a1, a, f, bytes);
  }

  lemma DynamicStores(mode: Mode, f: FieldSpec, buf: seq<Byte>, a: Accum)
    requires f.fieldType != Bitfield && f.isDynamic && Step(mode, f, buf, a).status == Done
    ensures LengthKnown(f, a) && a.offset + FieldLength(f, a) <= |buf|
    ensures SameDecoding(Step(mode, f, buf, a).acc, Store(a, f, FieldBytes(f, buf, a)))
  {
    var o := DynamicStep(mode, f, buf, a);
    assert Step(mode, f, buf, a) == o;
    var len := a.locals[f.sizeField];
    var bytes := buf[a.offset..a.offset + len];
    assert FieldBytes(f, buf, a) == bytes;
    var a1 := if mode == PerEndpoint && (len < f.minSize || len > f.maxSize) then Record(a, LengthMsg(f.name)) else a;
    assert o.acc == Store(a1, f, bytes);
    StoreSame(a1, a, f, bytes);
  }

  lemma DissectionStaticAsFull(fields: seq<FieldSpec>, buf: seq<Byte>)
    ensures SameDecoding(Dissection(Static, fields, buf).acc, Dissection(PerEndpoint, fields, buf).acc)
    ensures Dissection(Static, fields, buf).status == Dissection(PerEndpoint, fields, buf).status
  {
    if |buf| > 0 {
      StaticDecodesAsFull(fields, buf, Init, Init);
    }
  }

  /** What a short buffer leaves behind in the per-endpoint dissector: a
      bitfield records "Not enough bytes", a fixed field records nothing,
      and a dynamic field records its length check and then "Not enough
      bytes". The static dissector records nothing. */
  lemma ShortBuffer(mode: Mode, f: FieldSpec, buf: seq<Byte>, a: Accum)
    requires LengthKnown(f, a) && |buf| < a.offset + FieldLength(f, a)
    ensures Step(mode, f, buf, a).status == Returned
    ensures mode == Static ==> Step(mode, f, buf, a).acc == a
    ensures mode == PerEndpoint && f.fieldType == Bitfield ==>
      Step(mode, f, buf, a).acc == Record(a, NotEnoughMsg(f.name))
    ensures mode == PerEndpoint && f.fieldType != Bitfield && !f.isDynamic ==>
      Step(mode, f, buf, a).acc == a
    ensures mode == PerEndpoint && f.fieldType != Bitfield && f.isDynamic ==>
      var len := a.locals[f.sizeField];
      Step(mode, f, buf, a).acc.errors ==
        a.errors + (if len < f.minSize || len > f.maxSize then [LengthMsg(f.name)] else [])
          + [NotEnoughMsg(f.name)]
      && Step(mode, f, buf, a).acc.dpiError
  {
  }

  /** A bitfield is stored as its binary string: one character per bit of
      its bytes, reading back to the number kept in its local, with as many
      ones as `popcount` of that number. The per-endpoint dissector records
      the count message exactly when the expected count differs from the
      number of ones (always, for a null count). */
  lemma BitfieldDecoded(mode: Mode, f: FieldSpec, buf: seq<Byte>, a: Accum)
    requires f.fieldType == Bitfield && Step(mode, f, buf, a).status == Done
    ensures var b := Step(mode, f, buf, a).acc;
      f.name in b.values && f.name in b.locals && b.values[f.name].Binary?
      && var s := b.values[f.name].digits;
      |s| == 8 * f.minSize
      && b.locals[f.name] == BigEndian(buf[a.offset..a.offset + f.minSize])
      && FromBinary(s) == b.locals[f.name]
      && Ones(s) == PopCount(b.locals[f.name])
      && b.errors == a.errors
        + (if mode == PerEndpoint && f.bitfieldsCount != Some(Ones(s))
           then [BitCountMsg(f.name, f.bitfieldsCount, Ones(s))] else [])
  {
    var bytes := buf[a.offset..a.offset + f.minSize];
    var v := BigEndian(bytes);
    assert |bytes| == f.minSize;
    BigEndianBound(bytes);
    assert 8 * |bytes| == f.minSize * 8;
    BinaryRoundTrip(v, f.minSize * 8);
    SmallMod(v, f.minSize * 8);
    BinaryOnes(v, f.minSize * 8);
  }

  /** Sub-field keys differ from the field's own key. */
  lemma SubfieldNameFresh(name: string, i: nat)
    ensures SubfieldName(name, i) != name
  {
    assert |SubfieldName(name, i)| > |name|;
  }

  /** The decomposition adds exactly the keys `name_bf0 .. name_bf(k-1)`,
      each holding its group, and leaves every other key alone. */
  lemma {:induction false} DecomposedAt(m: map<string, Value>, name: string, v: nat, width: nat, count: nat, k: nat, i: nat)
    requires i < k <= count
    ensures SubfieldName(name, i) in Decomposed(m, name, v, width, count, k)
    ensures Decomposed(m, name, v, width, count, k)[SubfieldName(name, i)] == Num(GroupAt(v, width, count, i))
    decreases k
  {
    if i < k - 1 {
      DecomposedAt(m, name, v, width, count, k - 1, i);
      if SubfieldName(name, i) == SubfieldName(name, k - 1) {
        SubfieldNameInjective(name, i, k - 1);
      }
    }
  }

  lemma {:induction false} DecomposedOther(m: map<string, Value>, name: string, v: nat, width: nat, count: nat, k: nat, key: string)
    requires k <= count
    requires forall i :: 0 <= i < k ==> key != SubfieldName(name, i)
    ensures key in Decomposed(m, name, v, width, count, k) <==> key in m
    ensures key in m ==> Decomposed(m, name, v, width, count, k)[key] == m[key]
    decreases k
  {
    if k > 0 {
      DecomposedOther(m, name, v, width, count, k - 1, key);
    }
  }

  /** A fixed field other than a bitfield: its value is what its extractor
      reads from its bytes, an integer field's local is the big-endian value
      of its bytes, and the only message it can record is the range message,
      in the per-endpoint dissector, for an integer field with both bounds
      whose value lies outside them. */
  lemma FixedDecoded(mode: Mode, f: FieldSpec, buf: seq<Byte>, a: Accum)
    requires f.fieldType != Bitfield && !f.isDynamic && Step(mode, f, buf, a).status == Done
    ensures var b := Step(mode, f, buf, a).acc;
      var bytes := buf[a.offset..a.offset + f.minSize];
      f.name in b.values && b.values[f.name] == ExtractValue(f, bytes)
      && (IsIntegerType(f.fieldType) ==>
            f.name in b.locals && b.locals[f.name] == BigEndian(bytes)
            && b.values[f.name] == Num(BigEndian(bytes)))
      && b.errors == a.errors
        + (if mode == PerEndpoint && IsIntegerType(f.fieldType) && f.minValue.Some? && f.maxValue.Some?
              && (BigEndian(bytes) < f.minValue.value || BigEndian(bytes) > f.maxValue.value)
           then [RangeMsg(f.name)] else [])
  {
    var bytes := buf[a.offset..a.offset + f.minSize];
    var a1 := if mode == PerEndpoint && OutOfRange(f, ExtractValue(f, bytes)) then Record(a, RangeMsg(f.name)) else a;
    assert Step(mode, f, buf, a).acc == Store(a1, f, bytes);
    StoreFacts(a1, f, bytes);
  }

  /** A dynamic field other than a bitfield takes its length from its size
      field's local. The per-endpoint dissector records the length message
      exactly when that length is outside [min_size, max_size], whether or
      not the bytes are there, and dynamic fields get no range check. */
  lemma DynamicDecoded(mode: Mode, f: FieldSpec, buf: seq<Byte>, a: Accum)
    requires f.fieldType != Bitfield && f.isDynamic && f.sizeField in a.locals
    requires Step(mode, f, buf, a).status == Done
    ensures var b := Step(mode, f, buf, a).acc;
      var len := a.locals[f.sizeField];
      var bytes := buf[a.offset..a.offset + len];
      b.offset == a.offset + len
      && f.name in b.values && b.values[f.name] == ExtractValue(f, bytes)
      && (IsIntegerType(f.fieldType) ==> f.name in b.locals && b.locals[f.name] == BigEndian(bytes))
      && b.errors == a.errors
        + (if mode == PerEndpoint && (len < f.minSize || len > f.maxSize) then [LengthMsg(f.name)] else [])
  {
    var len := a.locals[f.sizeField];
    var bytes := buf[a.offset..a.offset + len];
    var a1 := if mode == PerEndpoint && (len < f.minSize || len > f.maxSize) then Record(a, LengthMsg(f.name)) else a;
    assert Step(mode, f, buf, a).acc == Store(a1, f, bytes);
    StoreFacts(a1, f, bytes);
  }

  /** A non-bitfield field with a positive count gets one `name_bf i` entry
      per group of `bits / count` bits of its value, most significant group
      first; when the count divides the field's width the groups fit their
      width and concatenate back to the field's value. */
  lemma SubfieldsDecoded(mode: Mode, f: FieldSpec, buf: seq<Byte>, a: Accum)
    requires f.fieldType != Bitfield && SubfieldCount(f) > 0 && Step(mode, f, buf, a).status == Done
    ensures LengthKnown(f, a) && a.offset + FieldLength(f, a) <= |buf|
    ensures var b := Step(mode, f, buf, a).acc;
      var c, bits := SubfieldCount(f), 8 * FieldLength(f, a);
      var v, w := BigEndian(FieldBytes(f, buf, a)), Quot(bits, c);
      var gs := Groups(v, w, c);
      (forall i :: 0 <= i < c ==> SubfieldName(f.name, i) in b.values && b.values[SubfieldName(f.name, i)] == Num(gs[i]))
      && (bits % c == 0 ==> (forall i :: 0 <= i < c ==> gs[i] < Pow2(w)) && Combine(gs, w) == v)
  {
    StepStores(mode, f, buf, a);
    var b := Step(mode, f, buf, a).acc;
    var c, len := SubfieldCount(f), FieldLength(f, a);
    var bits := 8 * len;
    var bytes := FieldBytes(f, buf, a);
    var v := BigEndian(bytes);
    var m := a.values[f.name := ExtractValue(f, bytes)];
    assert |bytes| * 8 == bits;
    var w := Quot(bits, c);
    assert b.values == Decomposed(m, f.name, v, w, c, c);
    forall i | 0 <= i < c
      ensures SubfieldName(f.name, i) in b.values && b.values[SubfieldName(f.name, i)] == Num(Groups(v, w, c)[i])
    {
      DecomposedAt(m, f.name, v, w, c, c, i);
    }
    if bits % c == 0 {
      BigEndianBound(bytes);
      SplitFieldValue(v, bits, c);
    }
  }

  /** Keys are only ever added: a field, once decoded, stays in the table,
      and a pass that finishes has an entry for every field it was given. */
  lemma StepKeepsKeys(mode: Mode, f: FieldSpec, buf: seq<Byte>, a: Accum)
    ensures a.values.Keys <= Step(mode, f, buf, a).acc.values.Keys
    ensures Step(mode, f, buf, a).status == Done ==> f.name in Step(mode, f, buf, a).acc.values
  {
    var o := Step(mode, f, buf, a);
    if f.fieldType == Bitfield {
      assert o == BitfieldStep(mode, f, buf, a);
    } else if o.status == Done {
      StepStores(mode, f, buf, a);
      StoreFacts(a, f, FieldBytes(f, buf, a));
    } else {
      StepCursor(mode, f, buf, a);
    }
  }

  lemma {:induction false} DecomposedKeep(m: map<string, Value>, name: string, v: nat, width: nat, count: nat, k: nat, key: string)
    requires k <= count && key in m
    ensures key in Decomposed(m, name, v, width, count, k)
    decreases k
  {
    if k > 0 {
      DecomposedKeep(m, name, v, width, count, k - 1, key);
    }
  }

  lemma {:induction false} RunKeepsKeys(mode: Mode, fields: seq<FieldSpec>, buf: seq<Byte>, a: Accum)
    ensures a.values.Keys <= Run(mode, fields, buf, a).acc.values.Keys
    ensures Run(mode, fields, buf, a).status == Done ==>
      forall i :: 0 <= i < |fields| ==> fields[i].name in Run(mode, fields, buf, a).acc.values
    decreases |fields|
  {
    if fields != [] {
      var o := Step(mode, fields[0], buf, a);
      StepKeepsKeys(mode, fields[0], buf, a);
      if o.status == Done {
        RunKeepsKeys(mode, fields[1..], buf, o.acc);
        var r := Run(mode, fields[1..], buf, o.acc);
        assert Run(mode, fields, buf, a) == r;
        assert fields[0].name in o.acc.values;
        forall i | 0 <= i < |fields| && r.status == Done ensures fields[i].name in r.acc.values {
          if i > 0 {
            assert fields[i] == fields[1..][i - 1];
          }
        }
      }
    }
  }
}
