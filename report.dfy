/** The Info column each dissector writes after the decode pass: the error
    report when the per-endpoint dissector recorded a message, otherwise
    the `k=v` parts of the value table, sorted and joined with ", " (with
    the "Static: " prefix in the static dissector). A dissector that
    returned or raised during the pass never gets here. */
module Report {
  import opened Arith
  import opened Text
  import opened Bits
  import opened Schema
  import opened Decoder

  /** `tostring` of a byte string held as a Lua string: one character per
      byte, as the host gives it for ASCII bytes. */
  function BytesText(bytes: seq<Byte>): (s: string)
    ensures |s| == |bytes|
    ensures forall i :: 0 <= i < |bytes| ==> s[i] as int == bytes[i]
  {
    seq(|bytes|, i requires 0 <= i < |bytes| => bytes[i] as char)
  }

  /** `tostring(v)`: numbers in decimal, strings as themselves, bitfields as
      their binary string; `floatText` is the host's rendering of a decoded
      IEEE value. */
  function Show(v: Value, floatText: seq<Byte> -> string): (r: string)
    ensures v.Num? ==> r != [] && forall i :: 0 <= i < |r| ==> IsDigit(r[i])
    ensures v.Str? ==> |r| == |v.bytes|
    ensures v.Binary? ==> r == v.digits
  {
    match v
    case Num(n) => NatToString(n)
    case Str(bytes) => BytesText(bytes)
    case Ieee(raw) => floatText(raw)
    case Binary(digits) => digits
  }

  /** `k .. "=" .. tostring(v)`. */
  function Part(k: string, v: Value, floatText: seq<Byte> -> string): string
  {
    k + "=" + Show(v, floatText)
  }

  /** Keys that contain no '=': every Lua identifier, and so every field name. */
  predicate CleanKeys(m: map<string, Value>)
  {
    forall k :: k in m ==> '=' !in k
  }

  /** Position of the first '=' (the length when there is none). */
  function FirstEquals(s: string): (n: nat)
    ensures n <= |s|
    ensures forall j :: 0 <= j < n ==> s[j] != '='
    ensures n < |s| ==> s[n] == '='
  {
    if s == [] then 0 else if s[0] == '=' then 0 else 1 + FirstEquals(s[1..])
  }

  lemma {:induction false} FirstEqualsPart(k: string, rest: string)
    requires '=' !in k
    ensures FirstEquals(k + "=" + rest) == |k|
  {
    if k != [] {
      assert (k + "=" + rest)[1..] == k[1..] + "=" + rest;
      FirstEqualsPart(k[1..], rest);
    }
  }

  /** The key is everything before the first '=': parts of different keys
      differ whatever their values. */
  lemma PartInjective(k1: string, v1: Value, k2: string, v2: Value, floatText: seq<Byte> -> string)
    requires '=' !in k1 && '=' !in k2
    requires Part(k1, v1, floatText) == Part(k2, v2, floatText)
    ensures k1 == k2
  {
    var p1, p2 := Part(k1, v1, floatText), Part(k2, v2, floatText);
    FirstEqualsPart(k1, Show(v1, floatText));
    FirstEqualsPart(k2, Show(v2, floatText));
    assert k1 == p1[..|k1|] && k2 == p2[..|k2|];
  }

  /** The parts the `pairs` loop collects, whatever order it visits keys in. */
  ghost function PartSet(m: map<string, Value>, floatText: seq<Byte> -> string): set<string>
  {
    set k | k in m :: Part(k, m[k], floatText)
  }

  /** `table.concat(parts, ", ")` after `table.sort(parts)`. */
  ghost function Summary(m: map<string, Value>, floatText: seq<Byte> -> string): (r: string)
    ensures r == "" <==> m == map[]
  {
    var parts := SortedOf(PartSet(m, floatText));
    if m != map[] then
      var k :| k in m;
      assert Part(k, m[k], floatText) in PartSet(m, floatText);
      assert parts != [] && parts[0] in PartSet(m, floatText);
      Join(parts, ", ")
    else
      assert PartSet(m, floatText) == {};
      Join(parts, ", ")
  }

  function ErrorReport(errors: seq<string>): string
  {
    "[DPI Error: " + Join(errors, "; ") + "]"
  }

  /** What the dissector leaves in `pinfo.cols.info`; None when the pass
      returned or raised, so that the column is never written. */
  ghost function InfoColumn(mode: Mode, o: Outcome, floatText: seq<Byte> -> string): (r: Option<string>)
    ensures r.Some? <==> o.status == Done
    ensures r.Some? && mode == Static ==> |r.value| >= 8 && r.value[..8] == "Static: "
    ensures r.Some? && mode == PerEndpoint && o.acc.dpiError ==> |r.value| >= 12 && r.value[..12] == "[DPI Error: "
  {
    if o.status != Done then None
    else if mode == Static then Some("Static: " + Summary(o.acc.values, floatText))
    else if o.acc.dpiError then Some(ErrorReport(o.acc.errors))
    else Some(Summary(o.acc.values, floatText))
  }

  /** The `for k, v in pairs(...)` loop: the keys are visited in an order the
      model leaves open. */
  method CollectParts(m: map<string, Value>, floatText: seq<Byte> -> string) returns (parts: seq<string>)
    requires CleanKeys(m)
    ensures Distinct(parts)
    ensures forall p :: p in parts <==> p in PartSet(m, floatText)
  {
    parts := [];
    var rest := m.Keys;
    while rest != {}
      invariant rest <= m.Keys
      invariant Distinct(parts)
      invariant forall p :: p in parts <==> exists k :: k in m && k !in rest && p == Part(k, m[k], floatText)
      decreases |rest|
    {
      var k :| k in rest;
      var p := Part(k, m[k], floatText);
      forall j | 0 <= j < |parts| ensures parts[j] != p {
        if parts[j] == p {
          assert parts[j] in parts;
          var k' :| k' in m && k' !in rest && parts[j] == Part(k', m[k'], floatText);
          PartInjective(k', m[k'], k, m[k], floatText);
        }
      }
      parts := parts + [p];
      rest := rest - {k};
    }
  }

  /** The report statements at the end of the dissector. */
  method ReportInfo(mode: Mode, o: Outcome, floatText: seq<Byte> -> string) returns (info: Option<string>)
    requires CleanKeys(o.acc.values)
    ensures info == InfoColumn(mode, o, floatText)
  {
    if o.status != Done {
      return None;
    }
    if mode == PerEndpoint && o.acc.dpiError {
      var msg := Join(o.acc.errors, "; ");
      return Some("[DPI Error: " + msg + "]");
    }
    var parts := CollectParts(o.acc.values, floatText);
    var sorted := Sort(parts);
    forall p ensures p in sorted <==> p in SortedOf(PartSet(o.acc.values, floatText)) {
      assert p in sorted <==> p in multiset(sorted);
      assert p in parts <==> p in multiset(parts);
    }
    SortedUnique(sorted, SortedOf(PartSet(o.acc.values, floatText)));
    var summary := Join(sorted, ", ");
    if mode == Static {
      info := Some("Static: " + summary);
    } else {
      info := Some(summary);
    }
  }

  /** Sub-field keys of a clean name are clean. */
  lemma SubfieldNameClean(name: string, i: nat)
    requires '=' !in name
    ensures '=' !in SubfieldName(name, i)
  {
    var d := NatToString(i);
    assert SubfieldName(name, i) == name + "_bf" + d;
    forall j | 0 <= j < |d| ensures d[j] != '=' {
      assert IsDigit(d[j]);
    }
  }

  lemma {:induction false} DecomposedClean(m: map<string, Value>, name: string, v: nat, width: nat, count: nat, k: nat)
    requires k <= count && CleanKeys(m) && '=' !in name
    ensures CleanKeys(Decomposed(m, name, v, width, count, k))
    decreases k
  {
    if k > 0 {
      DecomposedClean(m, name, v, width, count, k - 1);
      SubfieldNameClean(name, k - 1);
    }
  }

  lemma StepClean(mode: Mode, f: FieldSpec, buf: seq<Byte>, a: Accum)
    requires CleanKeys(a.values) && '=' !in f.name
    ensures CleanKeys(Step(mode, f, buf, a).acc.values)
  {
    var o := Step(mode, f, buf, a);
    if o.status == Done && f.fieldType != Bitfield && SubfieldCount(f) > 0 {
      StepStores(mode, f, buf, a);
      var c, bytes := SubfieldCount(f), FieldBytes(f, buf, a);
      var m := a.values[f.name := ExtractValue(f, bytes)];
      DecomposedClean(m, f.name, BigEndian(bytes), Quot(|bytes| * 8, c), c, c);
    }
  }

  lemma {:induction false} RunClean(mode: Mode, fields: seq<FieldSpec>, buf: seq<Byte>, a: Accum)
    requires CleanKeys(a.values)
    requires forall i :: 0 <= i < |fields| ==> '=' !in fields[i].name
    ensures CleanKeys(Run(mode, fields, buf, a).acc.values)
    decreases |fields|
  {
    if fields != [] {
      StepClean(mode, fields[0], buf, a);
      var o := Step(mode, fields[0], buf, a);
      if o.status == Done {
        RunClean(mode, fields[1..], buf, o.acc);
      }
    }
  }

  /** The whole dissector: the decode pass, then the Info column. */
  method Dissect(config: Config, buffer: seq<Byte>, floatText: seq<Byte> -> string)
    returns (o: Outcome, info: Option<string>)
    requires forall i :: 0 <= i < |config.fields| ==> '=' !in config.fields[i].name
    ensures o == Dissection(config.mode, config.fields, buffer)
    ensures info == InfoColumn(config.mode, o, floatText)
  {
    o := Decode(config.mode, config.fields, buffer);
    if |buffer| > 0 {
      RunClean(config.mode, config.fields, buffer, Init);
    }
    info := ReportInfo(config.mode, o, floatText);
  }

  // ---------------------------------------------------------------------
  // Properties of the report.

  /** The summary lists the part of every key exactly once, in increasing
      byte order, and nothing else. */
  lemma SummaryParts(m: map<string, Value>, floatText: seq<Byte> -> string)
    requires CleanKeys(m)
    ensures Sorted(SortedOf(PartSet(m, floatText)))
    ensures forall k :: k in m ==> Part(k, m[k], floatText) in SortedOf(PartSet(m, floatText))
    ensures forall p :: p in SortedOf(PartSet(m, floatText)) ==> exists k :: k in m && p == Part(k, m[k], floatText)
  {
  }

  /** The per-endpoint dissector shows the error report exactly when it
      recorded a message, and the sorted summary otherwise; a pass that
      returned or raised shows nothing. */
  lemma FullReport(fields: seq<FieldSpec>, buf: seq<Byte>, floatText: seq<Byte> -> string)
    ensures var o := Dissection(PerEndpoint, fields, buf);
      InfoColumn(PerEndpoint, o, floatText) ==
        if o.status != Done then None
        else if o.acc.errors != [] then Some(ErrorReport(o.acc.errors))
        else Some(Summary(o.acc.values, floatText))
  {
    DissectionErrors(PerEndpoint, fields, buf);
  }

  /** The static dissector always shows "Static: " and the summary of the
      same values the per-endpoint dissector decodes, and it shows it
      exactly when the per-endpoint one finishes its pass. */
  lemma StaticReport(fields: seq<FieldSpec>, buf: seq<Byte>, floatText: seq<Byte> -> string)
    ensures var s, p := Dissection(Static, fields, buf), Dissection(PerEndpoint, fields, buf);
      InfoColumn(Static, s, floatText) ==
        if p.status != Done then None else Some("Static: " + Summary(p.acc.values, floatText))
  {
    DissectionStaticAsFull(fields, buf);
  }

  /** An empty buffer returns before any field and leaves the column alone. */
  lemma EmptyBufferNoReport(mode: Mode, fields: seq<FieldSpec>, floatText: seq<Byte> -> string)
    ensures Dissection(mode, fields, []).acc == Init
    ensures InfoColumn(mode, Dissection(mode, fields, []), floatText) == None
  {
  }
}
