/** The per-endpoint field schema and what the generator derives from it
    before any packet is seen: the ProtoField kind declared for each field,
    the extraction call the dissector uses for it, the ordered list of
    registered field names, and the set of dissectors generated. */
module Schema {
  import opened Text

  datatype Option<T> = None | Some(value: T)

  /** `field_type`; every string other than the seven named ones is Other. */
  datatype FieldType = Int | Float | Double | Char | Long | Bool | Bitfield | Other

  /** One entry of an endpoint's field mapping. `maxSize` and `sizeField`
      only matter when `isDynamic`; `bitfieldsCount` is JSON's int-or-null. */
  datatype FieldSpec = FieldSpec(
    name: string,
    fieldType: FieldType,
    minSize: nat,
    maxSize: int,
    isDynamic: bool,
    sizeField: string,
    minValue: Option<int>,
    maxValue: Option<int>,
    bitfieldsCount: Option<int>)

  /** Which of the two generated dissectors runs the decode pass. */
  datatype Mode = PerEndpoint | Static

  /** One generated dissector: its mode, the endpoint it was built from and
      the ordered fields it decodes. */
  datatype Config = Config(mode: Mode, endpoint: string, fields: seq<FieldSpec>)

  /** The ProtoField constructor the generator declares for a field. */
  datatype ProtoKind = UInt8 | UInt16 | UInt32 | UInt64 | Int32 | FloatKind | DoubleKind | StringKind

  function KindBytes(k: ProtoKind): nat
  {
    match k
    case UInt8 => 1
    case UInt16 => 2
    case UInt32 => 4
    case UInt64 => 8
    case Int32 => 4
    case FloatKind => 4
    case DoubleKind => 8
    case StringKind => 0
  }

  predicate IsUnsigned(k: ProtoKind)
  {
    k == UInt8 || k == UInt16 || k == UInt32 || k == UInt64
  }

  /** Width chain shared by `int` and `bitfield`: 1, 2, 4 and 8 bytes get
      their own width, every other size falls back to 32 bits. */
  function UnsignedKindFor(size: nat): (k: ProtoKind)
    ensures IsUnsigned(k)
    ensures KindBytes(k) == (if size in {1, 2, 4, 8} then size else 4)
  {
    if size == 1 then UInt8
    else if size == 2 then UInt16
    else if size == 4 then UInt32
    else if size == 8 then UInt64
    else UInt32
  }

  /** The ProtoField declared for the field itself. */
  function DeclaredKind(f: FieldSpec): (k: ProtoKind)
    ensures f.fieldType in {Int, Bitfield} ==>
      IsUnsigned(k) && KindBytes(k) == (if f.minSize in {1, 2, 4, 8} then f.minSize else 4)
    ensures f.fieldType == Long ==> (k == UInt64 <==> f.minSize == 8) && (k != UInt64 ==> k == Int32)
    ensures f.fieldType == Bool ==> k == UInt8
    ensures f.fieldType in {Char, Other} ==> k == StringKind
  {
    match f.fieldType
    case Bool => UInt8
    case Int => UnsignedKindFor(f.minSize)
    case Float => FloatKind
    case Double => DoubleKind
    case Long => if f.minSize == 8 then UInt64 else Int32
    case Char => StringKind
    case Bitfield => UnsignedKindFor(f.minSize)
    case Other => StringKind
  }

  /** The TvbRange call the dissector reads the field's bytes with. */
  datatype Extractor = ReadUInt | ReadUInt64 | ReadFloat | ReadDouble | ReadString

  predicate IsIntegerType(t: FieldType)
  {
    t == Int || t == Bool || t == Long
  }

  /** Bitfields and int/bool/long read `uint64()` exactly when the declared
      size is 8 and `uint()` otherwise; float and double unpack IEEE bytes;
      every other type reads a string. */
  function ExtractorFor(f: FieldSpec): (e: Extractor)
    ensures (f.fieldType == Bitfield || IsIntegerType(f.fieldType)) ==>
      (e == ReadUInt64 <==> f.minSize == 8) && (e != ReadUInt64 ==> e == ReadUInt)
    ensures f.fieldType in {Char, Other} ==> e == ReadString
  {
    if f.fieldType == Bitfield || IsIntegerType(f.fieldType) then
      (if f.minSize == 8 then ReadUInt64 else ReadUInt)
    else if f.fieldType == Float then ReadFloat
    else if f.fieldType == Double then ReadDouble
    else ReadString
  }

  /** For int, long and bitfield fields the declared ProtoField is 64-bit
      exactly when the extraction call is the 64-bit one. */
  lemma ExtractionMatchesDeclaration(f: FieldSpec)
    requires f.fieldType in {Int, Long, Bitfield}
    ensures ExtractorFor(f) == ReadUInt64 <==> DeclaredKind(f) == UInt64
  {
    if f.fieldType != Long {
      assert KindBytes(DeclaredKind(f)) == 8 <==> f.minSize == 8;
    }
  }

  /** Number of `_bfN` sub-fields: only non-bitfield fields with a non-null,
      nonzero count get them, and `range` of a negative count is empty. */
  function SubfieldCount(f: FieldSpec): nat
  {
    if f.fieldType != Bitfield && f.bitfieldsCount.Some? && f.bitfieldsCount.value > 0
    then f.bitfieldsCount.value else 0
  }

  /** Key of sub-field i of a field, `<name>_bf<i>`. */
  function SubfieldName(name: string, i: nat): string
  {
    name + "_bf" + NatToString(i)
  }

  lemma SubfieldNameInjective(name: string, i: nat, j: nat)
    requires SubfieldName(name, i) == SubfieldName(name, j)
    ensures i == j
  {
    var p := name + "_bf";
    assert SubfieldName(name, i)[|p|..] == NatToString(i);
    assert SubfieldName(name, j)[|p|..] == NatToString(j);
    NatToStringInjective(i, j);
  }

  function SubfieldEntries(name: string, n: nat): (r: seq<string>)
    ensures |r| == n
    ensures forall j :: 0 <= j < n ==> r[j] == "f_" + SubfieldName(name, j)
  {
    seq(n, j requires 0 <= j < n => "f_" + SubfieldName(name, j))
  }

  /** The registration entries the generator emits for one field. */
  function Entries(f: FieldSpec): seq<string>
  {
    ["f_" + f.name] + SubfieldEntries(f.name, SubfieldCount(f))
  }

  /** The ordered registration list, field by field in declaration order. */
  function Registrations(fields: seq<FieldSpec>): seq<string>
  {
    if fields == [] then []
    else Registrations(fields[..|fields| - 1]) + Entries(fields[|fields| - 1])
  }

  function TotalSubfields(fields: seq<FieldSpec>): nat
  {
    if fields == [] then 0
    else TotalSubfields(fields[..|fields| - 1]) + SubfieldCount(fields[|fields| - 1])
  }

  /** `generate_field_list`: one `f_<name>` per field, each followed by its
      `f_<name>_bf<i>` entries. */
  method GenerateFieldList(fields: seq<FieldSpec>) returns (all: seq<string>)
    ensures all == Registrations(fields)
  {
    all := [];
    for k := 0 to |fields|
      invariant all == Registrations(fields[..k])
    {
      var f := fields[k];
      assert fields[..k + 1][..k] == fields[..k];
      ghost var before := all;
      all := all + ["f_" + f.name];
      if f.fieldType != Bitfield {
        var count := f.bitfieldsCount;
        if count.Some? && count.value != 0 {
          var i := 0;
          while i < count.value
            invariant 0 <= i <= SubfieldCount(f)
            invariant all == before + ["f_" + f.name] + SubfieldEntries(f.name, i)
          {
            assert SubfieldEntries(f.name, i + 1) == SubfieldEntries(f.name, i) + ["f_" + SubfieldName(f.name, i)];
            all := all + ["f_" + SubfieldName(f.name, i)];
            i := i + 1;
          }
          assert i == SubfieldCount(f);
        }
      }
      assert all == before + Entries(f);
    }
    assert fields[..|fields|] == fields;
  }

  lemma {:induction false} RegistrationsLength(fields: seq<FieldSpec>)
    ensures |Registrations(fields)| == |fields| + TotalSubfields(fields)
  {
    if fields != [] {
      RegistrationsLength(fields[..|fields| - 1]);
    }
  }

  /** Position of field i's own entry in the registration list. */
  function EntryStart(fields: seq<FieldSpec>, i: nat): nat
    requires i <= |fields|
  {
    i + TotalSubfields(fields[..i])
  }

  lemma {:induction false} RegistrationsPrefix(fields: seq<FieldSpec>, k: nat)
    requires k <= |fields|
    ensures |Registrations(fields[..k])| <= |Registrations(fields)|
    ensures Registrations(fields)[..|Registrations(fields[..k])|] == Registrations(fields[..k])
    decreases |fields| - k
  {
    if k < |fields| {
      var m := fields[..|fields| - 1];
      assert m[..k] == fields[..k];
      RegistrationsPrefix(m, k);
    } else {
      assert fields[..k] == fields;
    }
  }

  /** Field i's entry is `f_<name>` and is immediately followed by exactly
      its sub-field entries, in declaration order. */
  lemma RegistrationAt(fields: seq<FieldSpec>, i: nat)
    requires i < |fields|
    ensures EntryStart(fields, i) + 1 + SubfieldCount(fields[i]) <= |Registrations(fields)|
    ensures Registrations(fields)[EntryStart(fields, i)] == "f_" + fields[i].name
    ensures forall j :: 0 <= j < SubfieldCount(fields[i]) ==>
      Registrations(fields)[EntryStart(fields, i) + 1 + j] == "f_" + SubfieldName(fields[i].name, j)
  {
    var all, head, e := Registrations(fields), Registrations(fields[..i]), Entries(fields[i]);
    assert Registrations(fields[..i + 1]) == head + e by {
      assert fields[..i + 1][..i] == fields[..i];
    }
    RegistrationsLength(fields[..i]);
    RegistrationsPrefix(fields, i + 1);
    assert all[..|head| + |e|] == head + e;
    EntryAt(all, head, e);
    assert |head| == EntryStart(fields, i);
    assert |e| == 1 + SubfieldCount(fields[i]);
    assert all[|head|] == e[0] == "f_" + fields[i].name;
    forall j | 0 <= j < SubfieldCount(fields[i])
      ensures Registrations(fields)[EntryStart(fields, i) + 1 + j] == "f_" + SubfieldName(fields[i].name, j)
    {
      EntriesAt(fields[i], j);
      assert all[|head| + (1 + j)] == e[1 + j];
    }
  }

  lemma EntriesAt(f: FieldSpec, j: nat)
    requires j < SubfieldCount(f)
    ensures |Entries(f)| == 1 + SubfieldCount(f)
    ensures Entries(f)[1 + j] == "f_" + SubfieldName(f.name, j)
  {
    var subs := SubfieldEntries(f.name, SubfieldCount(f));
    assert Entries(f)[1 + j] == subs[j];
  }

  lemma EntryAt(all: seq<string>, head: seq<string>, e: seq<string>)
    requires |head| + |e| <= |all| && all[..|head| + |e|] == head + e
    ensures forall q :: 0 <= q < |e| ==> all[|head| + q] == e[q]
  {
    forall q | 0 <= q < |e| ensures all[|head| + q] == e[q] {
      assert all[..|head| + |e|][|head| + q] == (head + e)[|head| + q];
    }
  }

  /** The generated dissectors: one full-validation dissector per endpoint in
      order, then, when there is any endpoint, one static dissector built
      from the first endpoint's fields. */
  function Configurations(dpi: seq<(string, seq<FieldSpec>)>): (r: seq<Config>)
    ensures |r| == |dpi| + (if dpi == [] then 0 else 1)
    ensures forall i :: 0 <= i < |dpi| ==> r[i] == Config(PerEndpoint, dpi[i].0, dpi[i].1)
    ensures dpi != [] ==> r[|dpi|] == Config(Static, dpi[0].0, dpi[0].1)
  {
    seq(|dpi|, i requires 0 <= i < |dpi| => Config(PerEndpoint, dpi[i].0, dpi[i].1))
      + (if dpi == [] then [] else [Config(Static, dpi[0].0, dpi[0].1)])
  }
}
