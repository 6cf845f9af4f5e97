# Decode-and-validate semantics of the generated DPI dissectors

`pythonscripts/gen_diss2.py` reads a per-endpoint field schema and writes Wireshark Lua dissectors:
- one full-validation dissector per endpoint;
- one static dissector built from the first endpoint's fields.

This project models what those dissectors do with a packet, together with the generator's own helpers:
- **Schema** (`schema.dfy`): the field schema and the ProtoField width chosen for each field. It also holds the extraction call (`uint()` or `uint64()`, IEEE bytes, string), the `_bf<i>` sub-field names, the ordered registration list `generate_field_list` builds, and the set of generated dissectors.
- **Bits** (`bits.dfy`): the big-endian unsigned read, `popcount`, `to_binary_str`, and the split of a value into equal-width groups, most significant first.
- **Decoder** (`decoder.dfy`): the per-field pass. It covers:
  - the state: the `offset` cursor, `dpi_error`, `error_messages`, the value table and the Lua locals that later dynamic fields read their length from;
  - the three field kinds: bitfield, fixed and dynamic;
  - the checks: short buffer, population count, inclusive range, dynamic length;
  - the sub-field decomposition.

  One engine with a `Mode` switch (`PerEndpoint` or `Static`) covers both emitted loops. The methods (`Decode`, `DecodeField`, `Decompose`, …) follow the emitted statements. Each is proved equal to a specification function (`Dissection`, `Step`, `Decomposed`, …). The lemmas state the properties in terms of those functions.
- **Report** (`report.dfy`): the Info column. It is either the `[DPI Error: …]` report or the sorted `k=v` summary, the latter with the `Static: ` prefix in the static dissector. The `pairs` loop is modelled as visiting keys in an unspecified order. The sorted result is proved to be the same whatever that order is.
- **Scenarios** (`scenarios.dfy`): concrete schemas and packets decoded end to end.
- **Findings** (`findings.dfy`): the static dissector's dynamic-field branch as emitted, next to the intended one.

Values are unbounded naturals. A Lua `return` ends the dissector call, so an aborted pass writes no Info column: status `Returned` maps to no report. The model assumes that a dynamic field's size field names an earlier field. Reading a size field that holds no integer local is then a Lua error: status `Raised`. Examples are a size field naming a later field or a string field, or naming no field and no other Lua variable.

What the emitted code does on the edge cases, and the model with it:
- A buffer that is too short makes the dissector `return`, so no Info column is written for that packet.
- A fixed non-bitfield field that is cut short returns without recording a message (lines 204-207). Bitfield and dynamic fields record "Not enough bytes for X" before they return.
- The range check is emitted only for fixed fields (line 224). Dynamic fields get only the length check.
- `size_defining_field` is pasted verbatim into `local dynamic_length = …` (lines 251 and 486). When it names an earlier field, that field's integer local is the length. The comparison at lines 252 and 487 raises when the expression is nil or not a number, for example the name of a later field or of a string field.
- A bitfield whose `bitfields_count` is null is compared against the Lua global `None`, which is nil. The count therefore always mismatches, and the message reads `expected None`.

## Model

| member | source | states |
|---|---|---|
| Schema.UnsignedKindFor | pythonscripts/gen_diss2.py:86-96 | sizes 1, 2, 4 and 8 get the unsigned kind of that width; every other size gets 32 bits |
| Schema.DeclaredKind | pythonscripts/gen_diss2.py:79-127 | int and bitfield fields follow the width chain; long is uint64 exactly when min_size is 8, else int32; bool is uint8; char and unknown types are strings |
| Schema.ExtractorFor | pythonscripts/gen_diss2.py:208-220 | bitfield, int, bool and long read `uint64()` exactly when min_size is 8, else `uint()`; char and unknown types read a string |
| Schema.ExtractionMatchesDeclaration | pythonscripts/gen_diss2.py:103-107 | for int, long and bitfield fields, the 64-bit read is used exactly when a 64-bit ProtoField is declared |
| Schema.SubfieldNameInjective | pythonscripts/gen_diss2.py:57-58 | distinct indices give distinct `<name>_bf<i>` keys |
| Schema.GenerateFieldList | pythonscripts/gen_diss2.py:49-59 | the loops build exactly the registration list `Registrations(fields)` |
| Schema.RegistrationsLength | pythonscripts/gen_diss2.py:49-59 | the list has one entry per field plus the sum of the sub-field counts |
| Schema.RegistrationAt | pythonscripts/gen_diss2.py:49-59 | field i's `f_<name>` sits at position i plus the earlier sub-field counts, followed immediately by its `f_<name>_bf0 .. _bf(n-1)` in order |
| Schema.Configurations | pythonscripts/gen_diss2.py:325-327 | one full-validation dissector per endpoint in order, then, when there is any endpoint, one static dissector with the first endpoint's fields |
| Text.Join | pythonscripts/gen_diss2.py:302-311 | `table.concat`: no parts give "", one part gives itself, and the first part starts the result |
| Text.Sort | pythonscripts/gen_diss2.py:310 | `table.sort` on distinct strings: the result is sorted in byte order and holds exactly the input's strings |
| Bits.BigEndian | pythonscripts/gen_diss2.py:187-190 | the unsigned big-endian value `uint()`/`uint64()` reads; it is zero exactly when every byte is zero |
| Bits.BigEndianBound | pythonscripts/gen_diss2.py:187-190 | the unsigned read of n bytes is below 2^(8n) |
| Bits.Popcount | pythonscripts/gen_diss2.py:157-164 | the halving loop terminates and returns the number of 1 bits |
| Bits.BinaryString | pythonscripts/gen_diss2.py:167-174 | exactly `bits` characters, each '0' or '1' |
| Bits.ToBinaryStr | pythonscripts/gen_diss2.py:167-174 | the for loop from bit bits-1 down to 0 builds `BinaryString(num, bits)` |
| Bits.BinaryStringAt | pythonscripts/gen_diss2.py:169-171 | character k is bit bits-1-k of the value: most significant first |
| Bits.BinaryRoundTrip | pythonscripts/gen_diss2.py:167-174 | reading the string back as binary gives the value modulo 2^bits, so a value that fits comes back unchanged |
| Bits.BinaryOnes | pythonscripts/gen_diss2.py:193-199 | for a value below 2^bits, the string has popcount(value) ones |
| Bits.GroupAt | pythonscripts/gen_diss2.py:242-244 | group i of the shift-and-mask is below 2^width |
| Bits.GroupsReconstruct | pythonscripts/gen_diss2.py:239-247 | concatenating the groups, first one most significant, gives the low count*width bits of the value |
| Bits.SplitFieldValue | pythonscripts/gen_diss2.py:240-246 | when count divides the width, each group fits its width and the groups concatenate back to the field value |
| Decoder.BitCountMsg | pythonscripts/gen_diss2.py:197 | the mismatch message; a null `bitfields_count` is spelled `None` by the generator |
| Decoder.OutOfRange | pythonscripts/gen_diss2.py:222-233 | only int, bool and long fields with both bounds are range-tested; float, double and char fields never are in the model |
| Decoder.Decomposed | pythonscripts/gen_diss2.py:241-246 | the sub-field stores keep every earlier key and add `<name>_bf<i>` for each group index i |
| Decoder.WithSubfields | pythonscripts/gen_diss2.py:237-248 | a field's sub-field stores keep every key and add one `<name>_bf<i>` key per sub-field |
| Decoder.BitfieldStep | pythonscripts/gen_diss2.py:180-202 | a bitfield never raises, finishes exactly when `min_size` bytes remain and then advances by them with its value stored, returns otherwise with cursor and values unchanged, and adds at most one message (none in the static dissector) |
| Decoder.FixedStep | pythonscripts/gen_diss2.py:203-248 | a fixed field never raises, finishes exactly when `min_size` bytes remain and then advances by them with its value stored, returns otherwise with nothing changed, and adds at most one message (none in the static dissector) |
| Decoder.DynamicStep | pythonscripts/gen_diss2.py:249-291 | a dynamic field raises exactly when its size field holds no integer local, and then changes nothing; it finishes exactly when the size field's value in bytes remains and then advances by it; it adds at most two messages (none in the static dissector) |
| Decoder.Step | pythonscripts/gen_diss2.py:177-291 | one field moves the cursor forward only, and only when it finishes, never past the buffer; messages are only appended; the static dissector records none |
| Decoder.Run | pythonscripts/gen_diss2.py:177-291 | the pass moves the cursor forward only, within the buffer, appends messages only, and records none in the static dissector |
| Decoder.Dissection | pythonscripts/gen_diss2.py:146-291 | a call ends within the buffer, finishes only on a non-empty buffer, and the static dissector ends with no message and `dpi_error` unset |
| Decoder.Decompose | pythonscripts/gen_diss2.py:239-248 | the decomposition loop stores exactly the entries `Decomposed` describes |
| Decoder.DecodeBitfield | pythonscripts/gen_diss2.py:180-202 | the emitted bitfield branch computes `Step` for a bitfield |
| Decoder.StoreField | pythonscripts/gen_diss2.py:276-290 | the value, sub-field, local and cursor stores after a successful read |
| Decoder.DecodeFixed | pythonscripts/gen_diss2.py:203-248 | the emitted fixed-field branch computes `Step` for a fixed field |
| Decoder.DecodeDynamic | pythonscripts/gen_diss2.py:249-291 | the emitted dynamic-field branch computes `Step` for a dynamic field |
| Decoder.DecodeField | pythonscripts/gen_diss2.py:177-291 | one field's emitted body computes `Step` |
| Decoder.Decode | pythonscripts/gen_diss2.py:146-291 | the whole pass, including the empty-buffer return, computes `Dissection` |
| Decoder.StepCursor | pythonscripts/gen_diss2.py:177-291 | in the model, a field raises exactly when its length is unknown (the host errors listed under Left out are not modelled); it finishes exactly when the bytes fit, and then the cursor advances by exactly its length; otherwise cursor, values and locals are unchanged |
| Decoder.RunCursor | pythonscripts/gen_diss2.py:150-278 | the cursor never moves back and never passes the end of the buffer |
| Decoder.RunAppend | pythonscripts/gen_diss2.py:177-291 | after a field returns or raises, no later field is processed |
| Decoder.StepErrors | pythonscripts/gen_diss2.py:183-260 | a field only appends messages, always together with setting `dpi_error`; the static dissector appends none |
| Decoder.RunErrors | pythonscripts/gen_diss2.py:151-152 | `dpi_error` is set exactly when some message has been recorded, at every point of the pass |
| Decoder.DissectionErrors | pythonscripts/gen_diss2.py:147-152 | after any call, `dpi_error` holds exactly when there are messages; the static dissector has none |
| Decoder.StaticDecodesAsFull | pythonscripts/gen_diss2.py:428-526 | the static pass decodes the same cursor, values and locals as the full-validation pass and stops at the same point |
| Decoder.DissectionStaticAsFull | pythonscripts/gen_diss2.py:402-526 | the same for a whole dissector call |
| Decoder.ShortBuffer | pythonscripts/gen_diss2.py:181-262 | a short buffer returns; a bitfield or dynamic field appends "Not enough bytes for X"; a fixed field records nothing; the static dissector records nothing |
| Decoder.BitfieldDecoded | pythonscripts/gen_diss2.py:187-202 | a bitfield stores a binary string of 8*min_size characters that reads back as the unsigned value, with popcount ones; a mismatch with the expected count appends "Bitfield X expected N bits set, got M" and the pass goes on |
| Decoder.DecomposedAt | pythonscripts/gen_diss2.py:241-246 | entry `<name>_bf<i>` holds group i |
| Decoder.DecomposedOther | pythonscripts/gen_diss2.py:241-246 | the decomposition leaves every other key as it was |
| Decoder.FixedDecoded | pythonscripts/gen_diss2.py:208-235 | a fixed field stores what its extractor reads; integer fields keep their local; "X out of range" is appended exactly for an integer field with both bounds whose value lies outside them, and the value is still stored |
| Decoder.DynamicDecoded | pythonscripts/gen_diss2.py:250-278 | a dynamic field reads as many bytes as its size field holds; "X length out of range" is appended exactly when that length lies outside [min_size, max_size], and the field is still read |
| Decoder.SubfieldsDecoded | pythonscripts/gen_diss2.py:237-248 | a non-bitfield field with a positive count gets one entry per group holding that group; when the count divides the width, the groups fit and concatenate back to the value |
| Decoder.StepKeepsKeys | pythonscripts/gen_diss2.py:222 | keys are only added, and a field that finishes is in the table |
| Decoder.RunKeepsKeys | pythonscripts/gen_diss2.py:177-291 | a pass that finishes has an entry for every field it was given |
| Report.BytesText | pythonscripts/gen_diss2.py:307-308 | a string value shows as one character per byte |
| Report.Show | pythonscripts/gen_diss2.py:308 | `tostring`: a number shows as a non-empty string of decimal digits, a string as one character per byte, a bitfield as its binary string |
| Report.Summary | pythonscripts/gen_diss2.py:306-311 | the sorted, comma-joined parts are empty exactly when the value table is empty |
| Report.InfoColumn | pythonscripts/gen_diss2.py:301-311 | the column is written exactly when the pass finished; the static dissector's starts with "Static: ", and a full-validation dissector with `dpi_error` set writes a text starting with "[DPI Error: " |
| Report.PartInjective | pythonscripts/gen_diss2.py:308 | parts of different keys differ, so the part list has no repeats |
| Report.CollectParts | pythonscripts/gen_diss2.py:306-309 | whatever order `pairs` visits the keys in, the parts are one `k=v` per key without repeats |
| Report.ReportInfo | pythonscripts/gen_diss2.py:301-311 | the report statements write `InfoColumn`: the error report when `dpi_error`, otherwise the sorted summary |
| Report.RunClean | pythonscripts/gen_diss2.py:246 | the keys of a pass, including the sub-field keys, contain no '=' |
| Report.Dissect | pythonscripts/gen_diss2.py:146-312 | a whole dissector call: the decode pass, then the Info column |
| Report.SummaryParts | pythonscripts/gen_diss2.py:306-311 | the summary lists each key's part exactly once, in increasing byte order, and nothing else |
| Report.FullReport | pythonscripts/gen_diss2.py:301-311 | the full-validation dissector shows the error report exactly when it recorded messages, otherwise the summary, and nothing after an abort |
| Report.StaticReport | pythonscripts/gen_diss2.py:536-541 | the static dissector shows "Static: " and the summary of the values the full-validation dissector decodes, exactly when that one finishes its pass |
| Report.EmptyBufferNoReport | pythonscripts/gen_diss2.py:147 | an empty buffer returns before any field and writes no Info column |
| Scenarios.CleanPacket | pythonscripts/gen_diss2.py:180-311 | counter 5 and flags 0x07 with three ones expected: no message, Info `flags=00000111, seq=5` |
| Scenarios.BitCountMismatch | pythonscripts/gen_diss2.py:193-303 | flags 0x03: Info `[DPI Error: Bitfield flags expected 3 bits set, got 2]` |
| Scenarios.BitCountMismatchStatic | pythonscripts/gen_diss2.py:443-541 | the same packet in the static dissector: Info `Static: flags=00000011, seq=5` |
| Scenarios.TruncatedCounter | pythonscripts/gen_diss2.py:204-207 | a one-byte packet against a two-byte counter: nothing recorded, no Info |
| Scenarios.TruncatedFlags | pythonscripts/gen_diss2.py:181-186 | a packet that ends before the bitfield: "Not enough bytes for flags" recorded, no Info |
| Scenarios.DynamicPayload | pythonscripts/gen_diss2.py:250-278 | a length byte 3 then "abc": Info `len=3, payload=abc` |
| Scenarios.OverlongPayload | pythonscripts/gen_diss2.py:252-262 | length 11 against max_size 10 with one byte left: both the length message and the short-buffer message, then a return |
| Scenarios.BinaryOfFlags | pythonscripts/gen_diss2.py:193-199 | 0xA5 renders as `10100101`, with four ones, and reads back as 0xA5 |
| Scenarios.RegistrationExample | pythonscripts/gen_diss2.py:49-59 | a two-way decomposed word and a bitfield register `f_word, f_word_bf0, f_word_bf1, f_flags` |
| Findings.StaticDynamicAsWrittenRaises | pythonscripts/gen_diss2.py:484-496 | as emitted, the static dynamic branch raises exactly when the length is out of range or the buffer is short |
| Findings.StaticDynamicIntended | pythonscripts/gen_diss2.py:484-513 | the intended branch never raises on a known length, records nothing, returns exactly on a short buffer, and agrees with the emitted one wherever that does not raise |
| Findings.OverlongPayloadRaises | pythonscripts/gen_diss2.py:487-490 | length 11 against max_size 10 with the bytes present: the emitted branch raises, the intended one reads the payload |
| Findings.ShortPayloadRaises | pythonscripts/gen_diss2.py:492-496 | length 3 with two bytes present: the emitted branch raises, the intended one returns |

## Left out

- JSON loading, directory creation and file writing are I/O. The model starts from the parsed schema (`Configurations` takes the endpoint list).
- The Lua source text, ProtoField labels, `capitalize()` and expert-info texts are code emission. The model records only the `error_messages` entries.
- The Wireshark host API is a foreign call and is not modelled. This covers tree items, `append_text`, `pinfo.cols.protocol` and UDP `DissectorTable` registration.
- The debug `print` loops are diagnostic output.
- Float and double decoding (`string.unpack(">f"/">d")`) is floating point. The bytes are kept opaque (`Ieee`), and `Show` takes the host's rendering as a parameter.
- Decoder.FixedStep: a float field of fewer than 4 bytes, or a double of fewer than 8, makes `string.unpack(">f"/">d", …)` (lines 214-218, 269-273, 462-465 and 505-508) raise "data string too short" in Lua 5.3. The model stores `Ieee(bytes)` and finishes the step, in `DynamicStep` too: a 2-byte float field ends `Done` in the model and raises in the source.
- Decoder.Dissection: the model decodes any number of fields. Lua allows at most 200 local variables in one function. Each bitfield declares five (lines 188-199) and each fixed int two (lines 210-221), on top of the 3 parameters and 7 function-level locals (lines 145-167). A schema with 39 bitfields, or with 96 integer fields, therefore makes the file fail to load with "too many local variables". The main chunk's `local f_*` declarations (lines 84-138) reach the same limit.
- Decoder.StepCursor: the model raises only on an unknown length. The source also raises in cases the model finishes or returns: `1 << bits_per_field` when the count does not divide the width (lines 243, 286, 478 and 521); `popcount`'s `math.floor` (line 161) or `to_binary_str`'s `bit.rshift` (line 170) on the UInt64 of any 8-byte bitfield; `uint()` on 5 to 7 bytes; `bit.rshift` on a string value being decomposed (lines 244 and 287); and a float or double read that is too short (the Decoder.FixedStep line). Each is described on its own line here.
- Decoder.OutOfRange: the emitted range check also covers float and double fields. The model applies it only to int, bool and long, because the floating value is opaque here.
- The host's limits on `uint()` and `uint64()` are not modelled. These are reads wider than 4 or 8 bytes and zero-length reads. Values are unbounded naturals.
- Lua BitOp's 32-bit `bit.rshift`/`bit.band` are not modelled. Shifts and masks are exact on unbounded naturals.
- Decoder.WithSubfields: for a string or floating field with a count, the emitted code shifts a value that is not an integer. The model splits the big-endian value of the field's bytes instead.
- Decoder.WithSubfields: `bits_per_field` is Lua float division (lines 240, 283, 475 and 518). When the count does not divide the width, `1 << bits_per_field` (lines 243, 286, 478 and 521) raises "number has no integer representation" in Lua 5.3 and later, the only versions in which `<<` parses. The model finishes the step instead, with groups of the rounded-down width; for example, a 1-byte int with `bitfields_count` 3 ends `Done`. Reconstruction of the value (`SubfieldsDecoded`, `SplitFieldValue`) is proved only when the count divides the width, which is the case the source runs without an error.
- Decoder.DynamicStep: the model assumes that the size field names an earlier field, and models every other size field as a Lua error (status `Raised`), without the host's message. The source evaluates the text as a Lua expression (lines 251 and 486) and raises only when its value is nil or not a number. So it reads 4 bytes for the size field `"4"`, reads the cursor's value for `"offset"`, and reads `8*min_size` for `"num_bits"` after a bitfield (line 192); the model returns `Raised` for all three.
- Decoder.DynamicStep: a float or double size field is always modelled as `Raised`, because floating values are opaque here. The source uses a float holding a whole number as the length: for the schema `n: float (4 bytes)` then `p: char`, dynamic on `n`, with min 1 and max 10, the bytes `40 40 00 00 61 62 63` give `n = 3.0`, and the source decodes `p = "abc"` and finishes.
- `uint64()` returns a UInt64 userdata, not a Lua number, and the model treats it as a natural like every other read. The source differs in four places. `popcount` (lines 161 and 414) fails at `math.floor(x / 2)` on the userdata of any nonzero 8-byte bitfield. `to_binary_str` (lines 170 and 422, called at 199 and 446) then fails at `bit.rshift(num, i)` on every 8-byte bitfield, a zero one included. So any 8-byte bitfield raises and writes no Info column, while `Decoder.BitfieldStep` ends `Done`. `buffer(offset, dynamic_length)` (lines 265-276 and 500-511) rejects it as a length when an 8-byte integer is a size field. `bit.rshift`/`bit.band` in the decomposition (lines 244, 287, 479 and 522) do not take it either.
- Schema.FieldSpec: field names are opaque map keys in the model. The generator writes each name into the Lua as an identifier (`local <name> = …`, `<name>_item`, `bf_fields_<name>`). The model therefore assumes names are Lua identifiers distinct from the dissector's own locals and from the globals it uses: `buffer`, `pinfo`, `subtree`, `offset`, `dpi_error`, `error_messages`, `parsed_values`, `field_values`, `table`, `bit`, `math`, `string`, `tostring`, `pairs`, `popcount`, `to_binary_str`, `dynamic_length`, `num_bits`, `actual_bit_count`, `binary_str`, `min_val` and `max_val`. If a name breaks this, the source behaves differently. An int field named `offset` overwrites the cursor. A field named `table` makes every later `table.insert` and `table.sort` raise. A size field named `dynamic_length` reads the previous dynamic field's length. An int field named `num_bits` is shadowed by `local num_bits = … * 8` (line 192) after any bitfield, so a later dynamic field sized by it reads `8*min_size`. A name that is not an identifier stops the file from loading. `Report.Dissect`'s requirement that names contain no '=' is one consequence of this assumption.
- `TvbRange:string()` stopping at a NUL byte is not modelled. A string value is all of its bytes.
- Report.BytesText: `TvbRange:string()` decodes as ASCII by default and turns every byte of 0x80 or above into U+FFFD. The model keeps one character per byte with the byte's value, so its contract matches the source only for ASCII bytes.
- Report.Summary: `table.sort` compares strings with `strcoll`, so the order depends on the locale Wireshark runs under. The model sorts by byte value (`Text.Less`), which is the order in the C locale only; under en_US.UTF-8, for example, `B=1` and `a=2` sort the other way.
- `tostring` of numbers is rendered in decimal. Lua's float formatting is not modelled.

## Findings

| source | as written | input that shows it | evidently intended | confidence | as-written member | corrected member |
|---|---|---|---|---|---|---|
| pythonscripts/gen_diss2.py:484-496 | the static dissector's dynamic branch calls `table.insert(error_messages, …)`, but the static dissector declares no `error_messages`, so the call raises on an out-of-range length and on a short buffer | a dynamic `payload` (max_size 10) whose size field reads 11, followed by eleven bytes; or a size field reading 3 with two bytes left | as in the rest of the static dissector: record no message, read the field when it fits and return when the buffer is short | not executed | Findings.StaticDynamicAsWrittenRaises | Findings.StaticDynamicIntended |

Everywhere else, the model uses the intended branch: `Decoder.DynamicStep` in `Static` mode.
