/** The bit-level helpers every generated dissector carries: the big-endian
    unsigned read of `TvbRange:uint()`/`uint64()`, `popcount`,
    `to_binary_str`, and the split of a value into equal-width groups, most
    significant first. Values are unbounded naturals: Lua BitOp's 32-bit
    shifts and masks are not modelled. */
module Bits {
  import opened Arith

  type Byte = b: int | 0 <= b < 256

  /** Big-endian unsigned value of a byte string. */
  function BigEndian(s: seq<Byte>): (r: nat)
    ensures r == 0 <==> forall i :: 0 <= i < |s| ==> s[i] == 0
  {
    if s == [] then 0 else BigEndian(s[..|s| - 1]) * 256 + s[|s| - 1]
  }

  lemma {:induction false} BigEndianBound(s: seq<Byte>)
    ensures BigEndian(s) < Pow2(8 * |s|)
  {
    if s != [] {
      var p := s[..|s| - 1];
      BigEndianBound(p);
      Pow2Add(8 * |p|, 8);
      assert Pow2(8) == 256;
      assert 8 * |s| == 8 * |p| + 8;
      MulMono(BigEndian(p) + 1, Pow2(8 * |p|), 256);
    }
  }

  /** Number of 1 bits, halving the value (the spec of `popcount`). */
  function PopCount(x: nat): nat
  {
    if x == 0 then 0 else x % 2 + PopCount(x / 2)
  }

  /** `popcount(x)`: the while loop adding `x % 2` and halving `x`. */
  method Popcount(x0: nat) returns (count: nat)
    ensures count == PopCount(x0)
  {
    count := 0;
    var x := x0;
    while x > 0
      invariant count + PopCount(x) == PopCount(x0)
      decreases x
    {
      count := count + x % 2;
      x := x / 2;
    }
  }

  function BitChar(b: nat): char
    requires b < 2
  {
    if b == 1 then '1' else '0'
  }

  /** The low n bits of v as '0'/'1' characters, most significant first. */
  function BinaryString(v: nat, n: nat): (s: string)
    ensures |s| == n
    ensures forall k :: 0 <= k < |s| ==> s[k] == '0' || s[k] == '1'
    decreases n
  {
    if n == 0 then [] else BinaryString(v / 2, n - 1) + [BitChar(v % 2)]
  }

  /** `to_binary_str(num, bits)`: for i from bits-1 down to 0 append bit i. */
  method ToBinaryStr(num: nat, bits: nat) returns (s: string)
    ensures s == BinaryString(num, bits)
  {
    s := "";
    var i := bits;
    while i > 0
      invariant 0 <= i <= bits
      invariant s == BinaryString(Shr(num, i), bits - i)
    {
      var bitVal := Shr(num, i - 1);
      assert bitVal / 2 == Shr(num, i) by {
        DivDiv(num, Pow2(i - 1), 2);
      }
      s := s + (if bitVal % 2 == 1 then "1" else "0");
      i := i - 1;
    }
  }

  /** Character k of the string is bit n-1-k of v: most significant first. */
  lemma {:induction false} BinaryStringAt(v: nat, n: nat, k: nat)
    requires k < n
    ensures BinaryString(v, n)[k] == BitChar((v / Pow2(n - 1 - k)) % 2)
    decreases n
  {
    if k < n - 1 {
      BinaryStringAt(v / 2, n - 1, k);
      DivDiv(v, 2, Pow2(n - 2 - k));
      assert 2 * Pow2(n - 2 - k) == Pow2(n - 1 - k);
    }
  }

  /** Value of a '0'/'1' string read most significant first. */
  function FromBinary(s: string): nat
  {
    if s == [] then 0 else 2 * FromBinary(s[..|s| - 1]) + (if s[|s| - 1] == '1' then 1 else 0)
  }

  /** Reading back the binary string gives the low n bits of v. */
  lemma {:induction false} BinaryRoundTrip(v: nat, n: nat)
    ensures FromBinary(BinaryString(v, n)) == v % Pow2(n)
    decreases n
  {
    if n > 0 {
      var s := BinaryString(v, n);
      assert s[..|s| - 1] == BinaryString(v / 2, n - 1);
      BinaryRoundTrip(v / 2, n - 1);
      DivDiv(v, 2, Pow2(n - 1));
    }
  }

  /** Number of '1' characters. */
  function Ones(s: string): nat
  {
    if s == [] then 0 else Ones(s[..|s| - 1]) + (if s[|s| - 1] == '1' then 1 else 0)
  }

  /** For a value that fits, the binary string has popcount(v) ones. */
  lemma {:induction false} BinaryOnes(v: nat, n: nat)
    requires v < Pow2(n)
    ensures Ones(BinaryString(v, n)) == PopCount(v)
    decreases n
  {
    if n > 0 {
      var s := BinaryString(v, n);
      assert s[..|s| - 1] == BinaryString(v / 2, n - 1);
      BinaryOnes(v / 2, n - 1);
    }
  }

  /** `bit.rshift(v, s)` on an unbounded natural. */
  function Shr(v: nat, s: nat): (r: nat)
    ensures r == v / Pow2(s)
  {
    Quot(v, Pow2(s))
  }

  /** Group i of `count` groups of `width` bits: the source's
      `band(rshift(v, (count-1-i)*width), (1 << width) - 1)`. */
  function GroupAt(v: nat, width: nat, count: nat, i: nat): (g: nat)
    requires i < count
    ensures g < Pow2(width)
  {
    var k: nat := count - 1 - i;
    var m := Pow2(width);
    Shr(v, k * width) % m
  }

  function Groups(v: nat, width: nat, count: nat): (gs: seq<nat>)
    ensures |gs| == count
    ensures forall i :: 0 <= i < count ==> gs[i] == GroupAt(v, width, count, i)
  {
    seq(count, i requires 0 <= i < count => GroupAt(v, width, count, i))
  }

  /** Concatenation of groups of `width` bits, first group most significant. */
  function Combine(gs: seq<nat>, width: nat): nat
  {
    if gs == [] then 0 else Combine(gs[..|gs| - 1], width) * Pow2(width) + gs[|gs| - 1]
  }

  lemma MulSucc(k: nat, w: nat)
    ensures (k + 1) * w == w + k * w
  {
  }

  /** Group i of the value is group i of the value shifted by one group. */
  lemma GroupAtPeel(v: nat, width: nat, count: nat, i: nat)
    requires i + 1 < count
    ensures GroupAt(v, width, count, i) == GroupAt(Shr(v, width), width, count - 1, i)
  {
    var k := count - 2 - i;
    var shift := k * width;
    assert count - 1 - i == k + 1;
    MulSucc(k, width);
    assert (count - 1 - i) * width == width + shift;
    DivDiv(v, Pow2(width), Pow2(shift));
    Pow2Add(width, shift);
    assert Shr(v, (count - 1 - i) * width) == Shr(Shr(v, width), shift);
  }

  /** Dropping the last group is splitting the value shifted by one group. */
  lemma GroupsPeel(v: nat, width: nat, count: nat)
    requires count > 0
    ensures Groups(v, width, count) ==
      Groups(Shr(v, width), width, count - 1) + [v % Pow2(width)]
  {
    var a := Groups(v, width, count);
    var b := Groups(Shr(v, width), width, count - 1) + [v % Pow2(width)];
    forall i | 0 <= i < count ensures a[i] == b[i] {
      if i < count - 1 {
        GroupAtPeel(v, width, count, i);
      } else {
        assert (count - 1 - i) * width == 0;
      }
    }
  }

  /** The high part above `low` bits, shifted back up, plus the low part
      is the value modulo 2^(low + high). */
  lemma ShiftConcat(v: nat, low: nat, high: nat)
    ensures (Shr(v, low) % Pow2(high)) * Pow2(low) + v % Pow2(low) == v % Pow2(low + high)
  {
    DivDiv(v, Pow2(low), Pow2(high));
    Pow2Add(low, high);
  }

  /** Concatenating the groups is concatenating the groups of the value
      shifted by one group, followed by the last group. */
  lemma CombinePeel(v: nat, width: nat, count: nat)
    requires count > 0
    ensures Combine(Groups(v, width, count), width) ==
      Combine(Groups(Shr(v, width), width, count - 1), width) * Pow2(width) + v % Pow2(width)
  {
    var gs := Groups(v, width, count);
    GroupsPeel(v, width, count);
    assert gs[..|gs| - 1] == Groups(Shr(v, width), width, count - 1);
  }

  /** Concatenating the groups gives back the low count*width bits of v. */
  lemma {:induction false} GroupsReconstruct(v: nat, width: nat, count: nat)
    ensures Combine(Groups(v, width, count), width) == v % Pow2(count * width)
    decreases count
  {
    if count > 0 {
      var k: nat := count - 1;
      var rest := k * width;
      var hi := Combine(Groups(Shr(v, width), width, k), width);
      CombinePeel(v, width, count);
      GroupsReconstruct(Shr(v, width), width, k);
      assert hi == Shr(v, width) % Pow2(rest);
      ShiftConcat(v, width, rest);
      assert hi * Pow2(width) + v % Pow2(width) == v % Pow2(width + rest);
      MulSucc(k, width);
      assert count * width == width + rest;
    }
  }

  /** A field of `bits` bits split into `count` groups of `bits / count`
      bits: each group fits its width, and when count divides bits their
      concatenation is the field value itself. */
  lemma SplitFieldValue(v: nat, bits: nat, count: nat)
    requires count > 0 && bits % count == 0 && v < Pow2(bits)
    ensures forall i :: 0 <= i < count ==> Groups(v, bits / count, count)[i] < Pow2(bits / count)
    ensures Combine(Groups(v, bits / count, count), bits / count) == v
  {
    GroupsReconstruct(v, bits / count, count);
    DivExact(bits, count);
    SmallMod(v, bits);
  }
}
