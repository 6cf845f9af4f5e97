/** Text helpers shared by the registration list and the report: decimal
    rendering of numbers (Python's `str(int)`, Lua's `tostring` and `..` on
    integers), `table.concat`, and the byte order `table.sort` uses on strings
    (the C locale), with a sort and the uniqueness of sorted orderings. */
module Text {

  predicate IsDigit(c: char) { '0' <= c <= '9' }

  function DigitChar(d: nat): (c: char)
    requires d < 10
    ensures IsDigit(c) && (c as int) - ('0' as int) == d
  {
    (('0' as int) + d) as char
  }

  /** Decimal rendering of a natural, without leading zeros. */
  function NatToString(n: nat): (s: string)
    ensures |s| >= 1
    ensures forall i :: 0 <= i < |s| ==> IsDigit(s[i])
    ensures n >= 10 ==> s[0] != '0'
  {
    if n < 10 then [DigitChar(n)] else NatToString(n / 10) + [DigitChar(n % 10)]
  }

  function DigitValue(c: char): nat
    requires IsDigit(c)
  {
    (c as int) - ('0' as int)
  }

  /** Value of a string of decimal digits (the inverse of NatToString). */
  function ParseNat(s: string): nat
    requires forall i :: 0 <= i < |s| ==> IsDigit(s[i])
  {
    if s == [] then 0
    else 10 * ParseNat(s[..|s| - 1]) + DigitValue(s[|s| - 1])
  }

  lemma {:induction false} ParseNatToString(n: nat)
    ensures ParseNat(NatToString(n)) == n
  {
    if n >= 10 {
      var s := NatToString(n);
      assert s[..|s| - 1] == NatToString(n / 10);
      ParseNatToString(n / 10);
    }
  }

  lemma NatToStringInjective(a: nat, b: nat)
    requires NatToString(a) == NatToString(b)
    ensures a == b
  {
    ParseNatToString(a);
    ParseNatToString(b);
  }

  /** Python's `str()` of an int, with a leading minus for negatives. */
  function IntToString(i: int): (s: string)
    ensures |s| >= 1
    ensures (s[0] == '-') <==> i < 0
  {
    if i < 0 then "-" + NatToString(-i) else NatToString(i)
  }

  /** `table.concat(parts, sep)`: the parts with sep between neighbours. */
  function Join(parts: seq<string>, sep: string): (r: string)
    ensures parts == [] ==> r == ""
    ensures |parts| == 1 ==> r == parts[0]
    ensures parts != [] ==> parts[0] <= r
  {
    if parts == [] then ""
    else if |parts| == 1 then parts[0]
    else parts[0] + sep + Join(parts[1..], sep)
  }

  /** Byte-wise lexicographic order: a proper prefix comes first. */
  predicate Less(a: string, b: string)
  {
    if a == [] then b != []
    else if b == [] then false
    else if a[0] != b[0] then a[0] < b[0]
    else Less(a[1..], b[1..])
  }

  lemma {:induction false} LessIrreflexive(a: string)
    ensures !Less(a, a)
  {
    if a != [] {
      LessIrreflexive(a[1..]);
    }
  }

  lemma {:induction false} LessTransitive(a: string, b: string, c: string)
    requires Less(a, b) && Less(b, c)
    ensures Less(a, c)
  {
    if a != [] && b != [] && c != [] && a[0] == b[0] && b[0] == c[0] {
      LessTransitive(a[1..], b[1..], c[1..]);
    }
  }

  lemma {:induction false} LessTotal(a: string, b: string)
    ensures a == b || Less(a, b) || Less(b, a)
  {
    if a != [] && b != [] && a[0] == b[0] {
      LessTotal(a[1..], b[1..]);
      if a[1..] == b[1..] {
        assert a == [a[0]] + a[1..] && b == [b[0]] + b[1..];
      }
    }
  }

  lemma LessAsymmetric(a: string, b: string)
    requires Less(a, b)
    ensures !Less(b, a)
  {
    if Less(b, a) {
      LessTransitive(a, b, a);
      LessIrreflexive(a);
    }
  }

  /** Strictly increasing in the byte order (so also free of repeats). */
  predicate Sorted(s: seq<string>)
  {
    forall i, j :: 0 <= i < j < |s| ==> Less(s[i], s[j])
  }

  predicate Distinct(s: seq<string>)
  {
    forall i, j :: 0 <= i < j < |s| ==> s[i] != s[j]
  }

  /** A string below every element of a sorted sequence can head it. */
  lemma ConsSorted(x: string, t: seq<string>)
    requires Sorted(t)
    requires forall y :: y in t ==> Less(x, y)
    ensures Sorted([x] + t)
  {
    var r := [x] + t;
    forall i, j | 0 <= i < j < |r| ensures Less(r[i], r[j]) {
      assert r[j] == t[j - 1] && t[j - 1] in t;
      if i > 0 {
        assert r[i] == t[i - 1];
      }
    }
  }

  /** Inserts x at its place in a sorted sequence. */
  function Insert(x: string, s: seq<string>): (r: seq<string>)
    requires Sorted(s) && x !in s
    ensures Sorted(r)
    ensures multiset(r) == multiset(s) + multiset{x}
    decreases |s|, 1
  {
    if s == [] then [x]
    else if Less(x, s[0]) then
      SortedTail(s);
      assert forall y :: y in s ==> Less(x, y) by {
        forall y | y in s ensures Less(x, y) {
          if y != s[0] {
            assert y in s[1..] by { assert s == [s[0]] + s[1..]; }
            LessTransitive(x, s[0], y);
          }
        }
      }
      ConsSorted(x, s);
      [x] + s
    else
      InsertAfterHead(x, s)
  }

  /** Insert when x goes after the head. */
  function InsertAfterHead(x: string, s: seq<string>): (r: seq<string>)
    requires Sorted(s) && x !in s && s != [] && !Less(x, s[0])
    ensures Sorted(r)
    ensures multiset(r) == multiset(s) + multiset{x}
    decreases |s|, 0
  {
    LessTotal(x, s[0]);
    SortedTail(s);
    assert s == [s[0]] + s[1..];
    var t := Insert(x, s[1..]);
    assert forall y :: y in t ==> Less(s[0], y) by {
      forall y | y in t ensures Less(s[0], y) {
        assert y in multiset(t);
      }
    }
    ConsSorted(s[0], t);
    [s[0]] + t
  }

  /** `table.sort` on a list of distinct strings, as insertion sort. */
  function Sort(s: seq<string>): (r: seq<string>)
    requires Distinct(s)
    ensures Sorted(r)
    ensures multiset(r) == multiset(s)
  {
    if s == [] then []
    else
      assert s == s[..|s| - 1] + [s[|s| - 1]];
      var t := Sort(s[..|s| - 1]);
      assert s[|s| - 1] !in s[..|s| - 1];
      assert s[|s| - 1] !in multiset(t);
      Insert(s[|s| - 1], t)
  }

  lemma {:induction false} SortedTail(s: seq<string>)
    requires Sorted(s) && s != []
    ensures Sorted(s[1..]) && s[0] !in s[1..]
    ensures forall y :: y in s[1..] ==> Less(s[0], y)
  {
    forall y | y in s[1..] ensures Less(s[0], y) {
      var j :| 0 <= j < |s[1..]| && s[1..][j] == y;
      assert s[j + 1] == y;
    }
    if s[0] in s[1..] {
      LessIrreflexive(s[0]);
    }
  }

  /** Two sorted sequences with the same elements are the same sequence:
      the order in which the parts were collected does not matter. */
  lemma {:induction false} SortedUnique(a: seq<string>, b: seq<string>)
    requires Sorted(a) && Sorted(b)
    requires forall x :: x in a <==> x in b
    ensures a == b
  {
    if a != [] {
      assert a[0] in b;
    }
    if b != [] {
      assert b[0] in a;
    }
    if a != [] && b != [] {
      SortedTail(a);
      SortedTail(b);
      assert a[0] in b && b[0] in a;
      if a[0] != b[0] {
        assert Less(b[0], a[0]) && Less(a[0], b[0]);
        LessAsymmetric(a[0], b[0]);
      } else {
        forall x ensures x in a[1..] <==> x in b[1..] {
          assert x in a <==> x in [a[0]] + a[1..] by { assert a == [a[0]] + a[1..]; }
          assert x in b <==> x in [b[0]] + b[1..] by { assert b == [b[0]] + b[1..]; }
          if x == a[0] {
            assert x !in a[1..] && x !in b[1..];
          }
        }
        SortedUnique(a[1..], b[1..]);
        assert a == [a[0]] + a[1..] && b == [b[0]] + b[1..];
      }
    }
  }

  /** Every nonempty finite set of strings has a least element. */
  lemma {:induction false} MinExists(s: set<string>)
    requires s != {}
    ensures exists m :: m in s && forall y :: y in s && y != m ==> Less(m, y)
    decreases |s|
  {
    var x :| x in s;
    if s == {x} {
      assert forall y :: y in s && y != x ==> Less(x, y);
    } else {
      var rest := s - {x};
      MinExists(rest);
      var m :| m in rest && forall y :: y in rest && y != m ==> Less(m, y);
      LessTotal(m, x);
      if Less(m, x) {
        forall y | y in s && y != m ensures Less(m, y) {
          if y != x {
            assert y in rest;
          }
        }
      } else {
        forall y | y in s && y != x ensures Less(x, y) {
          if y != m {
            assert y in rest;
            LessTransitive(x, m, y);
          }
        }
      }
    }
  }

  /** The elements of a finite set of strings in increasing byte order:
      the summary order `table.sort` produces. */
  ghost function SortedOf(s: set<string>): (r: seq<string>)
    ensures Sorted(r)
    ensures forall x :: x in r <==> x in s
    decreases |s|
  {
    if s == {} then []
    else
      MinExists(s);
      var m :| m in s && forall y :: y in s && y != m ==> Less(m, y);
      var t := SortedOf(s - {m});
      assert forall j :: 0 <= j < |t| ==> Less(m, t[j]) by {
        forall j | 0 <= j < |t| ensures Less(m, t[j]) {
          assert t[j] in t;
        }
      }
      [m] + t
  }
}
