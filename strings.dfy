/** The `java.lang.String` operations the model relies on: `compareTo`, `trim`,
    `split(",")` and the decimal rendering of an `int`. A Java string is a
    sequence of UTF-16 code units; here it is a sequence of Dafny `char`s,
    which are Unicode scalar values, and `compareTo` compares their code
    points. The two agree on every character of the Basic Multilingual Plane
    outside the surrogate range. */
module Strings {
  import Ordering

  /** `a.compareTo(b)`: the difference of the first differing characters, or
      the difference of the lengths when one string is a prefix of the other. */
  function CompareStrings(a: string, b: string): int {
    if a == [] || b == [] then |a| - |b|
    else if a[0] != b[0] then a[0] as int - b[0] as int
    else CompareStrings(a[1..], b[1..])
  }

  lemma {:induction false} CompareStringsZeroIffEqual(a: string, b: string)
    ensures CompareStrings(a, b) == 0 <==> a == b
  {
    if a != [] && b != [] && a[0] == b[0] {
      CompareStringsZeroIffEqual(a[1..], b[1..]);
      assert a == [a[0]] + a[1..] && b == [b[0]] + b[1..];
    }
  }

  lemma {:induction false} CompareStringsAntisymmetric(a: string, b: string)
    ensures CompareStrings(a, b) == -CompareStrings(b, a)
  {
    if a != [] && b != [] && a[0] == b[0] {
      CompareStringsAntisymmetric(a[1..], b[1..]);
    }
  }

  lemma {:induction false} CompareStringsTransitive(a: string, b: string, c: string)
    requires CompareStrings(a, b) <= 0 && CompareStrings(b, c) <= 0
    ensures CompareStrings(a, c) <= 0
  {
    if a != [] && b != [] && c != [] && a[0] == b[0] && b[0] == c[0] {
      CompareStringsTransitive(a[1..], b[1..], c[1..]);
    }
  }

  /** `String::compareTo` as a comparator: it meets the `Comparator` contract. */
  function StringOrder(): (cmp: (string, string) -> int)
    ensures forall a, b :: cmp(a, b) == CompareStrings(a, b)
  {
    (a, b) => CompareStrings(a, b)
  }

  lemma StringOrderIsComparator()
    ensures Ordering.IsComparator(StringOrder())
  {
    var cmp := StringOrder();
    forall a, b ensures Ordering.Sign(cmp(a, b)) == -Ordering.Sign(cmp(b, a)) {
      CompareStringsAntisymmetric(a, b);
    }
    forall a, b, c ensures Ordering.Transitive(cmp, a, b, c) {
      if cmp(a, b) <= 0 && cmp(b, c) <= 0 {
        CompareStringsTransitive(a, b, c);
      }
    }
  }

  /** Java's `trim` removes every leading and trailing character whose code is
      at most that of the space character. */
  predicate IsTrimmed(c: char) {
    c <= ' '
  }

  /** The number of removable characters at the front of `s`. */
  function LeadingCount(s: string): (n: nat)
    ensures n <= |s|
    ensures forall k :: 0 <= k < n ==> IsTrimmed(s[k])
    ensures n == |s| || !IsTrimmed(s[n])
  {
    if s != [] && IsTrimmed(s[0]) then 1 + LeadingCount(s[1..]) else 0
  }

  /** Moves the end `j` of `s[lo..j]` left past removable characters. */
  function TrimEndIndex(s: string, lo: nat, j: nat): (hi: nat)
    requires lo <= j <= |s|
    ensures lo <= hi <= j
    ensures forall k :: hi <= k < j ==> IsTrimmed(s[k])
    ensures hi == lo || !IsTrimmed(s[hi - 1])
    decreases j
  {
    if j > lo && IsTrimmed(s[j - 1]) then TrimEndIndex(s, lo, j - 1) else j
  }

  /** `s.trim()`. */
  function Trim(s: string): string {
    var lo := LeadingCount(s);
    s[lo..TrimEndIndex(s, lo, |s|)]
  }

  /** The trimmed string is a substring of `s` with no removable character at
      either end, and everything cut away at either end is removable. */
  lemma TrimIsCore(s: string)
    ensures exists i, j ::
              && 0 <= i <= j <= |s| && Trim(s) == s[i..j]
              && (forall k :: 0 <= k < i ==> IsTrimmed(s[k]))
              && (forall k :: j <= k < |s| ==> IsTrimmed(s[k]))
    ensures Trim(s) == [] || (!IsTrimmed(Trim(s)[0]) && !IsTrimmed(Trim(s)[|Trim(s)| - 1]))
  {
    var i := LeadingCount(s);
    var j := TrimEndIndex(s, i, |s|);
    assert Trim(s) == s[i..j];
  }

  lemma TrimIdempotent(s: string)
    ensures Trim(Trim(s)) == Trim(s)
  {
    var r := Trim(s);
    TrimIsCore(s);
    assert LeadingCount(r) == 0;
    assert TrimEndIndex(r, 0, |r|) == |r|;
  }

  /** Every field between commas, in order: `n` commas give `n + 1` fields. */
  function Fields(s: string): (r: seq<string>)
    ensures |r| >= 1
    ensures forall i, k :: 0 <= i < |r| && 0 <= k < |r[i]| ==> r[i][k] != ','
  {
    if s == [] then [[]]
    else if s[0] == ',' then [[]] + Fields(s[1..])
    else
      var rest := Fields(s[1..]);
      [[s[0]] + rest[0]] + rest[1..]
  }

  /** Joins fields with a comma between each pair. */
  function JoinWithCommas(fields: seq<string>): string
    requires |fields| >= 1
  {
    if |fields| == 1 then fields[0] else fields[0] + [','] + JoinWithCommas(fields[1..])
  }

  /** Splitting on commas loses nothing: joining the fields rebuilds the line. */
  lemma {:induction false} FieldsJoin(s: string)
    ensures JoinWithCommas(Fields(s)) == s
  {
    if s == [] {
    } else if s[0] == ',' {
      FieldsJoin(s[1..]);
      assert s == [','] + s[1..];
    } else {
      var rest := Fields(s[1..]);
      FieldsJoin(s[1..]);
      if |rest| == 1 {
        assert s == [s[0]] + s[1..];
      } else {
        assert rest == [rest[0]] + rest[1..];
        assert JoinWithCommas(rest) == rest[0] + [','] + JoinWithCommas(rest[1..]);
        assert s == [s[0]] + s[1..];
      }
    }
  }

  lemma {:induction false} FieldsCount(s: string)
    ensures |Fields(s)| == multiset(s)[','] + 1
  {
    if s != [] {
      FieldsCount(s[1..]);
      assert s == [s[0]] + s[1..];
    }
  }

  function DropTrailingEmpty(fields: seq<string>): (r: seq<string>)
    ensures |r| <= |fields| && r == fields[..|r|]
    ensures r == [] || r[|r| - 1] != []
    ensures forall i :: |r| <= i < |fields| ==> fields[i] == []
  {
    if fields == [] || fields[|fields| - 1] != [] then fields
    else DropTrailingEmpty(fields[..|fields| - 1])
  }

  /** `s.split(",")`: the fields between commas with trailing empty fields
      removed; a string without a comma gives the one-element array `[s]`. */
  function Split(s: string): seq<string> {
    if ',' !in s then [s] else DropTrailingEmpty(Fields(s))
  }

  /** The fields `split` returns are the leading fields of the line, with only
      empty fields cut off the end; none contains a comma. */
  lemma SplitFacts(s: string)
    ensures |Split(s)| <= |Fields(s)| && Split(s) == Fields(s)[..|Split(s)|]
    ensures forall i :: |Split(s)| <= i < |Fields(s)| ==> Fields(s)[i] == []
    ensures forall i, k :: 0 <= i < |Split(s)| && 0 <= k < |Split(s)[i]| ==> Split(s)[i][k] != ','
    ensures ',' !in s ==> Split(s) == [s]
  {
    if ',' !in s {
      NoCommaOneField(s);
    }
  }

  lemma {:induction false} NoCommaOneField(s: string)
    requires ',' !in s
    ensures Fields(s) == [s]
  {
    if s != [] {
      NoCommaOneField(s[1..]);
      assert s == [s[0]] + s[1..];
    }
  }

  /** A comma-free field followed by a comma starts the field list. */
  lemma {:induction false} FieldsAfterComma(a: string, rest: string)
    requires ',' !in a
    ensures Fields(a + [','] + rest) == [a] + Fields(rest)
  {
    if a != [] {
      FieldsAfterComma(a[1..], rest);
      assert a + [','] + rest == [a[0]] + (a[1..] + [','] + rest);
      assert a == [a[0]] + a[1..];
    } else {
      assert a + [','] + rest == [','] + rest;
    }
  }

  /** Three comma-free fields joined by commas split back into the same three
      fields, provided the last is not empty (`split` would drop it). */
  lemma SplitThree(a: string, b: string, c: string)
    requires ',' !in a && ',' !in b && ',' !in c && c != []
    ensures Split(a + [','] + b + [','] + c) == [a, b, c]
  {
    var line := a + [','] + b + [','] + c;
    assert line == a + [','] + (b + [','] + c);
    FieldsAfterComma(a, b + [','] + c);
    FieldsAfterComma(b, c);
    NoCommaOneField(c);
    assert line[|a|] == ',';
  }

  /** The decimal digits of a natural number, most significant first. */
  function NatToString(n: nat): (r: string)
    ensures |r| >= 1
    ensures forall k :: 0 <= k < |r| ==> '0' <= r[k] <= '9'
    ensures |r| > 1 ==> r[0] != '0'
  {
    if n < 10 then [Digit(n)] else NatToString(n / 10) + [Digit(n % 10)]
  }

  function Digit(d: nat): (c: char)
    requires d < 10
    ensures '0' <= c <= '9' && c as int - '0' as int == d
  {
    ('0' as int + d) as char
  }

  /** The value of a string of decimal digits. */
  function DigitsValue(s: string): nat
    requires forall k :: 0 <= k < |s| ==> '0' <= s[k] <= '9'
  {
    if s == [] then 0 else DigitsValue(s[..|s| - 1]) * 10 + (s[|s| - 1] as int - '0' as int)
  }

  lemma {:induction false} NatToStringValue(n: nat)
    ensures DigitsValue(NatToString(n)) == n
  {
    if n >= 10 {
      NatToStringValue(n / 10);
      var r := NatToString(n);
      assert r[..|r| - 1] == NatToString(n / 10);
    }
  }

  /** `String.valueOf(int)`: a minus sign before the digits of a negative value. */
  function IntToString(i: int): (r: string)
    ensures i >= 0 ==> r == NatToString(i)
    ensures i < 0 ==> r == ['-'] + NatToString(-i)
  {
    if i < 0 then ['-'] + NatToString(-i) else NatToString(i)
  }
}
