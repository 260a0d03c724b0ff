/** Decimal text of unsigned integers, as Swift's string interpolation
    prints them (no sign, no leading zeros, "0" for zero), the reader that
    turns such text back into the number, and the splitting and joining of
    text at dots. */
module Decimal {

  predicate IsDigit(c: char) { '0' <= c <= '9' }

  predicate AllDigits(s: string) { forall i :: 0 <= i < |s| ==> IsDigit(s[i]) }

  /** Text as the formatter produces it: at least one digit, and no leading
      zero unless the text is "0" itself. */
  predicate Canonical(s: string)
  {
    1 <= |s| && AllDigits(s) && (s[0] == '0' ==> |s| == 1)
  }

  function DigitChar(d: nat): (c: char)
    requires d < 10
    ensures IsDigit(c)
  {
    (48 + d) as char
  }

  function DigitValue(c: char): (d: nat)
    requires IsDigit(c)
    ensures d < 10 && DigitChar(d) == c
  {
    (c as int) - 48
  }

  /** `"\(n)"` for an unsigned `n`. */
  function Format(n: nat): (s: string)
    ensures Canonical(s)
    ensures s[0] == '0' <==> n == 0
    ensures '.' !in s
    decreases n
  {
    if n < 10 then [DigitChar(n)] else Format(n / 10) + [DigitChar(n % 10)]
  }

  /** The number a string of decimal digits denotes. */
  function Value(s: string): nat
    requires AllDigits(s)
    decreases |s|
  {
    if s == [] then 0 else Value(s[..|s| - 1]) * 10 + DigitValue(s[|s| - 1])
  }

  /** Reading the printed text gives the number back. */
  lemma {:induction false} ValueOfFormat(n: nat)
    ensures Value(Format(n)) == n
    decreases n
  {
    var s := Format(n);
    if n >= 10 {
      ValueOfFormat(n / 10);
      assert s[..|s| - 1] == Format(n / 10);
    }
  }

  /** A canonical text with a non-zero first digit denotes a positive number. */
  lemma {:induction false} ValuePositive(s: string)
    requires Canonical(s) && s[0] != '0'
    ensures Value(s) > 0
    decreases |s|
  {
    if |s| > 1 {
      ValuePositive(s[..|s| - 1]);
    }
  }

  /** Printing the number a canonical text denotes gives the same text:
      canonical texts and numbers correspond one to one. */
  lemma {:induction false} FormatOfValue(s: string)
    requires Canonical(s)
    ensures Format(Value(s)) == s
    decreases |s|
  {
    if |s| > 1 {
      var p := s[..|s| - 1];
      assert Canonical(p);
      ValuePositive(p);
      FormatOfValue(p);
      var d := DigitValue(s[|s| - 1]);
      assert Value(s) / 10 == Value(p) && Value(s) % 10 == d;
      assert s == p + [s[|s| - 1]];
    }
  }

  /** A number below 256 prints with at most three digits. */
  lemma FormatLength(n: nat)
    requires n < 0x100
    ensures |Format(n)| <= 3
  {
    if n >= 10 {
      assert n / 10 < 26;
      if n / 10 >= 10 {
        assert n / 10 / 10 < 10;
        assert |Format(n / 10)| == |Format(n / 10 / 10)| + 1;
      }
    }
  }

  /** The pieces of `s` between dots, from left to right; `s` with no dot is
      one piece. */
  function Fields(s: string): (r: seq<string>)
    ensures 1 <= |r|
    ensures forall k :: 0 <= k < |r| ==> '.' !in r[k]
    decreases |s|
  {
    if s == [] then [""]
    else
      var rest := Fields(s[1..]);
      if s[0] == '.' then [""] + rest else [[s[0]] + rest[0]] + rest[1..]
  }

  /** The pieces written out with a dot between each two. */
  function Join(parts: seq<string>): string
    requires 1 <= |parts|
    decreases |parts|
  {
    if |parts| == 1 then parts[0] else parts[0] + "." + Join(parts[1..])
  }

  /** Text without a dot is a single piece. */
  lemma {:induction false} FieldsNoDot(a: string)
    requires '.' !in a
    ensures Fields(a) == [a]
    decreases |a|
  {
    if a != [] {
      FieldsNoDot(a[1..]);
      assert a[0] != '.';
      assert [a[0]] + a[1..] == a;
    }
  }

  /** Splitting at the first dot. */
  lemma {:induction false} FieldsAtDot(a: string, b: string)
    requires '.' !in a
    ensures Fields(a + "." + b) == [a] + Fields(b)
    decreases |a|
  {
    var s := a + "." + b;
    if a == [] {
      assert s[1..] == b;
    } else {
      assert s[1..] == a[1..] + "." + b;
      FieldsAtDot(a[1..], b);
      assert [s[0]] + a[1..] == a;
    }
  }

  /** Splitting undoes joining pieces that hold no dot. */
  lemma {:induction false} FieldsOfJoin(parts: seq<string>)
    requires 1 <= |parts|
    requires forall k :: 0 <= k < |parts| ==> '.' !in parts[k]
    ensures Fields(Join(parts)) == parts
    decreases |parts|
  {
    if |parts| == 1 {
      FieldsNoDot(parts[0]);
    } else {
      FieldsAtDot(parts[0], Join(parts[1..]));
      FieldsOfJoin(parts[1..]);
    }
  }

  /** Joining undoes splitting. */
  lemma {:induction false} JoinOfFields(s: string)
    ensures Join(Fields(s)) == s
    decreases |s|
  {
    if s != [] {
      var rest := Fields(s[1..]);
      JoinOfFields(s[1..]);
      if s[0] == '.' {
        assert s == "." + s[1..];
      } else if |rest| == 1 {
        assert s == [s[0]] + s[1..];
      } else {
        assert Join(rest) == rest[0] + "." + Join(rest[1..]);
        assert s == [s[0]] + s[1..];
      }
    }
  }
}
