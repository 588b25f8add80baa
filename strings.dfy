/** The JavaScript string operations the core relies on, for the cases it uses:
    a global one-character `replace`, `split` on one character, and the
    conversions between integers and decimal text (`'' + n` and `+s`). */
module Strings {
  import opened Common

  /** `s.replace(/c/g, rep)`: every occurrence of the character `c` becomes `rep`. */
  function ReplaceAll(s: string, c: char, rep: string): (r: string)
    ensures c !in s ==> r == s
    ensures c !in rep ==> c !in r
    ensures forall d :: d in r ==> d in s || d in rep
    decreases |s|
  {
    if |s| == 0 then ""
    else (if s[0] == c then rep else [s[0]]) + ReplaceAll(s[1..], c, rep)
  }

  /** Replacing character by character distributes over concatenation. */
  lemma {:induction false} ReplaceAllConcat(a: string, b: string, c: char, rep: string)
    ensures ReplaceAll(a + b, c, rep) == ReplaceAll(a, c, rep) + ReplaceAll(b, c, rep)
    decreases |a|
  {
    if |a| > 0 {
      assert (a + b)[0] == a[0];
      assert (a + b)[1..] == a[1..] + b;
      ReplaceAllConcat(a[1..], b, c, rep);
    } else {
      assert a + b == b;
    }
  }

  /** On a one-character string. */
  lemma ReplaceAllChar(x: char, c: char, rep: string)
    ensures ReplaceAll([x], c, rep) == if x == c then rep else [x]
  {
    assert [x][1..] == "";
  }

  /** Two successive replacements distribute over concatenation. */
  lemma ReplaceTwiceConcat(a: string, b: string, c1: char, rep1: string, c2: char, rep2: string)
    ensures ReplaceAll(ReplaceAll(a + b, c1, rep1), c2, rep2)
              == ReplaceAll(ReplaceAll(a, c1, rep1), c2, rep2) + ReplaceAll(ReplaceAll(b, c1, rep1), c2, rep2)
  {
    ReplaceAllConcat(a, b, c1, rep1);
    ReplaceAllConcat(ReplaceAll(a, c1, rep1), ReplaceAll(b, c1, rep1), c2, rep2);
  }

  /** `s.split(sep)`: the maximal `sep`-free pieces of `s`, in order. */
  function Split(s: string, sep: char): (r: seq<string>)
    ensures |r| >= 1
    ensures forall i :: 0 <= i < |r| ==> sep !in r[i]
    decreases |s|
  {
    if |s| == 0 then [""]
    else
      var rest := Split(s[1..], sep);
      if s[0] == sep then [""] + rest else [[s[0]] + rest[0]] + rest[1..]
  }

  /** A string without the separator splits into itself alone. */
  lemma {:induction false} SplitNoSeparator(a: string, sep: char)
    requires sep !in a
    ensures Split(a, sep) == [a]
    decreases |a|
  {
    if |a| > 0 {
      SplitNoSeparator(a[1..], sep);
      assert [a[0]] + a[1..] == a;
    }
  }

  /** The piece before the first separator is split off intact. */
  lemma {:induction false} SplitFirst(a: string, sep: char, b: string)
    requires sep !in a
    ensures Split(a + [sep] + b, sep) == [a] + Split(b, sep)
    decreases |a|
  {
    var s := a + [sep] + b;
    if |a| == 0 {
      assert s[1..] == b;
    } else {
      assert s[0] == a[0];
      assert s[1..] == a[1..] + [sep] + b;
      SplitFirst(a[1..], sep, b);
      assert [a[0]] + a[1..] == a;
    }
  }

  /** Two separator-free pieces joined by the separator split back apart. */
  lemma {:induction false} SplitTwo(b: string, c: string, sep: char)
    requires sep !in b && sep !in c
    ensures Split(b + [sep] + c, sep) == [b, c]
  {
    SplitNoSeparator(c, sep);
    SplitFirst(b, sep, c);
  }

  /** Three separator-free pieces joined by the separator split back apart. */
  lemma {:induction false} SplitThree(a: string, b: string, c: string, sep: char)
    requires sep !in a && sep !in b && sep !in c
    ensures Split(a + [sep] + b + [sep] + c, sep) == [a, b, c]
  {
    var tail := b + [sep] + c;
    SplitTwo(b, c, sep);
    SplitFirst(a, sep, tail);
    assert a + [sep] + b + [sep] + c == a + [sep] + tail;
  }

  predicate IsDigit(c: char) { '0' <= c <= '9' }

  function DigitChar(d: int): (c: char)
    requires 0 <= d < 10
    ensures IsDigit(c) && c as int - '0' as int == d
  {
    ('0' as int + d) as char
  }

  /** The decimal text of a natural number, as `'' + n` prints it. */
  function NatToString(n: nat): (s: string)
    ensures |s| >= 1
    ensures forall i :: 0 <= i < |s| ==> IsDigit(s[i])
    decreases n
  {
    if n < 10 then [DigitChar(n)] else NatToString(n / 10) + [DigitChar(n % 10)]
  }

  /** `'' + i` for an integer `i`. */
  function IntToString(i: int): (s: string)
    ensures '.' !in s
  {
    if i < 0 then "-" + NatToString(-i) else NatToString(i)
  }

  /** Every character is a decimal digit. */
  predicate AllDigits(s: string)
  {
    forall i :: 0 <= i < |s| ==> IsDigit(s[i])
  }

  /** The value of a string of decimal digits, most significant first. */
  function DigitsValue(s: string): nat
    requires AllDigits(s)
    decreases |s|
  {
    if |s| == 0 then 0
    else
      assert IsDigit(s[|s| - 1]);
      DigitsValue(s[..|s| - 1]) * 10 + (s[|s| - 1] as int - '0' as int)
  }

  /** `+s`, JavaScript's number conversion, on the strings that occur here:
      the empty string is 0, digits with an optional leading '-' are their
      value, and anything else is NaN (None). */
  function ToNumber(s: string): (r: Option<int>)
    ensures s == "" ==> r == Some(0)
    ensures s != "" && AllDigits(s) ==> r == Some(DigitsValue(s))
    ensures |s| > 1 && s[0] == '-' && AllDigits(s[1..]) ==> r == Some(-(DigitsValue(s[1..]) as int))
    ensures r.None? <==> s != "" && !AllDigits(s) && !(|s| > 1 && s[0] == '-' && AllDigits(s[1..]))
    ensures r.Some? && s != "" && s[0] != '-' ==> r.value >= 0
  {
    if s == "" then Some(0)
    else if s[0] == '-' && |s| > 1 && AllDigits(s[1..]) then
      var magnitude: int := DigitsValue(s[1..]);
      Some(-magnitude)
    else if AllDigits(s) then Some(DigitsValue(s))
    else None
  }

  lemma {:induction false} DigitsOfNat(n: nat)
    ensures DigitsValue(NatToString(n)) == n
    decreases n
  {
    if n >= 10 {
      var s := NatToString(n);
      assert s[..|s| - 1] == NatToString(n / 10);
      DigitsOfNat(n / 10);
    }
  }

  /** Printing an integer and converting the text back gives the integer. */
  lemma ToNumberOfIntToString(i: int)
    ensures ToNumber(IntToString(i)) == Some(i)
  {
    var s := IntToString(i);
    if i < 0 {
      var digits := NatToString(-i);
      assert s == "-" + digits;
      assert s[1..] == digits;
      assert s[0] == '-' && |s| > 1;
      assert AllDigits(s[1..]);
      DigitsOfNat(-i);
      var magnitude: int := DigitsValue(digits);
      assert ToNumber(s) == Some(-magnitude);
    } else {
      assert s == NatToString(i);
      assert IsDigit(s[0]);
      DigitsOfNat(i);
    }
  }
}
