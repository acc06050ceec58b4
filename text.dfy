/**
 * The few pieces of Python's string handling the partitioning core relies on:
 * `str.split(sep)`, `int(str)` in base 10, `f"{x}"` and `f"{x:04d}"` for ints.
 */
module Text {
  import opened Wrappers

  predicate IsDigit(c: char) { '0' <= c <= '9' }

  predicate AllDigits(s: string) { forall i :: 0 <= i < |s| ==> IsDigit(s[i]) }

  function DigitValue(c: char): nat
    requires IsDigit(c)
  {
    c as int - '0' as int
  }

  function DigitChar(d: nat): (c: char)
    requires d < 10
    ensures IsDigit(c) && DigitValue(c) == d
  {
    ('0' as int + d) as char
  }

  /**
   * The whitespace `int()` skips around an all-ASCII numeral: space, tab,
   * line feed, vertical tab, form feed and carriage return.
   */
  predicate IsSpace(c: char)
  {
    c == ' ' || 9 <= c as int <= 13
  }

  // ---------------------------------------------------------------------------
  // str.split(sep)
  // ---------------------------------------------------------------------------

  /** `s.split(sep)` for a one-character separator: the pieces between separators. */
  function Split(s: string, sep: char): (parts: seq<string>)
    ensures |parts| >= 1
    ensures forall i :: 0 <= i < |parts| ==> sep !in parts[i]
    decreases |s|
  {
    if |s| == 0 then [""]
    else
      var rest := Split(s[1..], sep);
      if s[0] == sep then [""] + rest
      else [[s[0]] + rest[0]] + rest[1..]
  }

  /** `sep.join(parts)`, the inverse of Split. */
  function Join(parts: seq<string>, sep: char): string
    requires |parts| >= 1
  {
    if |parts| == 1 then parts[0] else parts[0] + [sep] + Join(parts[1..], sep)
  }

  /** Number of occurrences of `c` in `s`. */
  function Count(s: string, c: char): nat
  {
    if |s| == 0 then 0 else (if s[0] == c then 1 else 0) + Count(s[1..], c)
  }

  /** Splitting and joining again gives back the original string. */
  lemma {:induction false} JoinSplit(s: string, sep: char)
    ensures Join(Split(s, sep), sep) == s
    decreases |s|
  {
    if |s| > 0 {
      JoinSplit(s[1..], sep);
      var rest := Split(s[1..], sep);
      if s[0] == sep {
        assert Split(s, sep)[1..] == rest;
        assert [s[0]] + s[1..] == s;
      } else {
        var head := [s[0]] + rest[0];
        if |rest| == 1 {
          assert Join(Split(s, sep), sep) == head;
        } else {
          assert Split(s, sep)[1..] == rest[1..];
          assert Join(rest, sep) == rest[0] + [sep] + Join(rest[1..], sep);
          assert Join(Split(s, sep), sep) == head + [sep] + Join(rest[1..], sep);
        }
        assert [s[0]] + s[1..] == s;
      }
    }
  }

  /** Joining separator-free pieces and splitting again gives back the pieces. */
  lemma {:induction false} SplitJoin(parts: seq<string>, sep: char)
    requires |parts| >= 1 && forall i :: 0 <= i < |parts| ==> sep !in parts[i]
    ensures Split(Join(parts, sep), sep) == parts
    decreases |parts|
  {
    if |parts| == 1 {
      SplitNoSep(parts[0], sep);
    } else {
      SplitJoin(parts[1..], sep);
      SplitConcat(parts[0], sep, Join(parts[1..], sep));
      assert [parts[0]] + parts[1..] == parts;
    }
  }

  /** One more piece than there are separators. */
  lemma {:induction false} SplitCount(s: string, sep: char)
    ensures |Split(s, sep)| == Count(s, sep) + 1
    decreases |s|
  {
    if |s| > 0 {
      SplitCount(s[1..], sep);
    }
  }

  /** A string without the separator is a single piece. */
  lemma {:induction false} SplitNoSep(a: string, sep: char)
    requires sep !in a
    ensures Split(a, sep) == [a]
    decreases |a|
  {
    if |a| > 0 {
      assert sep !in a[1..] by {
        forall i | 0 <= i < |a[1..]| ensures a[1..][i] != sep { assert a[1..][i] == a[i + 1]; }
      }
      SplitNoSep(a[1..], sep);
      assert [a[0]] + a[1..] == a;
    }
  }

  /** A separator after a separator-free prefix ends the first piece. */
  lemma {:induction false} SplitConcat(a: string, sep: char, b: string)
    requires sep !in a
    ensures Split(a + [sep] + b, sep) == [a] + Split(b, sep)
    decreases |a|
  {
    var s := a + [sep] + b;
    if |a| == 0 {
      assert s[0] == sep && s[1..] == b;
    } else {
      assert sep !in a[1..] by {
        forall i | 0 <= i < |a[1..]| ensures a[1..][i] != sep { assert a[1..][i] == a[i + 1]; }
      }
      SplitConcat(a[1..], sep, b);
      assert s[0] == a[0] && s[1..] == a[1..] + [sep] + b;
      assert [a[0]] + a[1..] == a;
    }
  }

  // ---------------------------------------------------------------------------
  // Formatting: f"{x}" and f"{x:04d}"
  // ---------------------------------------------------------------------------

  /** Decimal digits of `n`, most significant first, with no leading zero. */
  function Decimal(n: nat): (s: string)
    ensures |s| >= 1 && AllDigits(s)
    ensures s[0] == '0' ==> n == 0
    decreases n
  {
    if n < 10 then [DigitChar(n)] else Decimal(n / 10) + [DigitChar(n % 10)]
  }

  /** `f"{x}"` / `str(x)` for a Python int. */
  function IntToString(x: int): (s: string)
    ensures |s| >= 1 && (IsDigit(s[0]) || s[0] == '-') && IsDigit(s[|s| - 1])
    ensures forall i :: 0 <= i < |s| ==> IsDigit(s[i]) || (i == 0 && s[0] == '-')
  {
    if x < 0 then "-" + Decimal(-x) else Decimal(x)
  }

  function Zeros(n: nat): (z: string)
    ensures |z| == n && forall i :: 0 <= i < n ==> z[i] == '0'
  {
    seq(n, _ => '0')
  }

  /** Left-pads `s` with '0' to at least `width` characters. */
  function ZeroPad(s: string, width: nat): (r: string)
    ensures |r| == if |s| < width then width else |s|
  {
    if |s| < width then Zeros(width - |s|) + s else s
  }

  /**
   * `f"{x:04d}"`: at least four characters; the '0' fill goes between the
   * sign and the digits, so -1 is "-001".
   */
  function Format04(x: int): (s: string)
    ensures |s| >= 4
  {
    if x < 0 then "-" + ZeroPad(Decimal(-x), 3) else ZeroPad(Decimal(x), 4)
  }

  /** Strings with the same prefix and suffix are equal only if their middles are. */
  lemma AffixCancel(prefix: string, x: string, y: string, suffix: string)
    requires prefix + x + suffix == prefix + y + suffix
    ensures x == y
  {
    var s, t := prefix + x + suffix, prefix + y + suffix;
    assert |x| == |y|;
    assert x == s[|prefix|..|prefix| + |x|];
    assert y == t[|prefix|..|prefix| + |y|];
  }

  // ---------------------------------------------------------------------------
  // Parsing: int(s) in base 10
  // ---------------------------------------------------------------------------

  function StripLeft(s: string): (r: string)
    ensures |r| <= |s|
    decreases |s|
  {
    if |s| > 0 && IsSpace(s[0]) then StripLeft(s[1..]) else s
  }

  function StripRight(s: string): (r: string)
    ensures |r| <= |s|
    decreases |s|
  {
    if |s| > 0 && IsSpace(s[|s| - 1]) then StripRight(s[..|s| - 1]) else s
  }

  /** Left stripping drops exactly the leading whitespace. */
  lemma {:induction false} StripLeftSpec(s: string)
    ensures var r := StripLeft(s);
      r == s[|s| - |r|..] && (|r| > 0 ==> !IsSpace(r[0])) &&
      forall i :: 0 <= i < |s| - |r| ==> IsSpace(s[i])
    decreases |s|
  {
    if |s| > 0 && IsSpace(s[0]) {
      StripLeftSpec(s[1..]);
    }
  }

  /** Right stripping drops exactly the trailing whitespace. */
  lemma {:induction false} StripRightSpec(s: string)
    ensures var r := StripRight(s);
      r == s[..|r|] && (|r| > 0 ==> !IsSpace(r[|r| - 1])) &&
      forall i :: |r| <= i < |s| ==> IsSpace(s[i])
    decreases |s|
  {
    if |s| > 0 && IsSpace(s[|s| - 1]) {
      StripRightSpec(s[..|s| - 1]);
    }
  }

  /** `s.strip()`. */
  function Strip(s: string): string
  {
    StripRight(StripLeft(s))
  }

  /**
   * What is left of a numeral candidate once its last digit is taken off,
   * together with the underscore before that digit, if any.
   */
  function NumeralPrefix(s: string): (r: string)
    requires |s| >= 2
    ensures |r| < |s| && r == s[..|r|]
  {
    if s[|s| - 2] == '_' then s[..|s| - 2] else s[..|s| - 1]
  }

  /** The digit strings `int()` accepts: digit ('_'? digit)*. */
  predicate Numeral(s: string)
    decreases |s|
  {
    |s| > 0 && IsDigit(s[|s| - 1]) && (|s| == 1 || Numeral(NumeralPrefix(s)))
  }

  /** The value of a numeral; underscores carry no value. */
  function NumeralValue(s: string): nat
    requires Numeral(s)
    decreases |s|
  {
    var d := DigitValue(s[|s| - 1]);
    if |s| == 1 then d else 10 * NumeralValue(NumeralPrefix(s)) + d
  }

  /** The value of a plain digit string, most significant digit first. */
  function DigitsValue(s: string): nat
    requires AllDigits(s)
  {
    if |s| == 0 then 0 else 10 * DigitsValue(s[..|s| - 1]) + DigitValue(s[|s| - 1])
  }

  /**
   * `int(s)`: surrounding whitespace is ignored, then an optional sign and a
   * numeral; anything else is the ValueError, here None.
   */
  function ParseInt(s: string): (r: Option<int>)
    ensures r.Some? ==> Strip(s) != ""
  {
    var t := Strip(s);
    if |t| > 0 && (t[0] == '-' || t[0] == '+') then
      if Numeral(t[1..]) then
        var v: int := NumeralValue(t[1..]);
        Some(if t[0] == '-' then -v else v)
      else None
    else if Numeral(t) then Some(NumeralValue(t))
    else None
  }

  // ---------------------------------------------------------------------------
  // Round trips
  // ---------------------------------------------------------------------------

  /** A non-empty plain digit string is a numeral with its plain value. */
  lemma {:induction false} DigitsAreNumeral(s: string)
    requires |s| > 0 && AllDigits(s)
    ensures Numeral(s) && NumeralValue(s) == DigitsValue(s)
    decreases |s|
  {
    if |s| > 1 {
      DigitsAreNumeral(s[..|s| - 1]);
    }
  }

  /** Reading back the decimal digits of `n` gives `n`. */
  lemma {:induction false} DecimalValue(n: nat)
    ensures DigitsValue(Decimal(n)) == n
    decreases n
  {
    if n >= 10 {
      DecimalValue(n / 10);
      var s := Decimal(n);
      assert s[..|s| - 1] == Decimal(n / 10);
    }
  }

  /** Leading zeros do not change the value of a digit string. */
  lemma {:induction false} LeadingZeros(p: nat, s: string)
    requires AllDigits(s)
    ensures AllDigits(Zeros(p) + s) && DigitsValue(Zeros(p) + s) == DigitsValue(s)
    decreases |s|
  {
    var t := Zeros(p) + s;
    if |s| == 0 {
      ZerosValue(p);
      assert t == Zeros(p);
    } else {
      LeadingZeros(p, s[..|s| - 1]);
      assert t[..|t| - 1] == Zeros(p) + s[..|s| - 1];
    }
  }

  lemma {:induction false} ZerosValue(p: nat)
    ensures AllDigits(Zeros(p)) && DigitsValue(Zeros(p)) == 0
    decreases p
  {
    if p > 0 {
      ZerosValue(p - 1);
      assert Zeros(p)[..p - 1] == Zeros(p - 1);
    }
  }

  /** A numeral that starts with a digit reads back as itself. */
  lemma ParseNumeral(d: string)
    requires Numeral(d) && IsDigit(d[0])
    ensures ParseInt(d) == Some(NumeralValue(d) as int)
  {
    StripNoSpace(d);
  }

  /** A minus sign before such a numeral negates its value. */
  lemma ParseNegated(d: string)
    requires Numeral(d) && IsDigit(d[0])
    ensures ParseInt("-" + d) == Some(-(NumeralValue(d) as int))
  {
    var s := "-" + d;
    assert s[|s| - 1] == d[|d| - 1];
    StripNoSpace(s);
    assert s[1..] == d;
  }

  /** The decimal digits of n, with or without a minus sign, read back as n or -n. */
  lemma ParseDecimal(n: nat)
    ensures ParseInt(Decimal(n)) == Some(n as int)
    ensures ParseInt("-" + Decimal(n)) == Some(-(n as int))
  {
    var d := Decimal(n);
    DigitsAreNumeral(d);
    DecimalValue(n);
    assert NumeralValue(d) == n;
    ParseNumeral(d);
    ParseNegated(d);
  }

  /** `int(str(x)) == x`. */
  lemma IntToStringRoundTrip(x: int)
    ensures ParseInt(IntToString(x)) == Some(x)
  {
    if x < 0 {
      ParseDecimal(-x);
    } else {
      ParseDecimal(x);
    }
  }

  /** Zero-padded decimal digits are a numeral whose value is the number. */
  lemma PaddedDecimal(n: nat, w: nat)
    ensures var s := ZeroPad(Decimal(n), w);
      AllDigits(s) && Numeral(s) && NumeralValue(s) == n
  {
    var d := Decimal(n);
    var p: nat := if |d| < w then w - |d| else 0;
    assert ZeroPad(d, w) == Zeros(p) + d;
    LeadingZeros(p, d);
    DigitsAreNumeral(ZeroPad(d, w));
    DecimalValue(n);
  }

  /** A negative index is a minus sign and at least three digits; it reads back. */
  lemma Format04NegativeRoundTrip(x: int)
    requires x < 0
    ensures ParseInt("-" + ZeroPad(Decimal(-x), 3)) == Some(x)
  {
    var d := ZeroPad(Decimal(-x), 3);
    PaddedDecimal(-x, 3);
    assert NumeralValue(d) == -x;
    ParseNegated(d);
    var v := ParseInt("-" + d);
    assert v == Some(-(NumeralValue(d) as int));
    assert -(NumeralValue(d) as int) == x;
    assert v == Some(x);
  }

  /** A non-negative index is at least four digits; it reads back. */
  lemma Format04NonNegativeRoundTrip(x: int)
    requires x >= 0
    ensures ParseInt(ZeroPad(Decimal(x), 4)) == Some(x)
  {
    var d := ZeroPad(Decimal(x), 4);
    PaddedDecimal(x, 4);
    ParseNumeral(d);
  }

  /** `int(f"{x:04d}") == x`, so distinct indices format differently. */
  lemma Format04RoundTrip(x: int)
    ensures ParseInt(Format04(x)) == Some(x)
  {
    if x < 0 {
      Format04NegativeRoundTrip(x);
    } else {
      Format04NonNegativeRoundTrip(x);
    }
  }

  lemma Format04Injective(a: int, b: int)
    requires Format04(a) == Format04(b)
    ensures a == b
  {
    Format04RoundTrip(a);
    Format04RoundTrip(b);
  }

  /** Below 10000 a non-negative index takes exactly four digits. */
  lemma Format04FourDigits(x: int)
    requires 0 <= x < 10000
    ensures |Format04(x)| == 4 && AllDigits(Format04(x))
  {
    DecimalLength(x, 4);
  }

  function Pow10(w: nat): nat
  {
    if w == 0 then 1 else 10 * Pow10(w - 1)
  }

  /** A number below 10^w has at most w decimal digits. */
  lemma {:induction false} DecimalLength(n: nat, w: nat)
    requires 1 <= w && n < Pow10(w)
    ensures |Decimal(n)| <= w
    decreases w
  {
    if n >= 10 {
      DecimalLength(n / 10, w - 1);
    }
  }

  /** A string with no surrounding whitespace is left alone by strip(). */
  lemma StripNoSpace(s: string)
    requires |s| > 0 && !IsSpace(s[0]) && !IsSpace(s[|s| - 1])
    ensures Strip(s) == s
  {
  }
}
