/**
 * Character-level helpers the session codec relies on: decimal digits, the
 * decimal rendering of integers (JavaScript's number-to-string for integers),
 * the prefix semantics of JavaScript's `parseInt`, and `String.split` /
 * `Array.join` on a one-character separator.
 */
module Text {
  import opened Optional

  predicate IsDigit(c: char) {
    '0' <= c <= '9'
  }

  predicate AllDigits(s: string) {
    forall i :: 0 <= i < |s| ==> IsDigit(s[i])
  }

  /** The character of a decimal digit. */
  function DigitChar(d: nat): (c: char)
    requires d < 10
    ensures IsDigit(c)
  {
    ('0' as int + d) as char
  }

  /** `parseInt` of a one-character string: its digit, or nothing (`NaN`). */
  function DigitValue(c: char): (r: Option<nat>)
    ensures r.Some? <==> IsDigit(c)
    ensures r.Some? ==> r.value < 10 && DigitChar(r.value) == c
  {
    if IsDigit(c) then Some((c as int - '0' as int) as nat) else None
  }

  /** Decimal rendering of a natural number, most significant digit first, no leading zeros. */
  function NatToString(n: nat): (s: string)
    ensures 0 < |s| && AllDigits(s)
    ensures n < 10 <==> |s| == 1
    ensures |s| > 1 ==> s[0] != '0'
  {
    if n < 10 then [DigitChar(n)] else NatToString(n / 10) + [DigitChar(n % 10)]
  }

  /** Decimal rendering of an integer, with a leading '-' when it is negative. */
  function IntToString(n: int): (s: string)
    ensures 0 < |s|
    ensures n < 0 <==> s[0] == '-'
    ensures AllDigits(s[1..]) && (n >= 0 ==> AllDigits(s))
  {
    if n < 0 then "-" + NatToString(-n) else NatToString(n)
  }

  /** The number a string of digits denotes. */
  function DigitsValue(s: string): nat
    requires AllDigits(s)
  {
    if |s| == 0 then 0
    else DigitsValue(s[..|s| - 1]) * 10 + DigitValue(s[|s| - 1]).value
  }

  /** The longest prefix of `s` made of digits. */
  function DigitPrefix(s: string): (p: string)
    ensures p <= s && AllDigits(p)
    ensures |p| < |s| ==> !IsDigit(s[|p|])
  {
    if |s| == 0 || !IsDigit(s[0]) then "" else [s[0]] + DigitPrefix(s[1..])
  }

  /**
   * JavaScript's `parseInt(s)` for integers written in decimal: an optional
   * sign followed by the longest run of digits; no digit after the sign
   * gives `NaN`, modelled as `None`.
   */
  function ParseInt(s: string): (r: Option<int>)
    ensures r.Some? <==>
      (0 < |s| && IsDigit(s[0])) || (1 < |s| && (s[0] == '-' || s[0] == '+') && IsDigit(s[1]))
  {
    if 0 < |s| && (s[0] == '-' || s[0] == '+') then
      var d := DigitPrefix(s[1..]);
      if d == "" then None
      else
        var v: int := DigitsValue(d);
        Some(if s[0] == '-' then -v else v)
    else
      var d := DigitPrefix(s);
      if d == "" then None else Some(DigitsValue(d))
  }

  lemma {:induction false} NatToStringValue(n: nat)
    ensures DigitsValue(NatToString(n)) == n
  {
    var s := NatToString(n);
    if n < 10 {
      assert s[..0] == "";
    } else {
      NatToStringValue(n / 10);
      assert s[..|s| - 1] == NatToString(n / 10);
    }
  }

  /** The digit prefix of a run of digits followed by a non-digit (or nothing) is that run. */
  lemma {:induction false} DigitPrefixOfRun(d: string, rest: string)
    requires AllDigits(d)
    requires |rest| == 0 || !IsDigit(rest[0])
    ensures DigitPrefix(d + rest) == d
  {
    if |d| == 0 {
      assert d + rest == rest;
    } else {
      DigitPrefixOfRun(d[1..], rest);
      assert (d + rest)[1..] == d[1..] + rest;
      assert [d[0]] + d[1..] == d;
    }
  }

  /**
   * `parseInt` of an unsigned string is the value of its leading run of
   * digits, whatever follows the run (leading zeros included: "007" is 7,
   * "12abc" is 12).
   */
  lemma ParseIntOfDigits(d: string, rest: string)
    requires 0 < |d| && AllDigits(d)
    requires |rest| == 0 || !IsDigit(rest[0])
    ensures ParseInt(d + rest) == Some(DigitsValue(d))
  {
    DigitPrefixOfRun(d, rest);
    assert (d + rest)[0] == d[0];
  }

  /** `parseInt` of a sign and a run of digits: the run's value, negated after '-'. */
  lemma ParseIntOfSigned(sign: char, d: string, rest: string)
    requires sign == '-' || sign == '+'
    requires 0 < |d| && AllDigits(d)
    requires |rest| == 0 || !IsDigit(rest[0])
    ensures var v: int := DigitsValue(d); ParseInt([sign] + d + rest) == Some(if sign == '-' then -v else v)
  {
    assert [sign] + d + rest == [sign] + (d + rest);
    assert DigitPrefix(d + rest) == d by {
      DigitPrefixOfRun(d, rest);
    }
    SignedPrefix(sign, d + rest, d);
  }

  lemma SignedPrefix(sign: char, t: string, d: string)
    requires sign == '-' || sign == '+'
    requires DigitPrefix(t) == d && d != ""
    ensures var v: int := DigitsValue(d); ParseInt([sign] + t) == Some(if sign == '-' then -v else v)
  {
    assert ([sign] + t)[1..] == t;
  }

  /** Parsing the rendering of any integer gives that integer back. */
  lemma ParseIntOfIntToString(n: int)
    ensures ParseInt(IntToString(n)) == Some(n)
  {
    var s := IntToString(n);
    if n < 0 {
      var digits := NatToString(-n);
      var signed := ['-'] + digits + "";
      assert ParseInt(signed) == Some(n) by {
        NatToStringValue(-n);
        ParseIntOfSigned('-', digits, "");
      }
      assert s == signed;
    } else {
      var plain := s + "";
      assert ParseInt(plain) == Some(n) by {
        NatToStringValue(n);
        ParseIntOfDigits(s, "");
      }
      assert s == plain;
    }
  }

  /** JavaScript's string split: the pieces between separators; always at least one piece. */
  function Split(s: string, sep: char): (parts: seq<string>)
    ensures 0 < |parts|
  {
    if |s| == 0 then [""]
    else if s[0] == sep then [""] + Split(s[1..], sep)
    else
      var rest := Split(s[1..], sep);
      [[s[0]] + rest[0]] + rest[1..]
  }

  /** JavaScript's array join: the pieces with the separator between neighbours. */
  function Join(parts: seq<string>, sep: char): (s: string)
    requires 0 < |parts|
    ensures parts[0] <= s
    ensures |parts| == 1 <==> s == parts[0]
    ensures |parts| > 1 ==> s[|parts[0]|] == sep
  {
    if |parts| == 1 then parts[0] else parts[0] + [sep] + Join(parts[1..], sep)
  }

  lemma JoinTwo(a: string, b: string, sep: char)
    ensures Join([a, b], sep) == a + [sep] + b
  {
    assert [a, b][1..] == [b];
  }

  lemma JoinThree(a: string, b: string, c: string, sep: char)
    ensures Join([a, b, c], sep) == a + [sep] + (b + [sep] + c)
  {
    assert [a, b, c][1..] == [b, c] && [b, c][1..] == [c];
  }

  /** Splitting and joining again gives the original string, and no piece holds the separator. */
  lemma {:induction false} JoinSplit(s: string, sep: char)
    ensures Join(Split(s, sep), sep) == s
    ensures forall i :: 0 <= i < |Split(s, sep)| ==> sep !in Split(s, sep)[i]
  {
    SplitPiecesFree(s, sep);
    if |s| > 0 {
      JoinSplit(s[1..], sep);
      var rest := Split(s[1..], sep);
      if s[0] == sep {
        assert Split(s, sep)[1..] == rest;
      } else {
        assert Split(s, sep)[1..] == rest[1..];
        if |rest| > 1 {
          assert [s[0]] + Join(rest, sep) == [s[0]] + rest[0] + [sep] + Join(rest[1..], sep);
        }
        assert [s[0]] + s[1..] == s;
      }
    }
  }

  lemma {:induction false} SplitPiecesFree(s: string, sep: char)
    ensures forall i :: 0 <= i < |Split(s, sep)| ==> sep !in Split(s, sep)[i]
  {
    if |s| > 0 {
      SplitPiecesFree(s[1..], sep);
      var rest := Split(s[1..], sep);
      var parts := Split(s, sep);
      forall i | 0 <= i < |parts| ensures sep !in parts[i] {
        if s[0] == sep {
          if i > 0 { assert parts[i] == rest[i - 1]; }
        } else if i > 0 {
          assert parts[i] == rest[i];
        }
      }
    }
  }

  /** Splitting a join of separator-free pieces gives the pieces back. */
  lemma {:induction false} SplitJoin(parts: seq<string>, sep: char)
    requires 0 < |parts|
    requires forall i :: 0 <= i < |parts| ==> sep !in parts[i]
    ensures Split(Join(parts, sep), sep) == parts
  {
    if |parts| == 1 {
      SplitWithoutSep(parts[0], sep);
    } else {
      SplitJoin(parts[1..], sep);
      SplitAfterPiece(parts[0], Join(parts[1..], sep), sep);
      assert [parts[0]] + parts[1..] == parts;
    }
  }

  lemma {:induction false} SplitWithoutSep(s: string, sep: char)
    requires sep !in s
    ensures Split(s, sep) == [s]
  {
    if |s| > 0 {
      SplitWithoutSep(s[1..], sep);
      assert [s[0]] + s[1..] == s;
    }
  }

  /** A string splits into more than one piece exactly when it holds the separator. */
  lemma {:induction false} SplitCount(s: string, sep: char)
    ensures |Split(s, sep)| > 1 <==> sep in s
  {
    if |s| > 0 {
      SplitCount(s[1..], sep);
      assert s == [s[0]] + s[1..];
    }
  }

  lemma {:induction false} SplitAfterPiece(a: string, b: string, sep: char)
    requires sep !in a
    ensures Split(a + [sep] + b, sep) == [a] + Split(b, sep)
  {
    var s := a + [sep] + b;
    if |a| == 0 {
      assert s[1..] == b;
    } else {
      SplitAfterPiece(a[1..], b, sep);
      assert s[1..] == a[1..] + [sep] + b;
      assert [a[0]] + a[1..] == a;
    }
  }
}
