/** The string operations the range sugar and the error messages rely on:
    PHP's `strpos` and `explode` for one separator character, the numeric
    value PHP reads from the leading digits of a string, and the decimal text
    an integer interpolates to. */
module Strings {
  import opened Files

  /** Position of the first occurrence of `c` in `s` (`strpos`), None when absent. */
  function IndexOf(s: string, c: char): (r: Option<nat>)
    ensures r.None? <==> c !in s
    ensures r.Some? ==> r.value < |s| && s[r.value] == c && c !in s[..r.value]
  {
    if |s| == 0 then None
    else if s[0] == c then Some(0)
    else
      match IndexOf(s[1..], c)
      case None => None
      case Some(i) =>
        assert s[..i + 1] == [s[0]] + s[1..][..i];
        Some(i + 1)
  }

  /** The pieces between occurrences of `sep` (`explode`); joining them back
      with `sep` gives `s` again, so there is one more piece than separators. */
  function Split(s: string, sep: char): (r: seq<string>)
    ensures |r| >= 1
    ensures Join(r, sep) == s
    ensures forall i :: 0 <= i < |r| ==> sep !in r[i]
    decreases |s|
  {
    match IndexOf(s, sep)
    case None => [s]
    case Some(i) =>
      var rest := Split(s[i + 1..], sep);
      assert s == s[..i] + [sep] + s[i + 1..];
      [s[..i]] + rest
  }

  /** The pieces glued together with `sep` between neighbours (`implode`):
      the text starts with the first piece, which is followed by `sep` when
      there are more pieces and by nothing otherwise. */
  function Join(parts: seq<string>, sep: char): (r: string)
    ensures |parts| == 0 ==> r == ""
    ensures |parts| == 1 ==> r == parts[0]
    ensures |parts| >= 1 ==> |parts[0]| <= |r| && r[..|parts[0]|] == parts[0]
    ensures |parts| > 1 ==> |parts[0]| < |r| && r[|parts[0]|] == sep
  {
    if |parts| == 0 then ""
    else if |parts| == 1 then parts[0]
    else
      var r := parts[0] + [sep] + Join(parts[1..], sep);
      assert r[..|parts[0]|] == parts[0];
      r
  }

  /** The first separator after a separator-free piece is the one right after it. */
  lemma IndexAfterPiece(x: string, sep: char, rest: string)
    requires sep !in x
    ensures IndexOf(x + [sep] + rest, sep) == Some(|x|)
  {
    var s := x + [sep] + rest;
    assert s[|x|] == sep;
    assert s[..|x|] == x;
  }

  /** Splitting at a separator-free first piece peels that piece off. */
  lemma SplitAfterPiece(x: string, sep: char, rest: string)
    requires sep !in x
    ensures Split(x + [sep] + rest, sep) == [x] + Split(rest, sep)
  {
    var s := x + [sep] + rest;
    IndexAfterPiece(x, sep, rest);
    assert s[..|x|] == x;
    assert s[|x| + 1..] == rest;
  }

  /** `Split` undoes `Join` on separator-free pieces. */
  lemma {:induction false} SplitJoin(parts: seq<string>, sep: char)
    requires |parts| >= 1
    requires forall i :: 0 <= i < |parts| ==> sep !in parts[i]
    ensures Split(Join(parts, sep), sep) == parts
    decreases |parts|
  {
    if |parts| == 1 {
      assert Join(parts, sep) == parts[0];
      assert IndexOf(parts[0], sep).None?;
    } else {
      var tail := parts[1..];
      assert forall i :: 0 <= i < |tail| ==> sep !in tail[i] by {
        forall i | 0 <= i < |tail| ensures sep !in tail[i] {
          assert tail[i] == parts[i + 1];
        }
      }
      SplitJoin(tail, sep);
      assert Join(parts, sep) == parts[0] + [sep] + Join(tail, sep);
      assert sep !in parts[0];
      SplitAfterPiece(parts[0], sep, Join(tail, sep));
      assert parts == [parts[0]] + tail;
    }
  }

  predicate IsDigit(c: char)
  {
    '0' <= c <= '9'
  }

  predicate AllDigits(s: string)
  {
    forall i :: 0 <= i < |s| ==> IsDigit(s[i])
  }

  /** The longest prefix of `s` made of decimal digits. */
  function DigitPrefix(s: string): (r: string)
    ensures |r| <= |s| && r == s[..|r|]
    ensures AllDigits(r)
    ensures |r| < |s| ==> !IsDigit(s[|r|])
  {
    if |s| == 0 || !IsDigit(s[0]) then ""
    else
      var t := DigitPrefix(s[1..]);
      assert [s[0]] + t == s[..|t| + 1];
      [s[0]] + t
  }

  function DigitValue(c: char): nat
  {
    if IsDigit(c) then (c as int) - ('0' as int) else 0
  }

  function DigitChar(d: nat): (c: char)
    requires d < 10
    ensures IsDigit(c) && DigitValue(c) == d
  {
    ('0' as int + d) as char
  }

  /** The number a string of decimal digits denotes (most significant first). */
  function DigitsValue(d: string): nat
  {
    if |d| == 0 then 0
    else DigitsValue(d[..|d| - 1]) * 10 + DigitValue(d[|d| - 1])
  }

  /** The value PHP compares an integer against when the other operand is a
      string: the number its leading decimal digits denote, 0 if there are none. */
  function NumericValue(s: string): (r: nat)
    ensures |s| == 0 || !IsDigit(s[0]) ==> r == 0
    ensures AllDigits(s) ==> r == DigitsValue(s)
  {
    DigitPrefixOfAllDigits(s);
    DigitsValue(DigitPrefix(s))
  }

  /** A string made only of digits is its own digit prefix. */
  lemma DigitPrefixOfAllDigits(s: string)
    ensures AllDigits(s) ==> DigitPrefix(s) == s
  {
    if AllDigits(s) {
      DigitPrefixOfDigits(s, "");
      assert s + "" == s;
    }
  }

  /** The text an integer interpolates to in a PHP string: its canonical
      decimal digits, with no leading zero except for 0 itself. */
  function DecimalText(n: nat): (r: string)
    ensures |r| >= 1 && AllDigits(r)
    ensures n == 0 ==> r == "0"
    ensures n > 0 ==> r[0] != '0'
    decreases n
  {
    if n < 10 then [DigitChar(n)]
    else DecimalText(n / 10) + [DigitChar(n % 10)]
  }

  /** Reading back the decimal text of `n` gives `n`. */
  lemma {:induction false} DecimalTextValue(n: nat)
    ensures DigitsValue(DecimalText(n)) == n
    decreases n
  {
    if n >= 10 {
      DecimalTextValue(n / 10);
      var t := DecimalText(n);
      assert t[..|t| - 1] == DecimalText(n / 10);
    }
  }

  /** The digit prefix of a digit string followed by a non-digit (or by
      nothing) is that digit string. */
  lemma {:induction false} DigitPrefixOfDigits(d: string, rest: string)
    requires AllDigits(d)
    requires |rest| == 0 || !IsDigit(rest[0])
    ensures DigitPrefix(d + rest) == d
    decreases |d|
  {
    if |d| > 0 {
      DigitPrefixOfDigits(d[1..], rest);
      assert (d + rest)[1..] == d[1..] + rest;
      assert d == [d[0]] + d[1..];
    }
  }

  /** The decimal text of `n`, possibly followed by a separator and more
      text, reads back as `n`. */
  lemma NumericValueOfDecimal(n: nat, rest: string)
    requires |rest| == 0 || !IsDigit(rest[0])
    ensures NumericValue(DecimalText(n) + rest) == n
  {
    DigitPrefixOfDigits(DecimalText(n), rest);
    DecimalTextValue(n);
  }
}
