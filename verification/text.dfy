/**
 * Decimal text as the source produces and reads it: `format!("{}", n)` for
 * unsigned and signed integers, `char::to_digit(10)` and
 * `str::parse::<u8>()`.  Only ASCII digits count as digits, as for Rust's
 * `char::is_digit(10)`.  Also text cut into lines, as `BufRead::lines`
 * does, and lines joined with newlines, as the renderers write them.
 */
module Text {
  import opened Wrappers

  predicate IsDigit(c: char) {
    '0' <= c <= '9'
  }

  predicate AllDigits(s: string) {
    forall k | 0 <= k < |s| :: IsDigit(s[k])
  }

  /** The digit a digit character stands for. */
  function DigitValue(c: char): (d: nat)
    requires IsDigit(c)
    ensures d < 10
  {
    c as int - '0' as int
  }

  /** The character of a single decimal digit. */
  function DigitChar(d: nat): (c: char)
    requires d < 10
    ensures IsDigit(c) && DigitValue(c) == d
  {
    (d + '0' as int) as char
  }

  /** `char::to_digit(10)`: the value of an ASCII digit, `None` otherwise. */
  function ToDigit(c: char): (r: Option<nat>)
    ensures r.Some? <==> IsDigit(c)
    ensures r.Some? ==> r.value < 10 && DigitChar(r.value) == c
  {
    if IsDigit(c) then Some(DigitValue(c)) else None
  }

  /** The number a string of digits denotes, most significant digit first. */
  function DigitsValue(s: string): nat
    requires AllDigits(s)
    decreases |s|
  {
    if s == [] then 0
    else DigitsValue(s[..|s| - 1]) * 10 + DigitValue(s[|s| - 1])
  }

  /** `format!("{}", n)` for an unsigned integer: the shortest decimal
      numeral of `n`, which reads back as `n`. */
  function NatToString(n: nat): (s: string)
    ensures |s| >= 1 && AllDigits(s)
    ensures DigitsValue(s) == n
    ensures |s| == 1 <==> n < 10
    ensures |s| > 1 ==> s[0] != '0'
    decreases n
  {
    if n < 10 then [DigitChar(n)]
    else
      var s := NatToString(n / 10) + [DigitChar(n % 10)];
      assert s[..|s| - 1] == NatToString(n / 10);
      s
  }

  /** `format!("{}", i)` for a signed integer: a minus sign before the
      numeral of the magnitude when negative. */
  function IntToString(i: int): (s: string)
    ensures |s| >= 1
    ensures s[0] == '-' <==> i < 0
  {
    if i < 0 then "-" + NatToString(-i) else NatToString(i)
  }

  /** Different integers are written differently, so names built from them
      stay distinct. */
  lemma IntToStringInjective(a: int, b: int)
    ensures IntToString(a) == IntToString(b) <==> a == b
  {
    if IntToString(a) == IntToString(b) {
      if a < 0 {
        assert IntToString(a)[1..] == NatToString(-a);
        assert IntToString(b)[1..] == NatToString(-b);
      }
    }
  }

  /** `str::parse::<u8>()`: an optional `+`, then one or more digits whose
      value fits in a byte. */
  function ParseU8(s: string): (r: Option<nat>)
    ensures r.Some? ==> r.value < 256
    ensures r.Some? ==> |s| >= 1 && (IsDigit(s[0]) || s[0] == '+')
  {
    var digits := if |s| > 0 && s[0] == '+' then s[1..] else s;
    if digits == [] || !AllDigits(digits) then None
    else if DigitsValue(digits) < 256 then Some(DigitsValue(digits))
    else None
  }

  /** One character parses as a byte exactly when it is a digit, to the
      digit's value. */
  lemma ParseOneChar(c: char)
    ensures ParseU8([c]) == ToDigit(c)
  {
    if IsDigit(c) {
      assert AllDigits([c]);
      assert [c][..0] == [];
      assert DigitsValue([c]) == DigitsValue([]) * 10 + DigitValue(c);
    } else {
      assert [c][0] == c;
      assert !IsDigit([c][0]);
    }
  }

  /** A numeral the source writes for a byte reads back as that byte. */
  lemma ParseNatToString(n: nat)
    requires n < 256
    ensures ParseU8(NatToString(n)) == Some(n)
  {
  }

  // ---------------------------------------------------------------------
  // Lines of text
  // ---------------------------------------------------------------------

  /** The position of the first newline. */
  function FirstNewline(text: string): (k: nat)
    requires '\n' in text
    ensures k < |text| && text[k] == '\n' && '\n' !in text[..k]
    decreases |text|
  {
    if text[0] == '\n' then 0
    else
      var k := FirstNewline(text[1..]) + 1;
      assert text[..k] == [text[0]] + text[1..][..k - 1];
      k
  }

  /** `BufRead::lines`: the text cut at every newline, a carriage return
      just before a newline dropped; text after the last newline, if any,
      is the last line. */
  function Lines(text: string): seq<string>
    decreases |text|
  {
    if text == [] then []
    else if '\n' !in text then [text]
    else
      var k := FirstNewline(text);
      var line := text[..k];
      [if line != [] && line[|line| - 1] == '\r' then line[..|line| - 1] else line] + Lines(text[k + 1..])
  }

  lemma LinesCons(line: string, rest: string)
    requires '\n' !in line && (line == [] || line[|line| - 1] != '\r')
    ensures Lines(line + "\n" + rest) == [line] + Lines(rest)
  {
    var text := line + "\n" + rest;
    assert text[|line|] == '\n';
    var k := FirstNewline(text);
    assert text[..k] == line;
    assert text[k + 1..] == rest;
  }

  /** Lines each ended by a newline. */
  function Join(lines: seq<string>): string
    decreases |lines|
  {
    if lines == [] then "" else lines[0] + "\n" + Join(lines[1..])
  }

  /** Cutting lines that were joined gives them back, when none holds a
      newline or a carriage return. */
  lemma {:induction false} LinesJoin(lines: seq<string>)
    requires forall k | 0 <= k < |lines| :: '\n' !in lines[k] && '\r' !in lines[k]
    ensures Lines(Join(lines)) == lines
    decreases |lines|
  {
    if lines != [] {
      var line := lines[0];
      LinesJoin(lines[1..]);
      if line != [] {
        assert line[|line| - 1] in line;
      }
      LinesCons(line, Join(lines[1..]));
    }
  }
}
