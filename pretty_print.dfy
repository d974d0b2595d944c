/**
 * The leaf printers of aoc_lib/src/unit_test/pretty_print.hpp: how the
 * unit-test framework shows a string, a character, a bool and a
 * `std::strong_ordering` in its failure messages. Characters are bytes
 * (their value as `unsigned char`); the output stream is a class whose
 * text only ever grows.
 */
module PrettyPrint {
  import opened AocLib

  /** The value of a `char`, `signed char` or `unsigned char` read as `unsigned char`. */
  type Byte = x: int | 0 <= x < 256

  /** An `std::ostream` that output is appended to. */
  class OStream {
    var text: string

    constructor ()
      ensures text == ""
    {
      text := "";
    }

    /** `os << s`. */
    method Write(s: string)
      modifies this
      ensures text == old(text) + s
    {
      text := text + s;
    }
  }

  /** `std::isprint` in the "C" locale: space through tilde. */
  predicate IsPrint(b: Byte)
  {
    0x20 <= b < 0x7f
  }

  /** A lower-case hexadecimal digit. */
  function HexDigit(n: nat): (c: char)
    requires n < 16
  {
    if n < 10 then ('0' as int + n) as char else ('a' as int + n - 10) as char
  }

  /**
   * `write_escaped_char`: a printable byte stands for itself, with a
   * backslash before a backslash or the quote character; tab, newline and
   * carriage return become `\t`, `\n`, `\r`; any other byte becomes `\x`
   * and two lower-case hexadecimal digits.
   */
  function Escape(b: Byte, quote: char): string
  {
    if IsPrint(b) then
      (if b == '\\' as int || b == quote as int then ['\\', b as char] else [b as char])
    else if b == 9 then "\\t"
    else if b == 10 then "\\n"
    else if b == 13 then "\\r"
    else ['\\', 'x', HexDigit(b / 16), HexDigit(b % 16)]
  }

  /** The escapes of the bytes of `s`, one after another. */
  function EscapeAll(s: seq<Byte>, quote: char): string
  {
    if s == [] then [] else Escape(s[0], quote) + EscapeAll(s[1..], quote)
  }

  /** What `print_repr` writes for a string: its escaped bytes between double quotes. */
  function StringRepr(s: seq<Byte>): string
  {
    "\"" + EscapeAll(s, '"') + "\""
  }

  /** The decimal digits of `n`. */
  function Digits(n: nat): (r: string)
    ensures |r| > 0
  {
    if n < 10 then [('0' as int + n) as char] else Digits(n / 10) + [('0' as int + n % 10) as char]
  }

  /** `os << n` for an integer: a minus sign for negative values, then the digits. */
  function Decimal(n: int): (r: string)
  {
    if n < 0 then "-" + Digits(-n) else Digits(n)
  }

  /**
   * What `print_repr` writes for a character: with `char_as_number` its
   * value as a `short` (negative for a byte above 127 when the character
   * type is signed), otherwise the escaped character between single quotes.
   */
  function CharRepr(ch: Byte, charAsNumber: bool, signed: bool): string
  {
    if charAsNumber then Decimal(if signed && ch >= 128 then ch - 256 else ch)
    else "'" + Escape(ch, '\'') + "'"
  }

  /** What `print_repr` writes for a bool. */
  function BoolRepr(b: bool): (r: string)
    ensures r == "true" || r == "false"
  {
    if b then "true" else "false"
  }

  /** What `print_repr` writes for a `strong_ordering`, given by the sign of `cmp`. */
  function OrderingRepr(cmp: int): (r: string)
  {
    if cmp < 0 then "less" else if cmp > 0 then "greater" else "equal"
  }

  /** `write_escaped_char(os, ch, quote_char)`. */
  method WriteEscapedChar(os: OStream, ch: Byte, quote: char)
    modifies os
    ensures os.text == old(os.text) + Escape(ch, quote)
  {
    if IsPrint(ch) {
      if ch == '\\' as int || ch == quote as int {
        os.Write("\\");
      }
      os.Write([ch as char]);
    } else {
      os.Write("\\");
      if ch == 9 {
        os.Write("t");
      } else if ch == 10 {
        os.Write("n");
      } else if ch == 13 {
        os.Write("r");
      } else {
        os.Write("x");
        os.Write([HexDigit(ch / 16), HexDigit(ch % 16)]);
      }
    }
  }

  lemma {:induction false} EscapeAllSnoc(s: seq<Byte>, b: Byte, quote: char)
    ensures EscapeAll(s + [b], quote) == EscapeAll(s, quote) + Escape(b, quote)
    decreases |s|
  {
    if s != [] {
      assert (s + [b])[1..] == s[1..] + [b];
      EscapeAllSnoc(s[1..], b, quote);
    }
  }

  lemma EscapePrefix(s: seq<Byte>, i: nat, quote: char)
    requires i < |s|
    ensures EscapeAll(s[..i + 1], quote) == EscapeAll(s[..i], quote) + Escape(s[i], quote)
  {
    assert s[..i + 1] == s[..i] + [s[i]];
    EscapeAllSnoc(s[..i], s[i], quote);
  }

  /** `print_repr(os, sv, state)` for a string. */
  method PrintString(os: OStream, sv: seq<Byte>)
    modifies os
    ensures os.text == old(os.text) + StringRepr(sv)
  {
    os.Write("\"");
    ghost var start := os.text;
    for i := 0 to |sv|
      invariant os.text == start + EscapeAll(sv[..i], '"')
    {
      EscapePrefix(sv, i, '"');
      WriteEscapedChar(os, sv[i], '"');
    }
    assert sv[..|sv|] == sv;
    os.Write("\"");
  }

  /** `print_repr(os, ch, state)` for a character type, signed or not. */
  method PrintChar(os: OStream, ch: Byte, charAsNumber: bool, signed: bool)
    modifies os
    ensures os.text == old(os.text) + CharRepr(ch, charAsNumber, signed)
  {
    if charAsNumber {
      os.Write(Decimal(if signed && ch >= 128 then ch - 256 else ch));
    } else {
      os.Write("'");
      WriteEscapedChar(os, ch, '\'');
      os.Write("'");
    }
  }

  /** `print_repr(os, b, state)` for a bool. */
  method PrintBool(os: OStream, b: bool)
    modifies os
    ensures os.text == old(os.text) + BoolRepr(b)
  {
    os.Write(if b then "true" else "false");
  }

  /** `print_repr(os, value, state)` for a `strong_ordering`. */
  method PrintOrdering(os: OStream, cmp: int)
    modifies os
    ensures os.text == old(os.text) + OrderingRepr(cmp)
  {
    if cmp < 0 {
      os.Write("less");
    } else if cmp > 0 {
      os.Write("greater");
    } else {
      os.Write("equal");
    }
  }

  // Reading the output back.

  /** The value of a hexadecimal digit. */
  function HexValue(c: char): Option<nat>
  {
    if '0' <= c <= '9' then Some(c as int - '0' as int)
    else if 'a' <= c <= 'f' then Some(c as int - 'a' as int + 10)
    else None
  }

  /** Reads one (possibly escaped) byte from the front of `t`. */
  function ReadOne(t: string, quote: char): (r: Option<(Byte, string)>)
    ensures r.Some? ==> |r.value.1| < |t|
  {
    if t == [] then None
    else if t[0] == '\\' then
      if |t| < 2 then None
      else if t[1] == 't' then Some((9, t[2..]))
      else if t[1] == 'n' then Some((10, t[2..]))
      else if t[1] == 'r' then Some((13, t[2..]))
      else if t[1] == 'x' then
        if |t| < 4 then None
        else match (HexValue(t[2]), HexValue(t[3]))
          case (Some(h), Some(l)) => if h < 16 && l < 16 then Some((h * 16 + l, t[4..])) else None
          case _ => None
      else if t[1] == '\\' || t[1] == quote then Some((t[1] as int % 256, t[2..]))
      else None
    else if t[0] != quote && 0x20 <= t[0] as int < 0x7f then Some((t[0] as int, t[1..]))
    else None
  }

  /** Reads bytes up to the closing quote, returning them and what follows the quote. */
  function ReadQuoted(t: string, quote: char): Option<(seq<Byte>, string)>
    decreases |t|
  {
    if t == [] then None
    else if t[0] == quote then Some(([], t[1..]))
    else match ReadOne(t, quote)
      case None => None
      case Some((b, rest)) =>
        match ReadQuoted(rest, quote)
        case None => None
        case Some((s, after)) => Some(([b] + s, after))
  }

  /** Reads a quoted literal from the front of `t`. */
  function ReadLiteral(t: string, quote: char): Option<(seq<Byte>, string)>
  {
    if t != [] && t[0] == quote then ReadQuoted(t[1..], quote) else None
  }

  /** The quote characters the printers use. */
  predicate Quote(q: char)
  {
    q == '"' || q == '\''
  }

  lemma HexRoundTrip(n: nat)
    requires n < 16
    ensures HexValue(HexDigit(n)) == Some(n)
  {
  }

  /** An escaped byte reads back as that byte, and never starts with the quote character. */
  lemma ReadOneEscape(b: Byte, quote: char, rest: string)
    requires Quote(quote)
    ensures Escape(b, quote)[0] != quote
    ensures ReadOne(Escape(b, quote) + rest, quote) == Some((b, rest))
  {
    var t := Escape(b, quote) + rest;
    if !IsPrint(b) && b != 9 && b != 10 && b != 13 {
      HexRoundTrip(b / 16);
      HexRoundTrip(b % 16);
      assert t[2] == HexDigit(b / 16) && t[3] == HexDigit(b % 16);
      assert t[4..] == rest;
    } else if IsPrint(b) && (b == '\\' as int || b == quote as int) {
      assert t[2..] == rest;
    } else if IsPrint(b) {
      assert t[1..] == rest;
    } else {
      assert t[2..] == rest;
    }
  }

  /** The escaped bytes followed by the closing quote read back as those bytes. */
  lemma {:induction false} ReadQuotedEscapeAll(s: seq<Byte>, quote: char, rest: string)
    requires Quote(quote)
    ensures ReadQuoted(EscapeAll(s, quote) + [quote] + rest, quote) == Some((s, rest))
    decreases |s|
  {
    var t := EscapeAll(s, quote) + [quote] + rest;
    if s == [] {
      assert t == [quote] + rest;
      assert t[1..] == rest;
    } else {
      var tail := EscapeAll(s[1..], quote) + [quote] + rest;
      assert t == Escape(s[0], quote) + tail;
      ReadOneEscape(s[0], quote, tail);
      ReadQuotedEscapeAll(s[1..], quote, tail[..0] + rest);
      assert tail[..0] + rest == rest;
      assert [s[0]] + s[1..] == s;
    }
  }

  /**
   * A printed string reads back as the same bytes, whatever follows it:
   * the quotes and escapes delimit it unambiguously.
   */
  lemma StringRoundTrip(s: seq<Byte>, rest: string)
    ensures ReadLiteral(StringRepr(s) + rest, '"') == Some((s, rest))
  {
    var t := StringRepr(s) + rest;
    assert t[1..] == EscapeAll(s, '"') + ['"'] + rest;
    ReadQuotedEscapeAll(s, '"', rest);
  }

  /** A character printed as a character reads back as the same byte, whatever follows it. */
  lemma CharRoundTrip(ch: Byte, signed: bool, rest: string)
    ensures ReadLiteral(CharRepr(ch, false, signed) + rest, '\'') == Some(([ch], rest))
  {
    var t := CharRepr(ch, false, signed) + rest;
    assert EscapeAll([ch], '\'') == Escape(ch, '\'');
    assert t[1..] == EscapeAll([ch], '\'') + ['\''] + rest;
    ReadQuotedEscapeAll([ch], '\'', rest);
  }

  /** Every character the escaper writes is printable ASCII. */
  lemma {:induction false} EscapeAllPrintable(s: seq<Byte>, quote: char)
    requires Quote(quote)
    ensures forall i :: 0 <= i < |EscapeAll(s, quote)| ==> 0x20 <= EscapeAll(s, quote)[i] as int < 0x7f
    decreases |s|
  {
    if s != [] {
      EscapeAllPrintable(s[1..], quote);
      var e := Escape(s[0], quote);
      assert forall i :: 0 <= i < |e| ==> 0x20 <= e[i] as int < 0x7f;
    }
  }

  // Reading a number back.

  /** The value of a string of decimal digits. */
  function DigitsValue(s: string): int
  {
    if s == [] then 0 else 10 * DigitsValue(s[..|s| - 1]) + (s[|s| - 1] as int - '0' as int)
  }

  /** The value of an optionally negative decimal numeral. */
  function DecimalValue(s: string): int
  {
    if s != [] && s[0] == '-' then -DigitsValue(s[1..]) else DigitsValue(s)
  }

  lemma {:induction false} DigitsRoundTrip(n: nat)
    ensures DigitsValue(Digits(n)) == n && Digits(n)[0] != '-'
    decreases n
  {
    if n >= 10 {
      DigitsRoundTrip(n / 10);
      var d := Digits(n);
      assert d[..|d| - 1] == Digits(n / 10);
    }
  }

  /** A character printed as a number reads back as its value as a `short`. */
  lemma NumberRoundTrip(ch: Byte, signed: bool)
    ensures DecimalValue(CharRepr(ch, true, signed)) == (if signed && ch >= 128 then ch - 256 else ch)
  {
    var n := if signed && ch >= 128 then ch - 256 else ch;
    if n < 0 {
      DigitsRoundTrip(-n);
      assert ("-" + Digits(-n))[1..] == Digits(-n);
    } else {
      DigitsRoundTrip(n);
    }
  }

  /** The bool and ordering printers give different texts for different values. */
  lemma ReprDistinct(a: bool, b: bool, c: int, d: int)
    ensures BoolRepr(a) == BoolRepr(b) <==> a == b
    ensures OrderingRepr(c) == OrderingRepr(d) <==>
      (c < 0 && d < 0) || (c > 0 && d > 0) || (c == 0 && d == 0)
  {
  }
}
