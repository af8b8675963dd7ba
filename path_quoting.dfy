/**
 * Path quoting for the fast-import stream (`_quote`) and unquoting of the
 * paths `git ls-tree` prints (`_unquote`), exactly as togit.rb writes them,
 * plus a corrected quoting that `_unquote` inverts on every path.
 */
module PathQuoting {
  import opened Wrappers
  import opened RubyText

  /** `str =~ /[\\\n]/`: the path holds a backslash or a newline. */
  predicate NeedsQuote(s: string) {
    '\\' in s || '\n' in s
  }

  /** The replacement `_quote` writes for one byte: a backslash and the byte's octal value, unpadded. */
  function EscapeChar(c: char): string {
    if c == '\\' || c == '\n' then "\\" + NatToS(c as int, 8) else [c]
  }

  function Escape(s: string): (r: string)
    ensures |r| >= |s| && '\n' !in r
  {
    if s == [] then [] else EscapeChar(s[0]) + Escape(s[1..])
  }

  /** `_quote`: paths with a backslash or newline are escaped and wrapped in double quotes. */
  function Quote(s: string): string {
    if NeedsQuote(s) then "\"" + Escape(s) + "\"" else s
  }

  /**
   * A path is left alone exactly when it needs no quoting; a quoted path is
   * wrapped in double quotes; the result never holds a newline, so it stays
   * on its line of the stream.
   */
  lemma QuoteShape(s: string)
    ensures Quote(s) == s <==> !NeedsQuote(s)
    ensures '\n' !in Quote(s)
    ensures NeedsQuote(s) ==> |Quote(s)| >= 2 && Quote(s)[0] == '"' && Quote(s)[|Quote(s)| - 1] == '"'
  {
  }

  /**
   * `str =~ /^".*"$/`. In Ruby `^` and `$` match at every line boundary and
   * `.` stops at a newline, so this holds when some line of `s` starts and
   * ends with a double quote, not only when the whole string does.
   */
  predicate LineWrapped(s: string) {
    exists i, j | 0 <= i < j < |s| :: WrappedLineAt(s, i, j)
  }

  /** `s[i..j+1]` is a whole line of `s` that starts and ends with a double quote. */
  predicate WrappedLineAt(s: string, i: int, j: int)
    requires 0 <= i < j < |s|
  {
    && s[i] == '"' && s[j] == '"'
    && (i == 0 || s[i - 1] == '\n')
    && (j == |s| - 1 || s[j + 1] == '\n')
    && '\n' !in s[i + 1..j]
  }

  /** `ds.to_i(8)`: the value of the leading octal digits; an 8 or 9 ends them. */
  function OctalValue(ds: string): nat {
    DigitsValue(ValidDigitPrefix(ds, 8), 8)
  }

  /**
   * `gsub(/\\\d\d\d/) {|m| m[1..-1].to_i(8).chr}`: scanning left to right,
   * a backslash with three decimal digits after it becomes one byte;
   * `Integer#chr` raises RangeError on a value above 255.
   */
  function DecodeEscapes(s: string): (r: Result<string>)
    ensures r.Success? ==> |r.value| <= |s|
    ensures r.Failure? ==> r.error.CharOutOfRange? && 256 <= r.error.code
    decreases |s|
  {
    if s == [] then Success([])
    else if |s| >= 4 && s[0] == '\\' && IsDigit(s[1]) && IsDigit(s[2]) && IsDigit(s[3]) then
      var v := OctalValue(s[1..4]);
      if v >= 256 then Failure(CharOutOfRange(v))
      else Prepend(v as char, DecodeEscapes(s[4..]))
    else Prepend(s[0], DecodeEscapes(s[1..]))
  }

  /** One decoded byte in front of the rest, or the failure the rest raised. */
  function Prepend(c: char, r: Result<string>): Result<string> {
    if r.Success? then Success([c] + r.value) else r
  }

  lemma LineWrappedLength(s: string)
    requires LineWrapped(s)
    ensures |s| >= 2
  {
  }

  /** `_unquote`: strips the first and last byte and decodes escapes when the pattern matches. */
  function Unquote(s: string): Result<string> {
    if LineWrapped(s) then
      LineWrappedLength(s);
      DecodeEscapes(s[1..|s| - 1])
    else Success(s)
  }

  /**
   * A path with no line wrapped in double quotes comes back as it is; an
   * unquoted path is never longer; the only failure is an escape above 255
   * in a wrapped path.
   */
  lemma UnquoteShape(s: string)
    ensures !LineWrapped(s) ==> Unquote(s) == Success(s)
    ensures Unquote(s).Success? ==> |Unquote(s).value| <= |s|
    ensures Unquote(s).Failure? ==> LineWrapped(s) && Unquote(s).error.CharOutOfRange?
  {
  }

  lemma OctalOfBackslash()
    ensures NatToS('\\' as int, 8) == "134"
  {
    assert NatToS(1, 8) == "1";
    assert NatToS(11, 8) == NatToS(1, 8) + [DigitChar(3)];
    assert NatToS(92, 8) == NatToS(11, 8) + [DigitChar(4)];
  }

  lemma OctalValueOfBackslash()
    ensures OctalValue("134") == '\\' as int
  {
    assert ValidDigitPrefix("4", 8) == "4";
    assert ValidDigitPrefix("34", 8) == "34";
    assert ValidDigitPrefix("134", 8) == "134";
    assert "13"[..1] == "1";
    assert "134"[..2] == "13";
    assert DigitsValue("1", 8) == 1;
    assert DigitsValue("13", 8) == 11;
  }

  lemma OctalOfNewline()
    ensures NatToS('\n' as int, 8) == "12"
  {
    assert NatToS(1, 8) == "1";
    assert NatToS(10, 8) == NatToS(1, 8) + [DigitChar(2)];
  }

  /** A `\134` in front of `t` decodes to a backslash in front of what `t` decodes to. */
  lemma DecodeBackslashEscape(t: string)
    ensures DecodeEscapes(['\\', '1', '3', '4'] + t) == Prepend('\\', DecodeEscapes(t))
  {
    var s := ['\\', '1', '3', '4'] + t;
    assert s[1..4] == "134";
    assert s[4..] == t;
    OctalValueOfBackslash();
  }

  /** Every `\134` that `_quote` writes decodes back to the backslash. */
  lemma {:induction false} DecodeEscape(p: string)
    requires '\n' !in p
    ensures DecodeEscapes(Escape(p)) == Success(p)
  {
    if p != [] {
      assert '\n' !in p[1..];
      DecodeEscape(p[1..]);
      var t := Escape(p[1..]);
      assert Escape(p) == EscapeChar(p[0]) + t;
      if p[0] == '\\' {
        OctalOfBackslash();
        assert EscapeChar(p[0]) == ['\\', '1', '3', '4'];
        DecodeBackslashEscape(t);
        assert p == ['\\'] + p[1..];
      } else {
        var s := [p[0]] + t;
        assert EscapeChar(p[0]) == [p[0]];
        assert s[1..] == t;
        assert p == [p[0]] + p[1..];
      }
    }
  }

  /**
   * `_unquote` inverts `_quote` on every path without a newline whose only
   * line is not itself wrapped in double quotes.
   */
  lemma UnquoteQuote(p: string)
    requires '\n' !in p
    requires !(|p| >= 2 && p[0] == '"' && p[|p| - 1] == '"')
    ensures Unquote(Quote(p)) == Success(p)
  {
    var q := Quote(p);
    if NeedsQuote(p) {
      assert WrappedLineAt(q, 0, |q| - 1);
      assert q[1..|q| - 1] == Escape(p);
      DecodeEscape(p);
    } else {
      assert !LineWrapped(p);
    }
  }

  /** As written: a newline is escaped with two digits, which `_unquote` leaves alone. */
  lemma QuoteNewlineNotInverted()
    ensures Quote("\n") == "\"\\12\""
    ensures Unquote(Quote("\n")) == Success("\\12")
  {
    OctalOfNewline();
    var q := "\"\\12\"";
    assert Escape("\n") == "\\12";
    assert WrappedLineAt(q, 0, 4);
    assert q[1..4] == "\\12";
    var e: string := [];
    assert ['2'] + e == ['2'];
    assert DecodeEscapes(['2']) == Prepend('2', DecodeEscapes(e)) == Success(['2']);
    assert DecodeEscapes(['1', '2']) == Prepend('1', DecodeEscapes(['2'])) == Success(['1', '2']);
    assert ['\\', '1', '2'][1..] == ['1', '2'];
    assert DecodeEscapes(['\\', '1', '2']) == Prepend('\\', DecodeEscapes(['1', '2']));
    var t: string := ['1', '2'];
    assert ['\\'] + t == ['\\', '1', '2'];
    assert "\\12" == ['\\', '1', '2'];
    assert Unquote(q) == DecodeEscapes(q[1..4]);
  }

  /** As written: a path that is itself wrapped in double quotes is not quoted, so `_unquote` strips its quotes. */
  lemma QuoteWrappedNotInverted()
    ensures Quote("\"a\"") == "\"a\""
    ensures Unquote(Quote("\"a\"")) == Success("a")
  {
    var q := "\"a\"";
    assert !NeedsQuote(q);
    assert WrappedLineAt(q, 0, 2);
    assert q[1..2] == ['a'];
    var e: string := [];
    assert ['a'] + e == ['a'];
    assert DecodeEscapes(['a']) == Prepend('a', DecodeEscapes(e)) == Success(['a']);
  }

  /** A path needs the corrected quoting when it holds a backslash, a newline or a double quote. */
  predicate NeedsQuoteFixed(s: string) {
    '\\' in s || '\n' in s || '"' in s
  }

  /** A three-digit, zero-padded octal escape value. */
  function Octal3(v: nat): (r: string)
    requires v < 512
    ensures |r| == 3 && AllDigits(r, 8)
  {
    [DigitChar(v / 64), DigitChar(v / 8 % 8), DigitChar(v % 8)]
  }

  function EscapeCharFixed(c: char): string {
    if c == '\\' || c == '\n' || c == '"' then "\\" + Octal3(c as int) else [c]
  }

  function EscapeFixed(s: string): (r: string)
    ensures |r| >= |s| && '\n' !in r
  {
    if s == [] then [] else EscapeCharFixed(s[0]) + EscapeFixed(s[1..])
  }

  /** Corrected `_quote`: every escape has three digits, and double quotes are escaped too. */
  function QuoteFixed(s: string): (r: string)
    ensures '\n' !in r
    ensures r == s <==> !NeedsQuoteFixed(s)
  {
    if NeedsQuoteFixed(s) then "\"" + EscapeFixed(s) + "\"" else s
  }

  lemma OctalValueOfOctal3(v: nat)
    requires v == 10 || v == 34 || v == 92
    ensures OctalValue(Octal3(v)) == v
  {
    var r := Octal3(v);
    ValidDigitPrefixOfDigits(r, 8);
    DigitsValueOfThree(r[0], r[1], r[2], 8);
    assert r == [r[0], r[1], r[2]];
  }

  /** One escaped byte of the corrected quoting decodes back to that byte. */
  lemma DecodeEscapeCharFixed(c: char, t: string)
    ensures DecodeEscapes(EscapeCharFixed(c) + t) == Prepend(c, DecodeEscapes(t))
  {
    var e := EscapeCharFixed(c);
    var s := e + t;
    if c == '\\' || c == '\n' || c == '"' {
      var o := Octal3(c as int);
      OctalValueOfOctal3(c as int);
      assert e == "\\" + o;
      assert s[..4] == e && s[4..] == t;
      assert s[1..4] == e[1..] == o;
      assert (c as int) as char == c;
    } else {
      assert s[1..] == t;
    }
  }

  lemma {:induction false} DecodeEscapeFixed(p: string)
    ensures DecodeEscapes(EscapeFixed(p)) == Success(p)
  {
    if p != [] {
      DecodeEscapeFixed(p[1..]);
      DecodeEscapeCharFixed(p[0], EscapeFixed(p[1..]));
      assert p == [p[0]] + p[1..];
    }
  }

  /** With the corrected quoting, `_unquote` gives back every path. */
  lemma UnquoteQuoteFixed(p: string)
    ensures Unquote(QuoteFixed(p)) == Success(p)
  {
    var q := QuoteFixed(p);
    if NeedsQuoteFixed(p) {
      assert WrappedLineAt(q, 0, |q| - 1);
      assert q[1..|q| - 1] == EscapeFixed(p);
      DecodeEscapeFixed(p);
    } else {
      assert !LineWrapped(p);
    }
  }
}
