/**
 * The parts of Ruby's String and Integer behaviour that togit.rb relies on:
 * `Integer#to_s(base)`, `String#to_i`, whitespace `split`, `split(sep)` and
 * `IO#puts`. A Ruby 1.8 string is a string of bytes; here each `char`
 * stands for one byte, so `bytesize` is the length of the sequence.
 */
module RubyText {

  predicate IsDigit(c: char) { '0' <= c <= '9' }

  function DigitChar(d: nat): (c: char)
    requires d < 10
    ensures IsDigit(c) && DigitVal(c) == d
  {
    ('0' as int + d) as char
  }

  function DigitVal(c: char): nat
    requires IsDigit(c)
  {
    c as int - '0' as int
  }

  predicate AllDigits(s: string, base: nat) {
    forall i | 0 <= i < |s| :: IsDigit(s[i]) && DigitVal(s[i]) < base
  }

  /** `n.to_s(base)` for a non-negative integer: its digits, most significant first. */
  function NatToS(n: nat, base: nat): (s: string)
    requires 2 <= base <= 10
    ensures |s| >= 1 && AllDigits(s, base)
    ensures s[0] == '0' ==> s == "0"
    decreases n
  {
    if n < base then [DigitChar(n)]
    else
      DivFacts(n, base);
      NatToS(n / base, base) + [DigitChar(n % base)]
  }

  lemma DivFacts(n: nat, base: nat)
    requires 2 <= base && base <= n
    ensures 0 <= n % base < base && 1 <= n / base < n
    ensures (n / base) * base + n % base == n
  {
  }

  /** `n.to_s(base)` for any integer: a minus sign before the digits of a negative one. */
  function IntToS(n: int, base: nat): string
    requires 2 <= base <= 10
  {
    if n < 0 then "-" + NatToS(-n, base) else NatToS(n, base)
  }

  /** The number a string of digits denotes in the given base. */
  function DigitsValue(s: string, base: nat): nat
    requires 2 <= base <= 10 && AllDigits(s, base)
  {
    if s == [] then 0
    else DigitsValue(s[..|s| - 1], base) * base + DigitVal(s[|s| - 1])
  }

  /** Reading back the digits `to_s` writes gives the number. */
  lemma DigitsValueSnoc(q: string, d: char, base: nat)
    requires 2 <= base <= 10 && AllDigits(q, base) && IsDigit(d) && DigitVal(d) < base
    ensures AllDigits(q + [d], base)
    ensures DigitsValue(q + [d], base) == DigitsValue(q, base) * base + DigitVal(d)
  {
    assert (q + [d])[..|q|] == q;
  }

  lemma {:induction false} DigitsValueOfNatToS(n: nat, base: nat)
    requires 2 <= base <= 10
    ensures DigitsValue(NatToS(n, base), base) == n
    decreases n
  {
    if n < base {
      var s := [DigitChar(n)];
      assert s[..0] == [];
      assert DigitsValue(s, base) == DigitsValue([], base) * base + n;
    } else {
      DivFacts(n, base);
      var q := NatToS(n / base, base);
      var d := DigitChar(n % base);
      assert NatToS(n, base) == q + [d];
      DigitsValueSnoc(q, d, base);
      DigitsValueOfNatToS(n / base, base);
      var a := DigitsValue(q, base);
      assert a == n / base;
      assert DigitsValue(q + [d], base) == a * base + n % base;
    }
  }

  /** The longest prefix of `s` made of digits valid in `base`; `to_i(base)` reads only this much. */
  function ValidDigitPrefix(s: string, base: nat): (p: string)
    requires 2 <= base <= 10
    ensures AllDigits(p, base) && p <= s
    ensures |p| < |s| ==> !(IsDigit(s[|p|]) && DigitVal(s[|p|]) < base)
  {
    if s == [] || !(IsDigit(s[0]) && DigitVal(s[0]) < base) then []
    else [s[0]] + ValidDigitPrefix(s[1..], base)
  }

  lemma {:induction false} ValidDigitPrefixOfDigits(s: string, base: nat)
    requires 2 <= base <= 10 && AllDigits(s, base)
    ensures ValidDigitPrefix(s, base) == s
  {
    if s != [] {
      assert AllDigits(s[1..], base);
      ValidDigitPrefixOfDigits(s[1..], base);
    }
  }

  lemma DigitsValueOfThree(a: char, b: char, c: char, base: nat)
    requires 2 <= base <= 10
    requires IsDigit(a) && DigitVal(a) < base && IsDigit(b) && DigitVal(b) < base
    requires IsDigit(c) && DigitVal(c) < base
    ensures AllDigits([a, b, c], base)
    ensures DigitsValue([a, b, c], base) == (DigitVal(a) * base + DigitVal(b)) * base + DigitVal(c)
  {
    assert [a, b, c][..2] == [a, b];
    assert [a, b][..1] == [a];
    assert [a][..0] == [];
    assert DigitsValue([a], base) == 0 * base + DigitVal(a) == DigitVal(a);
    assert DigitsValue([a, b], base) == DigitVal(a) * base + DigitVal(b);
  }

  /**
   * The digits `String#to_i` reads after an optional sign: a run of decimal
   * digits in which a single `_` may stand between two digits.
   */
  function DecimalRun(s: string): (r: string)
    ensures AllDigits(r, 10) && |r| <= |s|
  {
    if s == [] || !IsDigit(s[0]) then []
    else if |s| >= 3 && s[1] == '_' && IsDigit(s[2]) then [s[0]] + DecimalRun(s[2..])
    else [s[0]] + DecimalRun(s[1..])
  }

  /** The text after its leading whitespace. */
  function SkipSpace(s: string): string {
    if s != [] && IsSpace(s[0]) then SkipSpace(s[1..]) else s
  }

  /**
   * `String#to_i`: leading whitespace skipped, an optional sign, then the
   * leading decimal run; 0 when there is none.
   */
  function ToI(s: string): int {
    var t := SkipSpace(s);
    if |t| > 0 && t[0] == '-' then 0 - DigitsValue(DecimalRun(t[1..]), 10)
    else if |t| > 0 && t[0] == '+' then DigitsValue(DecimalRun(t[1..]), 10)
    else DigitsValue(DecimalRun(t), 10)
  }

  lemma {:induction false} DecimalRunOfDigits(s: string)
    requires AllDigits(s, 10)
    ensures DecimalRun(s) == s
  {
    if s != [] {
      assert AllDigits(s[1..], 10);
      DecimalRunOfDigits(s[1..]);
    }
  }

  /** `to_i` reads back every integer that `to_s` writes in decimal. */
  lemma ToIOfIntToS(n: int)
    ensures ToI(IntToS(n, 10)) == n
  {
    assert SkipSpace(IntToS(n, 10)) == IntToS(n, 10);
    if n < 0 {
      var d := NatToS(-n, 10);
      assert IntToS(n, 10)[1..] == d;
      DecimalRunOfDigits(d);
      DigitsValueOfNatToS(-n, 10);
    } else {
      DecimalRunOfDigits(NatToS(n, 10));
      DigitsValueOfNatToS(n, 10);
    }
  }

  /** The characters awk-style `split` (no argument) separates on. */
  predicate IsSpace(c: char) {
    c == ' ' || c == '\t' || c == '\n' || c == '\r' || c as int == 11 || c as int == 12
  }

  predicate NoSpace(w: string) {
    forall i | 0 <= i < |w| :: !IsSpace(w[i])
  }

  /** The length of the word at the start of `s`. */
  function WordEnd(s: string): (k: nat)
    ensures k <= |s| && NoSpace(s[..k])
    ensures k < |s| ==> IsSpace(s[k])
  {
    if s == [] || IsSpace(s[0]) then 0
    else
      var k := 1 + WordEnd(s[1..]);
      assert s[..k] == [s[0]] + s[1..][..k - 1];
      k
  }

  /** `line.split`: the non-empty runs of non-space characters, in order. */
  function Fields(s: string): (r: seq<string>)
    ensures forall i | 0 <= i < |r| :: r[i] != [] && NoSpace(r[i])
    decreases |s|
  {
    if s == [] then []
    else if IsSpace(s[0]) then Fields(s[1..])
    else
      var k := WordEnd(s);
      [s[..k]] + Fields(s[k..])
  }

  lemma {:induction false} WordEndBeforeSpace(x: string, c: char, y: string)
    requires IsSpace(c)
    ensures WordEnd(x + [c] + y) == WordEnd(x)
  {
    if x != [] && !IsSpace(x[0]) {
      assert (x + [c] + y)[1..] == x[1..] + [c] + y;
      WordEndBeforeSpace(x[1..], c, y);
    }
  }

  /** A space splits the fields of a line into the fields on either side of it. */
  lemma {:induction false} FieldsAroundSpace(x: string, c: char, y: string)
    requires IsSpace(c)
    ensures Fields(x + [c] + y) == Fields(x) + Fields(y)
    decreases |x|
  {
    var s := x + [c] + y;
    if x == [] {
      assert s[1..] == y;
    } else if IsSpace(x[0]) {
      assert s[1..] == x[1..] + [c] + y;
      FieldsAroundSpace(x[1..], c, y);
    } else {
      var k := WordEnd(s);
      WordEndBeforeSpace(x, c, y);
      assert s[..k] == x[..k];
      assert s[k..] == x[k..] + [c] + y;
      FieldsAroundSpace(x[k..], c, y);
    }
  }

  lemma FieldsOfWord(w: string)
    requires w != [] && NoSpace(w)
    ensures Fields(w) == [w]
  {
    assert WordEnd(w) == |w|;
    assert w[..|w|] == w;
    assert w[|w|..] == [];
  }

  /** Splitting at every `sep`, keeping empty fields: one more field than separators. */
  function SplitAll(s: string, sep: char): (r: seq<string>)
    ensures |r| >= 1
    ensures forall i | 0 <= i < |r| :: sep !in r[i]
  {
    if s == [] then [[]]
    else
      var rest := SplitAll(s[1..], sep);
      if s[0] == sep then [[]] + rest else [[s[0]] + rest[0]] + rest[1..]
  }

  function DropTrailingEmpty(fields: seq<string>): (r: seq<string>)
    ensures r <= fields
    ensures r == [] || r[|r| - 1] != []
    ensures forall i | |r| <= i < |fields| :: fields[i] == []
  {
    if fields == [] then []
    else if fields[|fields| - 1] == [] then DropTrailingEmpty(fields[..|fields| - 1])
    else fields
  }

  /** `String#split(sep)`: like SplitAll, but trailing empty fields are dropped. */
  function Split(s: string, sep: char): seq<string> {
    DropTrailingEmpty(SplitAll(s, sep))
  }

  lemma {:induction false} SplitAllCons(a: string, sep: char, b: string)
    requires sep !in a
    ensures SplitAll(a + [sep] + b, sep) == [a] + SplitAll(b, sep)
  {
    if a == [] {
      assert ([sep] + b)[1..] == b;
    } else {
      assert (a + [sep] + b)[1..] == a[1..] + [sep] + b;
      SplitAllCons(a[1..], sep, b);
      assert [a[0]] + a[1..] == a;
    }
  }

  lemma {:induction false} DropTrailingEmptyCons(a: string, rest: seq<string>)
    requires a != []
    ensures DropTrailingEmpty([a] + rest) == [a] + DropTrailingEmpty(rest)
    decreases |rest|
  {
    var whole := [a] + rest;
    if rest == [] {
      assert whole == [a];
    } else if rest[|rest| - 1] == [] {
      var init := rest[..|rest| - 1];
      assert whole[|whole| - 1] == [];
      assert whole[..|whole| - 1] == [a] + init;
      DropTrailingEmptyCons(a, init);
      assert DropTrailingEmpty(rest) == DropTrailingEmpty(init);
    } else {
      assert whole[|whole| - 1] != [];
    }
  }

  /** A non-empty first line comes out of `split` as the first field. */
  lemma SplitCons(a: string, sep: char, b: string)
    requires a != [] && sep !in a
    ensures Split(a + [sep] + b, sep) == [a] + Split(b, sep)
  {
    SplitAllCons(a, sep, b);
    DropTrailingEmptyCons(a, SplitAll(b, sep));
  }

  /** `io.puts(s)`: writes `s`, then a newline unless `s` already ends with one. */
  function Puts(s: string): string {
    if |s| > 0 && s[|s| - 1] == '\n' then s else s + "\n"
  }

  /** What `puts` writes is one or more whole lines: `s` itself, newline-terminated. */
  lemma PutsEndsLine(s: string)
    ensures var r := Puts(s); |r| > 0 && r[|r| - 1] == '\n'
    ensures Puts(s) == s || Puts(s) == s + "\n"
    ensures s <= Puts(s)
    ensures Puts(Puts(s)) == Puts(s)
  {
  }
}
