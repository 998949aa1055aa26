/** String primitives the server (PHP) and the browser client (JavaScript) rely on:
    the two languages' `trim`, JavaScript's `parseInt(s, 10)` and the decimal value of a digit string. */
module Text {
  import opened Common

  /** The characters PHP's `trim()` strips by default: space, tab, line feed, carriage return, NUL and vertical tab. */
  predicate IsPhpSpace(c: char) {
    c == ' ' || c == '\t' || c == '\n' || c == '\r' || c == '\0' || c == '\U{000B}'
  }

  /** ECMAScript WhiteSpace and LineTerminator code points: what `String.prototype.trim` and `parseInt` skip. */
  predicate IsJsSpace(c: char) {
    c == '\t' || c == '\U{000B}' || c == '\U{000C}' || c == ' ' || c == '\U{00A0}' || c == '\U{FEFF}'
    || c == '\U{1680}' || ('\U{2000}' <= c <= '\U{200A}') || c == '\U{202F}' || c == '\U{205F}' || c == '\U{3000}'
    || c == '\n' || c == '\r' || c == '\U{2028}' || c == '\U{2029}'
  }

  predicate IsDigit(c: char) {
    '0' <= c <= '9'
  }

  /** `s` without its leading characters that satisfy `sp`. */
  function DropLeading(s: string, sp: char -> bool): (r: string)
    ensures |r| <= |s|
    ensures r != [] ==> !sp(r[0])
  {
    if s != [] && sp(s[0]) then DropLeading(s[1..], sp) else s
  }

  /** What `DropLeading` removed is a run of `sp` characters and what it kept is the rest of `s`. */
  lemma {:induction false} DropLeadingFacts(s: string, sp: char -> bool)
    ensures DropLeading(s, sp) == s[|s| - |DropLeading(s, sp)|..]
    ensures forall i :: 0 <= i < |s| - |DropLeading(s, sp)| ==> sp(s[i])
  {
    if s != [] && sp(s[0]) {
      DropLeadingFacts(s[1..], sp);
      assert s[1..][|s| - 1 - |DropLeading(s, sp)|..] == s[|s| - |DropLeading(s, sp)|..];
      forall i | 1 <= i < |s| - |DropLeading(s, sp)| ensures sp(s[i]) {
        assert s[1..][i - 1] == s[i];
      }
    }
  }

  /** `s` without its trailing characters that satisfy `sp`. */
  function DropTrailing(s: string, sp: char -> bool): (r: string)
    ensures |r| <= |s|
    ensures r != [] ==> !sp(r[|r| - 1])
  {
    if s != [] && sp(s[|s| - 1]) then DropTrailing(s[..|s| - 1], sp) else s
  }

  /** What `DropTrailing` removed is a run of `sp` characters and what it kept is a prefix of `s`. */
  lemma {:induction false} DropTrailingFacts(s: string, sp: char -> bool)
    ensures DropTrailing(s, sp) == s[..|DropTrailing(s, sp)|]
    ensures forall i :: |DropTrailing(s, sp)| <= i < |s| ==> sp(s[i])
  {
    if s != [] && sp(s[|s| - 1]) {
      DropTrailingFacts(s[..|s| - 1], sp);
      assert s[..|s| - 1][..|DropTrailing(s, sp)|] == s[..|DropTrailing(s, sp)|];
    }
  }

  /** PHP `trim($s)`: no stripped character is left at either end. */
  function PhpTrim(s: string): (r: string)
    ensures |r| <= |s|
    ensures r != [] ==> !IsPhpSpace(r[0]) && !IsPhpSpace(r[|r| - 1])
  {
    DropTrailingFacts(DropLeading(s, IsPhpSpace), IsPhpSpace);
    DropTrailing(DropLeading(s, IsPhpSpace), IsPhpSpace)
  }

  /** JavaScript `s.trim()`: no whitespace or line terminator is left at either end. */
  function JsTrim(s: string): (r: string)
    ensures |r| <= |s|
    ensures r != [] ==> !IsJsSpace(r[0]) && !IsJsSpace(r[|r| - 1])
  {
    DropTrailingFacts(DropLeading(s, IsJsSpace), IsJsSpace);
    DropTrailing(DropLeading(s, IsJsSpace), IsJsSpace)
  }

  /** Trimming both ends with `sp` leaves nothing exactly when every character satisfies `sp`. */
  lemma TrimEmptyIff(s: string, sp: char -> bool)
    ensures DropTrailing(DropLeading(s, sp), sp) == [] <==> forall i :: 0 <= i < |s| ==> sp(s[i])
  {
    var l := DropLeading(s, sp);
    var k := |s| - |l|;
    DropLeadingFacts(s, sp);
    DropTrailingFacts(l, sp);
    var t := DropTrailing(l, sp);
    if t != [] {
      assert t[|t| - 1] == l[|t| - 1] == s[k + |t| - 1];
    }
  }

  /** A PHP-trimmed string is empty exactly when every character is one PHP strips. */
  lemma PhpTrimEmptyIff(s: string)
    ensures PhpTrim(s) == [] <==> forall i :: 0 <= i < |s| ==> IsPhpSpace(s[i])
  {
    TrimEmptyIff(s, IsPhpSpace);
  }

  /** The same for JavaScript's trim. */
  lemma JsTrimEmptyIff(s: string)
    ensures JsTrim(s) == [] <==> forall i :: 0 <= i < |s| ==> IsJsSpace(s[i])
  {
    TrimEmptyIff(s, IsJsSpace);
  }

  /** The browser trims with JavaScript's whitespace set, the server with PHP's. A non-empty
      JavaScript-trimmed text that the server nevertheless sees as blank consists of PHP-space
      characters only, and it starts with NUL (which JavaScript does not count as whitespace). */
  lemma PhpBlankAfterJsTrim(s: string)
    requires JsTrim(s) != [] && PhpTrim(JsTrim(s)) == []
    ensures JsTrim(s)[0] == '\0' && JsTrim(s)[|JsTrim(s)| - 1] == '\0'
    ensures forall c :: c in JsTrim(s) ==> IsPhpSpace(c)
  {
    var t := JsTrim(s);
    PhpTrimEmptyIff(t);
    var l := DropLeading(s, IsJsSpace);
    DropTrailingFacts(l, IsJsSpace);
    assert t[0] == l[0];
  }

  /** The input that shows the gap: a lone NUL passes the browser's check but not the server's. */
  lemma NulPassesJsTrimOnly()
    ensures JsTrim("\0") == "\0" && PhpTrim("\0") == ""
  {
  }

  /** The longest prefix of `s` made of ASCII digits. */
  function DigitPrefix(s: string): (r: string)
    ensures |r| <= |s| && r == s[..|r|]
    ensures forall i :: 0 <= i < |r| ==> IsDigit(r[i])
    ensures |r| < |s| ==> !IsDigit(s[|r|])
  {
    if s != [] && IsDigit(s[0]) then [s[0]] + DigitPrefix(s[1..]) else []
  }

  /** Decimal value of a digit string (PHP's `(int)` cast of the digits a route captured). */
  function DigitsValue(ds: string): nat
    requires forall i :: 0 <= i < |ds| ==> IsDigit(ds[i])
  {
    if ds == [] then 0
    else
      assert IsDigit(ds[|ds| - 1]);
      10 * DigitsValue(ds[..|ds| - 1]) + (ds[|ds| - 1] as int - '0' as int)
  }

  /** Decimal notation of a natural number, without leading zeros. */
  function DecimalString(n: nat): (r: string)
    ensures r != [] && forall i :: 0 <= i < |r| ==> IsDigit(r[i])
  {
    if n < 10 then [('0' as int + n) as char] else DecimalString(n / 10) + [('0' as int + n % 10) as char]
  }

  /** Reading back the decimal notation of `n` gives `n`. */
  lemma {:induction false} DigitsValueOfDecimalString(n: nat)
    ensures DigitsValue(DecimalString(n)) == n
  {
    var r := DecimalString(n);
    if n >= 10 {
      DigitsValueOfDecimalString(n / 10);
      assert r[..|r| - 1] == DecimalString(n / 10);
    } else {
      assert r[..|r| - 1] == [];
    }
  }

  /** JavaScript `parseInt(s, 10)`; `None` stands for NaN. Leading whitespace is skipped, one sign
      is accepted, then the longest run of decimal digits is read; no digit at all gives NaN. */
  function ParseInt(s: string): (r: Option<int>)
    ensures (forall c :: c in s ==> !IsDigit(c)) ==> r.None?
    ensures s != [] && IsDigit(s[0]) ==> r == Some(DigitsValue(DigitPrefix(s)))
  {
    DropLeadingFacts(s, IsJsSpace);
    var t := DropLeading(s, IsJsSpace);
    var negative := t != [] && t[0] == '-';
    var body := if t != [] && (t[0] == '-' || t[0] == '+') then t[1..] else t;
    var ds := DigitPrefix(body);
    if ds == [] then None
    else if negative then Some(-(DigitsValue(ds) as int))
    else Some(DigitsValue(ds))
  }

  /** `parseInt` reads back a number written in decimal. */
  lemma ParseIntOfDecimalString(n: nat)
    ensures ParseInt(DecimalString(n)) == Some(n)
  {
    var r := DecimalString(n);
    assert DropLeading(r, IsJsSpace) == r;
    assert DigitPrefix(r) == r by { DigitPrefixAllDigits(r); }
    DigitsValueOfDecimalString(n);
  }

  lemma {:induction false} DigitPrefixAllDigits(s: string)
    requires forall i :: 0 <= i < |s| ==> IsDigit(s[i])
    ensures DigitPrefix(s) == s
  {
    if s != [] {
      DigitPrefixAllDigits(s[1..]);
    }
  }
}
