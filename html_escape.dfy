/** The browser's `escapeHtml`: five global replacements applied in turn, `&` first, then `<`,
    `>`, `"` and `'`. Proved: it is a per-character substitution, so it distributes over
    concatenation, makes every `&` the start of an entity, changes
    nothing without special characters, never shortens, and can be undone. */
module HtmlEscape {

  /** `s.replace(/c/g, rep)` for a one-character pattern: each occurrence of `c`, left to right,
      becomes `rep`. */
  function ReplaceChar(s: string, c: char, rep: string): (r: string)
    ensures forall x :: x in r ==> x in rep || (x in s && x != c)
    ensures rep != [] ==> |r| >= |s|
  {
    if s == [] then [] else Piece(s[0], c, rep) + ReplaceChar(s[1..], c, rep)
  }

  /** What one character becomes under the replacement of `c` by `rep`. */
  function Piece(x: char, c: char, rep: string): string {
    if x == c then rep else [x]
  }

  lemma ReplaceCharSingle(x: char, c: char, rep: string)
    ensures ReplaceChar([x], c, rep) == Piece(x, c, rep)
  {
    assert [x][1..] == [];
  }

  /** Replacing in a concatenation replaces in each part. */
  lemma {:induction false} ReplaceCharAppend(a: string, b: string, c: char, rep: string)
    ensures ReplaceChar(a + b, c, rep) == ReplaceChar(a, c, rep) + ReplaceChar(b, c, rep)
  {
    if a == [] {
      assert a + b == b;
    } else {
      ReplaceCharAppend(a[1..], b, c, rep);
      assert (a + b)[0] == a[0] && (a + b)[1..] == a[1..] + b;
    }
  }

  /** Without an occurrence of `c` there is nothing to replace. */
  lemma {:induction false} ReplaceCharAbsent(s: string, c: char, rep: string)
    requires c !in s
    ensures ReplaceChar(s, c, rep) == s
  {
    if s != [] {
      ReplaceCharAbsent(s[1..], c, rep);
    }
  }

  /** `escapeHtml` of helpers.js: no markup character survives, and nothing gets shorter. */
  function EscapeHtml(s: string): (r: string)
    ensures '<' !in r && '>' !in r && '"' !in r && '\'' !in r
    ensures |r| >= |s|
  {
    var s1 := ReplaceChar(s, '&', "&amp;");
    var s2 := ReplaceChar(s1, '<', "&lt;");
    var s3 := ReplaceChar(s2, '>', "&gt;");
    var s4 := ReplaceChar(s3, '"', "&quot;");
    assert '<' !in s2 && '<' !in s3 && '<' !in s4;
    assert '>' !in s3 && '>' !in s4;
    assert '"' !in s4;
    ReplaceChar(s4, '\'', "&#039;")
  }

  /** The five characters that are escaped. */
  predicate IsSpecial(c: char) {
    c == '&' || c == '<' || c == '>' || c == '"' || c == '\''
  }

  /** The entity each character becomes (itself when it is not special). */
  function EscapeChar(c: char): string {
    if c == '&' then "&amp;"
    else if c == '<' then "&lt;"
    else if c == '>' then "&gt;"
    else if c == '"' then "&quot;"
    else if c == '\'' then "&#039;"
    else [c]
  }

  /** The reference definition: every character replaced by its entry in the table. */
  function EscapeEach(s: string): string {
    if s == [] then [] else EscapeChar(s[0]) + EscapeEach(s[1..])
  }

  /** The chain distributes over concatenation. */
  lemma EscapeHtmlAppend(a: string, b: string)
    ensures EscapeHtml(a + b) == EscapeHtml(a) + EscapeHtml(b)
  {
    var a1, b1 := ReplaceChar(a, '&', "&amp;"), ReplaceChar(b, '&', "&amp;");
    ReplaceCharAppend(a, b, '&', "&amp;");
    var a2, b2 := ReplaceChar(a1, '<', "&lt;"), ReplaceChar(b1, '<', "&lt;");
    ReplaceCharAppend(a1, b1, '<', "&lt;");
    var a3, b3 := ReplaceChar(a2, '>', "&gt;"), ReplaceChar(b2, '>', "&gt;");
    ReplaceCharAppend(a2, b2, '>', "&gt;");
    var a4, b4 := ReplaceChar(a3, '"', "&quot;"), ReplaceChar(b3, '"', "&quot;");
    ReplaceCharAppend(a3, b3, '"', "&quot;");
    ReplaceCharAppend(a4, b4, '\'', "&#039;");
  }

  /** On one character the chain gives that character's table entry: no later replacement
      touches an entity an earlier one produced. */
  lemma EscapeHtmlChar(c: char)
    ensures EscapeHtml([c]) == EscapeChar(c)
  {
    ReplaceCharSingle(c, '&', "&amp;");
    if c == '&' {
      AfterAmpersand("&amp;");
    } else {
      AfterAmpersandChar(c);
    }
  }

  /** The four later replacements leave an `&amp;` alone. */
  lemma AfterAmpersand(e: string)
    requires e == "&amp;"
    ensures ReplaceChar(ReplaceChar(ReplaceChar(ReplaceChar(e, '<', "&lt;"), '>', "&gt;"), '"', "&quot;"), '\'', "&#039;") == e
  {
    ReplaceCharAbsent(e, '<', "&lt;");
    ReplaceCharAbsent(e, '>', "&gt;");
    ReplaceCharAbsent(e, '"', "&quot;");
    ReplaceCharAbsent(e, '\'', "&#039;");
  }

  /** The four later replacements on a character other than `&`. */
  lemma AfterAmpersandChar(c: char)
    requires c != '&'
    ensures ReplaceChar(ReplaceChar(ReplaceChar(ReplaceChar([c], '<', "&lt;"), '>', "&gt;"), '"', "&quot;"), '\'', "&#039;") == EscapeChar(c)
  {
    ReplaceCharSingle(c, '<', "&lt;");
    if c == '<' {
      var e := "&lt;";
      ReplaceCharAbsent(e, '>', "&gt;");
      ReplaceCharAbsent(e, '"', "&quot;");
      ReplaceCharAbsent(e, '\'', "&#039;");
    } else {
      ReplaceCharSingle(c, '>', "&gt;");
      if c == '>' {
        var e := "&gt;";
        ReplaceCharAbsent(e, '"', "&quot;");
        ReplaceCharAbsent(e, '\'', "&#039;");
      } else {
        ReplaceCharSingle(c, '"', "&quot;");
        if c == '"' {
          ReplaceCharAbsent("&quot;", '\'', "&#039;");
        } else {
          ReplaceCharSingle(c, '\'', "&#039;");
        }
      }
    }
  }

  /** The chain of five replacements is exactly the per-character substitution. */
  lemma {:induction false} EscapeHtmlIsPerCharacter(s: string)
    ensures EscapeHtml(s) == EscapeEach(s)
  {
    if s != [] {
      assert s == [s[0]] + s[1..];
      EscapeHtmlAppend([s[0]], s[1..]);
      EscapeHtmlChar(s[0]);
      EscapeHtmlIsPerCharacter(s[1..]);
    }
  }

  predicate StartsWith(s: string, p: string) {
    |p| <= |s| && s[..|p|] == p
  }

  /** Position `i` of `r` starts one of the five entities. */
  predicate EntityAt(r: string, i: int)
    requires 0 <= i <= |r|
  {
    || StartsWith(r[i..], "&amp;")
    || StartsWith(r[i..], "&lt;")
    || StartsWith(r[i..], "&gt;")
    || StartsWith(r[i..], "&quot;")
    || StartsWith(r[i..], "&#039;")
  }

  /** Because `&` is replaced first, every `&` of the output begins an entity: nothing is escaped
      twice and no raw ampersand is left. */
  lemma AmpersandsStartEntities(s: string)
    ensures forall i :: 0 <= i < |EscapeHtml(s)| && EscapeHtml(s)[i] == '&' ==> EntityAt(EscapeHtml(s), i)
  {
    EscapeHtmlIsPerCharacter(s);
    EscapeEachAmpersands(s);
  }

  lemma {:induction false} EscapeEachAmpersands(s: string)
    ensures forall i :: 0 <= i < |EscapeEach(s)| && EscapeEach(s)[i] == '&' ==> EntityAt(EscapeEach(s), i)
  {
    if s != [] {
      var h := EscapeChar(s[0]);
      var t := EscapeEach(s[1..]);
      var r := EscapeEach(s);
      assert r == h + t;
      EscapeEachAmpersands(s[1..]);
      forall i | 0 <= i < |r| && r[i] == '&' ensures EntityAt(r, i) {
        if i < |h| {
          assert i == 0 && IsSpecial(s[0]) && r[..|h|] == h;
        } else {
          assert r[i..] == t[i - |h|..];
        }
      }
    }
  }

  /** A string without special characters is returned unchanged. */
  lemma {:induction false} UnchangedWithoutSpecials(s: string)
    requires forall i :: 0 <= i < |s| ==> !IsSpecial(s[i])
    ensures EscapeHtml(s) == s
  {
    EscapeHtmlIsPerCharacter(s);
    EscapeEachUnchanged(s);
  }

  lemma {:induction false} EscapeEachUnchanged(s: string)
    requires forall i :: 0 <= i < |s| ==> !IsSpecial(s[i])
    ensures EscapeEach(s) == s
  {
    if s != [] {
      EscapeEachUnchanged(s[1..]);
    }
  }

  /** Number of special characters in `s`. */
  function SpecialCount(s: string): nat {
    if s == [] then 0 else (if IsSpecial(s[0]) then 1 else 0) + SpecialCount(s[1..])
  }

  /** Escaping never shortens a string, and lengthens it exactly when a special character occurs
      (each grows by 3 to 5 characters). */
  lemma LengthNondecreasing(s: string)
    ensures |EscapeHtml(s)| >= |s| + 3 * SpecialCount(s)
    ensures |EscapeHtml(s)| <= |s| + 5 * SpecialCount(s)
  {
    EscapeHtmlIsPerCharacter(s);
    EscapeEachLength(s);
  }

  lemma {:induction false} EscapeEachLength(s: string)
    ensures |s| + 3 * SpecialCount(s) <= |EscapeEach(s)| <= |s| + 5 * SpecialCount(s)
  {
    if s != [] {
      EscapeEachLength(s[1..]);
    }
  }

  /** A decoder of the five entities: an entity becomes its character, anything else is copied. */
  function Unescape(t: string): string
    decreases |t|
  {
    if t == [] then []
    else if StartsWith(t, "&amp;") then "&" + Unescape(t[5..])
    else if StartsWith(t, "&lt;") then "<" + Unescape(t[4..])
    else if StartsWith(t, "&gt;") then ">" + Unescape(t[4..])
    else if StartsWith(t, "&quot;") then ['"'] + Unescape(t[6..])
    else if StartsWith(t, "&#039;") then "'" + Unescape(t[6..])
    else [t[0]] + Unescape(t[1..])
  }

  /** Decoding one escaped character in front of more escaped text takes back that character. */
  lemma UnescapeStep(c: char, t: string)
    ensures Unescape(EscapeChar(c) + t) == [c] + Unescape(t)
  {
    if c == '&' {
      UnescapeAmp("&amp;" + t, t);
    } else if c == '<' {
      UnescapeLt("&lt;" + t, t);
    } else if c == '>' {
      UnescapeGt("&gt;" + t, t);
    } else if c == '"' {
      UnescapeQuot("&quot;" + t, t);
    } else if c == '\'' {
      UnescapeApos("&#039;" + t, t);
    } else {
      UnescapePlain(c, [c] + t, t);
    }
  }

  lemma UnescapeAmp(u: string, t: string)
    requires u == "&amp;" + t
    ensures Unescape(u) == "&" + Unescape(t)
  {
    assert u[..5] == "&amp;" && u[5..] == t;
  }

  lemma UnescapeLt(u: string, t: string)
    requires u == "&lt;" + t
    ensures Unescape(u) == "<" + Unescape(t)
  {
    assert u[..4] == "&lt;" && u[4..] == t;
    NotStartsWith(u, "&amp;", 1);
  }

  lemma UnescapePlain(c: char, u: string, t: string)
    requires !IsSpecial(c) && u == [c] + t
    ensures Unescape(u) == [c] + Unescape(t)
  {
    assert u[1..] == t;
    NotStartsWith(u, "&amp;", 0);
    NotStartsWith(u, "&lt;", 0);
    NotStartsWith(u, "&gt;", 0);
    NotStartsWith(u, "&quot;", 0);
    NotStartsWith(u, "&#039;", 0);
  }

  lemma UnescapeGt(u: string, t: string)
    requires u == "&gt;" + t
    ensures Unescape(u) == ">" + Unescape(t)
  {
    assert u[..4] == "&gt;" && u[4..] == t;
    NotStartsWith(u, "&amp;", 1);
    NotStartsWith(u, "&lt;", 1);
  }

  lemma UnescapeQuot(u: string, t: string)
    requires u == "&quot;" + t
    ensures Unescape(u) == ['"'] + Unescape(t)
  {
    assert u[..6] == "&quot;" && u[6..] == t;
    NotStartsWith(u, "&amp;", 1);
    NotStartsWith(u, "&lt;", 1);
    NotStartsWith(u, "&gt;", 1);
  }

  lemma UnescapeApos(u: string, t: string)
    requires u == "&#039;" + t
    ensures Unescape(u) == "'" + Unescape(t)
  {
    assert u[..6] == "&#039;" && u[6..] == t;
    NotStartsWith(u, "&amp;", 1);
    NotStartsWith(u, "&lt;", 1);
    NotStartsWith(u, "&gt;", 1);
    NotStartsWith(u, "&quot;", 1);
  }

  /** A string that differs from `p` at position `k` does not start with `p`. */
  lemma NotStartsWith(u: string, p: string, k: nat)
    requires k < |u| && k < |p| && u[k] != p[k]
    ensures !StartsWith(u, p)
  {
    if |p| <= |u| {
      assert u[..|p|][k] == u[k];
    }
  }

  /** Decoding undoes escaping. */
  lemma {:induction false} UnescapeEscape(s: string)
    ensures Unescape(EscapeHtml(s)) == s
  {
    EscapeHtmlIsPerCharacter(s);
    UnescapeEscapeEach(s);
  }

  lemma {:induction false} UnescapeEscapeEach(s: string)
    ensures Unescape(EscapeEach(s)) == s
  {
    if s != [] {
      UnescapeStep(s[0], EscapeEach(s[1..]));
      UnescapeEscapeEach(s[1..]);
    }
  }

  /** Escaping is injective: two strings with the same escape are equal. */
  lemma EscapeInjective(a: string, b: string)
    requires EscapeHtml(a) == EscapeHtml(b)
    ensures a == b
  {
    UnescapeEscape(a);
    UnescapeEscape(b);
  }
}
