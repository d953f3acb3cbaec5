/**
 * String helpers of the account switcher: Python's `str.strip()` as the form
 * handlers use it, the clipboard sanitiser of the copy panel, the password mask
 * of the copy panel, SQLite's NOCASE ordering of nicknames, and the substring
 * test behind the window search.
 */
module Strings {

  // ---------------------------------------------------------------------------
  // str.strip()
  // ---------------------------------------------------------------------------

  /** Python's `str.isspace` for one character: the characters that `strip()` with no argument removes. */
  predicate IsSpace(c: char) {
    || ('\t' <= c <= '\r')                  // U+0009 .. U+000D
    || ('\U{001C}' <= c <= '\U{001F}')
    || c == ' '
    || c == '\U{0085}'
    || c == '\U{00A0}'
    || c == '\U{1680}'
    || ('\U{2000}' <= c <= '\U{200A}')
    || c == '\U{2028}'
    || c == '\U{2029}'
    || c == '\U{202F}'
    || c == '\U{205F}'
    || c == '\U{3000}'
  }

  ghost predicate Blank(s: string) {
    forall i | 0 <= i < |s| :: IsSpace(s[i])
  }

  /** Drops leading whitespace: the result is a suffix of `s` that does not start with whitespace. */
  function TrimStart(s: string): (r: string)
    ensures |r| <= |s| && r == s[|s| - |r|..]
    ensures Blank(s[..|s| - |r|])
    ensures r != [] ==> !IsSpace(r[0])
  {
    if s != [] && IsSpace(s[0]) then
      var r := TrimStart(s[1..]);
      assert s[..|s| - |r|] == [s[0]] + s[1..][..|s| - 1 - |r|];
      r
    else
      s
  }

  /** Drops trailing whitespace: the result is a prefix of `s` that does not end with whitespace. */
  function TrimEnd(s: string): (r: string)
    ensures |r| <= |s| && r == s[..|r|]
    ensures Blank(s[|r|..])
    ensures r != [] ==> !IsSpace(r[|r| - 1])
  {
    if s != [] && IsSpace(s[|s| - 1]) then
      var r := TrimEnd(s[..|s| - 1]);
      assert s[|r|..] == s[..|s| - 1][|r|..] + [s[|s| - 1]];
      r
    else
      s
  }

  /** `s.strip()`: neither end of the result is whitespace, and what was cut off is all whitespace. */
  function Strip(s: string): (r: string)
    ensures |r| <= |s|
    ensures r != [] ==> !IsSpace(r[0]) && !IsSpace(r[|r| - 1])
    ensures exists k | 0 <= k <= |s| - |r| :: r == s[k..k + |r|] && Blank(s[..k]) && Blank(s[k + |r|..])
  {
    var t := TrimStart(s);
    var r := TrimEnd(t);
    var k := |s| - |t|;
    assert r == s[k..k + |r|];
    assert s[k + |r|..] == t[|r|..];
    assert Blank(s[..k]) && Blank(s[k + |r|..]);
    r
  }

  /** A field is rejected by the form exactly when it is empty or whitespace only. */
  lemma StripEmptyIffBlank(s: string)
    ensures Strip(s) == [] <==> Blank(s)
  {
    var t := TrimStart(s);
    if Strip(s) == [] {
      assert Blank(t[0..]);
      assert s == s[..|s| - |t|] + t;
    }
  }

  // ---------------------------------------------------------------------------
  // sanitize_text: s.replace("\r\n", "\n").replace("\r", "\n")
  // ---------------------------------------------------------------------------

  /** `s.replace("\r\n", "\n")`: a left-to-right scan that collapses each CR LF pair. */
  function ReplaceCrLf(s: string): string
    decreases |s|
  {
    if |s| >= 2 && s[0] == '\r' && s[1] == '\n' then "\n" + ReplaceCrLf(s[2..])
    else if s == [] then []
    else [s[0]] + ReplaceCrLf(s[1..])
  }

  /** `s.replace("\r", "\n")`. */
  function ReplaceCr(s: string): string
  {
    if s == [] then [] else [if s[0] == '\r' then '\n' else s[0]] + ReplaceCr(s[1..])
  }

  /** The copy panel's `sanitize_text`. */
  function Sanitize(s: string): string {
    ReplaceCr(ReplaceCrLf(s))
  }

  /** Number of positions at which "\r\n" occurs in `s`. */
  function CountCrLf(s: string): nat {
    if |s| < 2 then 0
    else (if s[0] == '\r' && s[1] == '\n' then 1 else 0) + CountCrLf(s[1..])
  }

  lemma {:induction false} ReplaceCrRemovesCr(s: string)
    ensures |ReplaceCr(s)| == |s|
    ensures '\r' !in ReplaceCr(s)
  {
    if s != [] {
      ReplaceCrRemovesCr(s[1..]);
    }
  }

  lemma {:induction false} ReplaceCrLfLength(s: string)
    ensures |ReplaceCrLf(s)| == |s| - CountCrLf(s)
    decreases |s|
  {
    if |s| >= 2 && s[0] == '\r' && s[1] == '\n' {
      ReplaceCrLfLength(s[2..]);
      assert s[1..][1..] == s[2..];
    } else if s != [] {
      ReplaceCrLfLength(s[1..]);
    }
  }

  lemma {:induction false} NoCrFixesReplacements(s: string)
    requires '\r' !in s
    ensures ReplaceCrLf(s) == s && ReplaceCr(s) == s
  {
    if s != [] {
      assert s == [s[0]] + s[1..];
      NoCrFixesReplacements(s[1..]);
    }
  }

  /** Sanitised text never holds a carriage return. */
  lemma SanitizeRemovesCr(s: string)
    ensures '\r' !in Sanitize(s)
  {
    ReplaceCrRemovesCr(ReplaceCrLf(s));
  }

  /** Text without a carriage return passes through unchanged. */
  lemma SanitizeKeepsCrFree(s: string)
    requires '\r' !in s
    ensures Sanitize(s) == s
  {
    NoCrFixesReplacements(s);
  }

  lemma SanitizeIdempotent(s: string)
    ensures Sanitize(Sanitize(s)) == Sanitize(s)
  {
    SanitizeRemovesCr(s);
    SanitizeKeepsCrFree(Sanitize(s));
  }

  /** Each CR LF pair becomes one LF and each lone CR one LF: one character is lost per pair. */
  lemma SanitizeLength(s: string)
    ensures |Sanitize(s)| == |s| - CountCrLf(s)
  {
    ReplaceCrLfLength(s);
    ReplaceCrRemovesCr(ReplaceCrLf(s));
  }

  // ---------------------------------------------------------------------------
  // The copy panel's password mask: "*" * max(4, len(value))
  // ---------------------------------------------------------------------------

  function MaskLength(value: string): nat {
    if |value| < 4 then 4 else |value|
  }

  function Masked(value: string): (r: string)
    ensures |r| == MaskLength(value) && |r| >= 4 && |r| >= |value|
    ensures forall i | 0 <= i < |r| :: r[i] == '*'
  {
    seq(MaskLength(value), _ => '*')
  }

  /** The text a copy-panel row shows: the value itself, or its mask for the password row. */
  function DisplayText(value: string, mask: bool): (r: string)
    ensures mask ==> '*' in r && forall c | c in r :: c == '*'
    ensures mask ==> r == Masked(value)
    ensures !mask ==> r == value
  {
    if mask then
      var m := Masked(value);
      assert m[0] == '*';
      m
    else
      value
  }

  /** The mask reveals nothing of the password but its length, and not even that below four characters. */
  lemma MaskedRevealsOnlyLength(a: string, b: string)
    ensures Masked(a) == Masked(b) <==> MaskLength(a) == MaskLength(b)
  {
    if MaskLength(a) == MaskLength(b) {
      assert forall i | 0 <= i < |Masked(a)| :: Masked(a)[i] == Masked(b)[i];
    }
  }

  // ---------------------------------------------------------------------------
  // SQLite's NOCASE collation: ASCII letters folded, then compared code point by code point
  // ---------------------------------------------------------------------------

  function FoldCase(c: char): char {
    if 'A' <= c <= 'Z' then (c as int + 32) as char else c
  }

  function FoldString(s: string): string {
    seq(|s|, i requires 0 <= i < |s| => FoldCase(s[i]))
  }

  /** Lexicographic order on code points; a proper prefix comes first. */
  predicate LexLe(a: string, b: string)
    decreases |a|
  {
    a == [] || (b != [] && (a[0] < b[0] || (a[0] == b[0] && LexLe(a[1..], b[1..]))))
  }

  /** `a COLLATE NOCASE <= b COLLATE NOCASE`. */
  predicate NoCaseLe(a: string, b: string) {
    LexLe(FoldString(a), FoldString(b))
  }

  lemma {:induction false} LexLeTotal(a: string, b: string)
    ensures LexLe(a, b) || LexLe(b, a)
    decreases |a|
  {
    if a != [] && b != [] && a[0] == b[0] {
      LexLeTotal(a[1..], b[1..]);
    }
  }

  lemma {:induction false} LexLeTransitive(a: string, b: string, c: string)
    requires LexLe(a, b) && LexLe(b, c)
    ensures LexLe(a, c)
    decreases |a|
  {
    if a != [] && a[0] == b[0] && b[0] == c[0] {
      LexLeTransitive(a[1..], b[1..], c[1..]);
    }
  }

  lemma {:induction false} LexLeAntisymmetric(a: string, b: string)
    requires LexLe(a, b) && LexLe(b, a)
    ensures a == b
    decreases |a|
  {
    if a != [] {
      LexLeAntisymmetric(a[1..], b[1..]);
      assert a == [a[0]] + a[1..] && b == [b[0]] + b[1..];
    }
  }

  lemma NoCaseLeTotal(a: string, b: string)
    ensures NoCaseLe(a, b) || NoCaseLe(b, a)
  {
    LexLeTotal(FoldString(a), FoldString(b));
  }

  lemma NoCaseLeTransitive(a: string, b: string, c: string)
    requires NoCaseLe(a, b) && NoCaseLe(b, c)
    ensures NoCaseLe(a, c)
  {
    LexLeTransitive(FoldString(a), FoldString(b), FoldString(c));
  }

  /** Two nicknames tie under NOCASE exactly when they differ only in the case of ASCII letters. */
  lemma NoCaseTieIffSameFold(a: string, b: string)
    ensures (NoCaseLe(a, b) && NoCaseLe(b, a)) <==> FoldString(a) == FoldString(b)
  {
    if NoCaseLe(a, b) && NoCaseLe(b, a) {
      LexLeAntisymmetric(FoldString(a), FoldString(b));
    } else if FoldString(a) == FoldString(b) {
      LexLeTotal(FoldString(a), FoldString(b));
    }
  }

  // ---------------------------------------------------------------------------
  // Substring test
  // ---------------------------------------------------------------------------

  predicate OccursAt(text: string, pattern: string, i: int) {
    0 <= i <= |text| - |pattern| && text[i..i + |pattern|] == pattern
  }

  predicate Contains(text: string, pattern: string) {
    exists i | 0 <= i <= |text| - |pattern| :: OccursAt(text, pattern, i)
  }

  /** A text that contains `p + q` contains `p`. */
  lemma ContainsPrefixOf(text: string, p: string, q: string)
    requires Contains(text, p + q)
    ensures Contains(text, p)
  {
    var pq := p + q;
    var i :| 0 <= i <= |text| - |pq| && OccursAt(text, pq, i);
    assert text[i..i + |pq|] == pq;
    assert text[i..i + |p|] == text[i..i + |pq|][..|p|];
    assert OccursAt(text, p, i);
  }
}
