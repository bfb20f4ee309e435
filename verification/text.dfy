/**
 The string operations of the JavaScript standard library that the widget's
 handlers rely on: `trim`, `toLowerCase`, `includes`, `startsWith` and
 `replace` with a string pattern. Strings are sequences of Unicode scalar
 values; case mapping is restricted to ASCII letters.
 */
module Text {
  import opened Wrappers

  /** The WhiteSpace and LineTerminator code points of ECMAScript, which `trim` strips. */
  predicate IsWhitespace(c: char) {
    || c == '\t' || c == '\n' || c == '\U{000B}' || c == '\U{000C}' || c == '\r'
    || c == ' ' || c == '\U{00A0}' || c == '\U{1680}' || ('\U{2000}' <= c <= '\U{200A}')
    || c == '\U{2028}' || c == '\U{2029}' || c == '\U{202F}' || c == '\U{205F}'
    || c == '\U{3000}' || c == '\U{FEFF}'
  }

  predicate AllWhitespace(s: string) {
    forall i :: 0 <= i < |s| ==> IsWhitespace(s[i])
  }

  /** The number of whitespace characters `s` starts with. */
  function LeadingWhitespace(s: string): (n: nat)
    ensures n <= |s|
    ensures forall i :: 0 <= i < n ==> IsWhitespace(s[i])
    ensures n < |s| ==> !IsWhitespace(s[n])
  {
    if |s| > 0 && IsWhitespace(s[0]) then
      var m := LeadingWhitespace(s[1..]);
      assert forall i :: 1 <= i < 1 + m ==> s[i] == s[1..][i - 1];
      1 + m
    else
      0
  }

  /** The number of whitespace characters `s` ends with. */
  function TrailingWhitespace(s: string): (n: nat)
    ensures n <= |s|
    ensures forall i :: |s| - n <= i < |s| ==> IsWhitespace(s[i])
    ensures n < |s| ==> !IsWhitespace(s[|s| - 1 - n])
  {
    if |s| > 0 && IsWhitespace(s[|s| - 1]) then
      var init := s[..|s| - 1];
      var m := TrailingWhitespace(init);
      assert forall i :: |init| - m <= i < |init| ==> s[i] == init[i];
      1 + m
    else
      0
  }

  /**
   `String.prototype.trim`: what lies between the leading and the trailing
   whitespace; nothing at all when `s` is whitespace only.
   */
  function Trim(s: string): (r: string)
    ensures |r| <= |s|
    ensures r == [] || (!IsWhitespace(r[0]) && !IsWhitespace(r[|r| - 1]))
  {
    var a := LeadingWhitespace(s);
    if a == |s| then []
    else
      var e := |s| - TrailingWhitespace(s);
      assert a < e;
      s[a..e]
  }

  /** Trimming only removes characters, so it introduces none. */
  lemma TrimChars(s: string, c: char)
    ensures c in Trim(s) ==> c in s
  {
    TrimIsFactor(s);
    if c in Trim(s) {
      var a, r := LeadingWhitespace(s), Trim(s);
      var j :| 0 <= j < |r| && r[j] == c;
      assert s[a + j] == r[j];
    }
  }

  /** `Trim` removes whitespace and only whitespace, from both ends. */
  lemma TrimIsFactor(s: string)
    ensures var a, r := LeadingWhitespace(s), Trim(s);
            && a + |r| <= |s| && s[a..a + |r|] == r
            && (forall j :: 0 <= j < a ==> IsWhitespace(s[j]))
            && (forall j :: a + |r| <= j < |s| ==> IsWhitespace(s[j]))
  {
  }

  /** A string is blank after trimming exactly when it consists of whitespace only. */
  lemma TrimEmptyIff(s: string)
    ensures Trim(s) == [] <==> AllWhitespace(s)
  {
    var a := LeadingWhitespace(s);
    if AllWhitespace(s) {
      assert a == |s|;
    } else {
      assert a < |s|;
    }
  }

  /** Leading whitespace depends on nothing but which positions hold whitespace. */
  lemma {:induction false} LeadingWhitespaceMask(s: string, t: string)
    requires |s| == |t|
    requires forall i :: 0 <= i < |s| ==> (IsWhitespace(s[i]) <==> IsWhitespace(t[i]))
    ensures LeadingWhitespace(s) == LeadingWhitespace(t)
  {
    if |s| > 0 && IsWhitespace(s[0]) {
      LeadingWhitespaceMask(s[1..], t[1..]);
    }
  }

  /** Trailing whitespace depends on nothing but which positions hold whitespace. */
  lemma {:induction false} TrailingWhitespaceMask(s: string, t: string)
    requires |s| == |t|
    requires forall i :: 0 <= i < |s| ==> (IsWhitespace(s[i]) <==> IsWhitespace(t[i]))
    ensures TrailingWhitespace(s) == TrailingWhitespace(t)
  {
    if |s| > 0 && IsWhitespace(s[|s| - 1]) {
      TrailingWhitespaceMask(s[..|s| - 1], t[..|t| - 1]);
    }
  }

  predicate IsAsciiUpper(c: char) { 'A' <= c <= 'Z' }

  predicate IsAsciiLower(c: char) { 'a' <= c <= 'z' }

  function LowerChar(c: char): char {
    if IsAsciiUpper(c) then (c as int + 32) as char else c
  }

  function UpperChar(c: char): char {
    if IsAsciiLower(c) then (c as int - 32) as char else c
  }

  /** `String.prototype.toLowerCase`, restricted to ASCII letters. */
  function ToLower(s: string): (r: string)
    ensures |r| == |s|
    ensures forall i :: 0 <= i < |r| ==> !IsAsciiUpper(r[i])
    ensures forall i :: 0 <= i < |s| ==>
              if IsAsciiUpper(s[i]) then IsAsciiLower(r[i]) && UpperChar(r[i]) == s[i] else r[i] == s[i]
  {
    seq(|s|, i requires 0 <= i < |s| => LowerChar(s[i]))
  }

  /** `String.prototype.toUpperCase`, restricted to ASCII letters. */
  function ToUpper(s: string): (r: string)
    ensures |r| == |s|
    ensures forall i :: 0 <= i < |r| ==> !IsAsciiLower(r[i])
    ensures forall i :: 0 <= i < |s| ==>
              if IsAsciiLower(s[i]) then IsAsciiUpper(r[i]) && LowerChar(r[i]) == s[i] else r[i] == s[i]
  {
    seq(|s|, i requires 0 <= i < |s| => UpperChar(s[i]))
  }

  /** Lower-casing forgets whether a string was upper-cased first. */
  lemma LowerOfUpper(s: string)
    ensures ToLower(ToUpper(s)) == ToLower(s)
  {
  }

  /** Lower-casing commutes with trimming, so `trim().toLowerCase()` is insensitive to case. */
  lemma TrimLowerIgnoresCase(s: string)
    ensures ToLower(Trim(ToUpper(s))) == ToLower(Trim(s))
  {
    var u := ToUpper(s);
    assert forall i :: 0 <= i < |s| ==> u[i] == UpperChar(s[i]);
    LeadingWhitespaceMask(s, u);
    TrailingWhitespaceMask(s, u);
    var a := LeadingWhitespace(s);
    if a < |s| {
      LowerOfUpperSlice(s, a, |s| - TrailingWhitespace(s));
    }
  }

  /** Lower-casing a slice is slicing the lower-cased string. */
  lemma LowerSlice(s: string, a: nat, e: nat)
    requires a <= e <= |s|
    ensures ToLower(s[a..e]) == ToLower(s)[a..e]
  {
    var l, r := ToLower(s[a..e]), ToLower(s)[a..e];
    forall i | 0 <= i < |l| ensures l[i] == r[i] {
      assert s[a..e][i] == s[a + i];
    }
  }

  /** Lower-casing neither creates nor removes whitespace. */
  lemma LowerKeepsWhitespace(c: char)
    ensures IsWhitespace(LowerChar(c)) <==> IsWhitespace(c)
  {
  }

  /**
   Two inputs that agree after lower-casing give the same search keyword:
   `trim().toLowerCase()` depends only on the lower-cased input.
   */
  lemma TrimLowerAgrees(s: string, t: string)
    requires ToLower(s) == ToLower(t)
    ensures ToLower(Trim(s)) == ToLower(Trim(t))
  {
    var ls := ToLower(s);
    assert |s| == |t|;
    forall i | 0 <= i < |s| ensures IsWhitespace(s[i]) <==> IsWhitespace(t[i]) {
      assert ls[i] == LowerChar(s[i]) && ls[i] == LowerChar(t[i]);
      LowerKeepsWhitespace(s[i]);
      LowerKeepsWhitespace(t[i]);
    }
    LeadingWhitespaceMask(s, t);
    TrailingWhitespaceMask(s, t);
    var a := LeadingWhitespace(s);
    if a < |s| {
      var e := |s| - TrailingWhitespace(s);
      LowerSlice(s, a, e);
      LowerSlice(t, a, e);
    }
  }

  /** Lower-casing twice is lower-casing once. */
  lemma LowerIdempotent(s: string)
    ensures ToLower(ToLower(s)) == ToLower(s)
  {
  }

  lemma LowerOfUpperSlice(s: string, a: nat, e: nat)
    requires a <= e <= |s|
    ensures ToLower(ToUpper(s)[a..e]) == ToLower(s[a..e])
  {
    var l, r := ToLower(ToUpper(s)[a..e]), ToLower(s[a..e]);
    forall i | 0 <= i < |l| ensures l[i] == r[i] {
      assert ToUpper(s)[a..e][i] == UpperChar(s[a..e][i]);
    }
  }

  /** `s` begins with `p`: `String.prototype.startsWith`. */
  predicate StartsWith(s: string, p: string) {
    |p| <= |s| && s[..|p|] == p
  }

  /** `p` occurs in `s` at position `i`. */
  predicate OccursAt(s: string, p: string, i: nat) {
    i + |p| <= |s| && s[i..i + |p|] == p
  }

  /** The first position at or after `from` where `p` occurs in `s`: `String.prototype.indexOf`. */
  function IndexOf(s: string, p: string, from: nat): (r: Option<nat>)
    ensures r.Some? ==> from <= r.value && r.value + |p| <= |s|
    decreases |s| - from
  {
    if from + |p| > |s| then None
    else if s[from..from + |p|] == p then Some(from)
    else IndexOf(s, p, from + 1)
  }

  /** `IndexOf` finds an occurrence, the first one, and reports none only when there is none. */
  lemma {:induction false} IndexOfFirst(s: string, p: string, from: nat)
    ensures var r := IndexOf(s, p, from);
            && (r.Some? ==> OccursAt(s, p, r.value))
            && (r.Some? ==> forall j :: from <= j < r.value ==> !OccursAt(s, p, j))
            && (r.None? <==> forall j: nat :: from <= j ==> !OccursAt(s, p, j))
    decreases |s| - from
  {
    if from + |p| > |s| {
    } else if s[from..from + |p|] == p {
      assert OccursAt(s, p, from);
    } else {
      IndexOfFirst(s, p, from + 1);
    }
  }

  /** `String.prototype.includes`: whether `p` occurs anywhere in `s`. */
  predicate Includes(s: string, p: string) {
    IndexOf(s, p, 0).Some?
  }

  /** `includes` holds exactly when the pattern occurs somewhere. */
  lemma IncludesIff(s: string, p: string)
    ensures Includes(s, p) <==> exists i: nat :: OccursAt(s, p, i)
  {
    IndexOfFirst(s, p, 0);
  }

  /** Every string includes the empty string. */
  lemma IncludesEmpty(s: string)
    ensures Includes(s, [])
  {
    assert OccursAt(s, [], 0);
    IncludesIff(s, []);
  }

  /** Replace the first occurrence of `pat` in `s` by `rep`, taken literally. */
  function ReplaceFirst(s: string, pat: string, rep: string): string {
    match IndexOf(s, pat, 0)
    case None => s
    case Some(i) => s[..i] + rep + s[i + |pat|..]
  }

  /** When `s` starts with `pat`, its first occurrence is the prefix itself. */
  lemma PrefixIsFirstOccurrence(s: string, pat: string)
    requires StartsWith(s, pat)
    ensures IndexOf(s, pat, 0) == Some(0)
  {
    assert s[0..|pat|] == pat;
  }

  /** Replacing a pattern that `s` starts with rewrites exactly that prefix. */
  lemma ReplaceFirstOfPrefix(s: string, pat: string, rep: string)
    requires StartsWith(s, pat)
    ensures ReplaceFirst(s, pat, rep) == rep + s[|pat|..]
  {
    PrefixIsFirstOccurrence(s, pat);
  }

  /**
   The GetSubstitution step of `String.prototype.replace` (section 22.1.3.19.1
   of ECMAScript 2024) for a string pattern, which has no capture groups:
   `$$` becomes `$`, `$&` the matched text, `` $` `` the text before the
   match, `$'` the text after it; every other character, `$1` and `$<`
   included, is copied.
   */
  function Substitution(template: string, matched: string, before: string, after: string): string
    decreases |template|
  {
    if |template| == 0 then []
    else if template[0] == '$' && |template| >= 2 then
      var tail := Substitution(template[2..], matched, before, after);
      if template[1] == '$' then "$" + tail
      else if template[1] == '&' then matched + tail
      else if template[1] == '`' then before + tail
      else if template[1] == '\'' then after + tail
      else [template[0]] + Substitution(template[1..], matched, before, after)
    else [template[0]] + Substitution(template[1..], matched, before, after)
  }

  /** A template without `$` is inserted literally. */
  lemma {:induction false} SubstitutionLiteral(template: string, matched: string, before: string, after: string)
    requires '$' !in template
    ensures Substitution(template, matched, before, after) == template
  {
    if |template| > 0 {
      assert template[0] != '$';
      assert '$' !in template[1..] by {
        forall i | 0 <= i < |template[1..]| ensures template[1..][i] != '$' {
          assert template[1..][i] == template[i + 1];
        }
      }
      SubstitutionLiteral(template[1..], matched, before, after);
    }
  }

  /** `s.replace(pat, template)` in JavaScript: the first occurrence, with `$` patterns expanded. */
  function JsReplace(s: string, pat: string, template: string): string {
    match IndexOf(s, pat, 0)
    case None => s
    case Some(i) =>
      s[..i] + Substitution(template, pat, s[..i], s[i + |pat|..]) + s[i + |pat|..]
  }

  /** Without `$` in the template, JavaScript's replace is the literal replacement. */
  lemma JsReplaceLiteral(s: string, pat: string, template: string)
    requires '$' !in template
    ensures JsReplace(s, pat, template) == ReplaceFirst(s, pat, template)
  {
    var found := IndexOf(s, pat, 0);
    if found.Some? {
      var i := found.value;
      SubstitutionLiteral(template, pat, s[..i], s[i + |pat|..]);
      assert JsReplace(s, pat, template) == s[..i] + template + s[i + |pat|..];
    }
  }
}
