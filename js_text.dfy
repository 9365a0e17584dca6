/**
 * The string operations the lab pipeline relies on, with JavaScript's meaning:
 * lower-casing, the `[^a-z0-9]` strip used to normalise labels, `includes`,
 * the `\s` class and the line terminators that `.` refuses in a regular
 * expression.
 */
module JsText {

  /** `toLowerCase` on one character (ASCII letters only; see README). */
  function LowerChar(c: char): char {
    if 'A' <= c <= 'Z' then (c as int + 32) as char else c
  }

  function Lower(s: string): (r: string)
    ensures |r| == |s|
    ensures forall i :: 0 <= i < |s| ==> r[i] == LowerChar(s[i])
  {
    seq(|s|, i requires 0 <= i < |s| => LowerChar(s[i]))
  }

  /** A character that survives `replace(/[^a-z0-9]/g, "")`. */
  predicate IsKeyChar(c: char) {
    'a' <= c <= 'z' || '0' <= c <= '9'
  }

  predicate AllKeyChars(s: string) {
    forall i :: 0 <= i < |s| ==> IsKeyChar(s[i])
  }

  /** `s.toLowerCase().replace(/[^a-z0-9]/g, "")`. */
  function Normalize(s: string): (r: string)
    ensures AllKeyChars(r)
    ensures |r| <= |s|
  {
    if s == [] then []
    else
      var c := LowerChar(s[|s| - 1]);
      Normalize(s[..|s| - 1]) + (if IsKeyChar(c) then [c] else [])
  }

  lemma {:induction false} NormalizeConcat(a: string, b: string)
    ensures Normalize(a + b) == Normalize(a) + Normalize(b)
    decreases |b|
  {
    if b == [] {
      assert a + b == a;
    } else {
      var b' := b[..|b| - 1];
      assert (a + b)[..|a + b| - 1] == a + b';
      assert (a + b)[|a + b| - 1] == b[|b| - 1];
      NormalizeConcat(a, b');
    }
  }

  /** A string made only of `[a-z0-9]` is its own normal form. */
  lemma {:induction false} NormalizeKeepsKeyChars(s: string)
    requires AllKeyChars(s)
    ensures Normalize(s) == s
  {
    if s != [] {
      var s' := s[..|s| - 1];
      assert AllKeyChars(s');
      NormalizeKeepsKeyChars(s');
      assert LowerChar(s[|s| - 1]) == s[|s| - 1];
      assert s == s' + [s[|s| - 1]];
    }
  }

  lemma NormalizeIdempotent(s: string)
    ensures Normalize(Normalize(s)) == Normalize(s)
  {
    NormalizeKeepsKeyChars(Normalize(s));
  }

  /** Case does not matter to the normal form. */
  lemma {:induction false} NormalizeIgnoresCase(s: string)
    ensures Normalize(Lower(s)) == Normalize(s)
  {
    if s != [] {
      var s' := s[..|s| - 1];
      assert Lower(s)[..|s| - 1] == Lower(s');
      NormalizeIgnoresCase(s');
      assert LowerChar(LowerChar(s[|s| - 1])) == LowerChar(s[|s| - 1]);
    }
  }

  lemma NormalizeDropsChar(c: char)
    requires !IsKeyChar(LowerChar(c))
    ensures Normalize([c]) == []
  {
    assert [c][..0] == [];
  }

  lemma NormalizeSkips(a: string, c: char, b: string)
    requires !IsKeyChar(LowerChar(c))
    ensures Normalize(a + [c] + b) == Normalize(a + b)
  {
    NormalizeConcat(a + [c], b);
    NormalizeConcat(a, [c]);
    NormalizeDropsChar(c);
    NormalizeConcat(a, b);
  }

  /** Deleting a character that the strip removes does not change the normal form. */
  lemma NormalizeIgnoresPunctuation(s: string, i: nat)
    requires i < |s| && !IsKeyChar(LowerChar(s[i]))
    ensures Normalize(s[..i] + s[i + 1..]) == Normalize(s)
  {
    assert s == s[..i] + [s[i]] + s[i + 1..];
    NormalizeSkips(s[..i], s[i], s[i + 1..]);
  }

  /** `sub` occurs in `s` starting at offset `i`. */
  predicate OccursAt(s: string, sub: string, i: int) {
    0 <= i <= |s| - |sub| && s[i..i + |sub|] == sub
  }

  /** `s.includes(sub)`. */
  predicate Contains(s: string, sub: string) {
    exists i :: 0 <= i <= |s| - |sub| && OccursAt(s, sub, i)
  }

  /** Every string contains the empty string. */
  lemma ContainsEmpty(s: string)
    ensures Contains(s, [])
  {
    assert OccursAt(s, [], 0);
  }

  /** A string never contains a longer one. */
  lemma ContainsNoLonger(s: string, sub: string)
    requires Contains(s, sub)
    ensures |sub| <= |s|
  {
  }

  /** Every character of a contained string occurs in the container. */
  lemma ContainsChars(s: string, sub: string, c: char)
    requires Contains(s, sub) && c in sub
    ensures c in s
  {
    var i :| 0 <= i <= |s| - |sub| && OccursAt(s, sub, i);
    var k :| 0 <= k < |sub| && sub[k] == c;
    assert s[i + k] == s[i..i + |sub|][k];
  }

  /** A string lacking some character of `sub` does not contain `sub`. */
  lemma MissingCharExcludes(s: string, sub: string, c: char)
    requires c in sub && c !in s
    ensures !Contains(s, sub)
  {
    if Contains(s, sub) {
      ContainsChars(s, sub, c);
    }
  }

  /** The same, for a list of substrings each paired with a character it has and `s` lacks. */
  lemma MissingCharsExclude(s: string, subs: seq<string>, cs: string)
    requires |subs| == |cs|
    requires forall k :: 0 <= k < |subs| ==> cs[k] in subs[k] && cs[k] !in s
    ensures forall k :: 0 <= k < |subs| ==> !Contains(s, subs[k])
  {
    forall k | 0 <= k < |subs|
      ensures !Contains(s, subs[k])
    {
      MissingCharExcludes(s, subs[k], cs[k]);
    }
  }

  /** `s.replace(/_/g, " ")`. */
  function UnderscoresToSpaces(s: string): (r: string)
    ensures |r| == |s|
    ensures forall i :: 0 <= i < |s| ==> r[i] == (if s[i] == '_' then ' ' else s[i])
  {
    seq(|s|, i requires 0 <= i < |s| => if s[i] == '_' then ' ' else s[i])
  }

  /** A character of the `\s` class of a JavaScript regular expression. */
  predicate IsJsSpace(c: char) {
    || c == '\t' || c == '\n' || c == '\U{000B}' || c == '\U{000C}' || c == '\r'
    || c == ' ' || c == '\U{00A0}' || c == '\U{1680}'
    || ('\U{2000}' <= c <= '\U{200A}')
    || c == '\U{2028}' || c == '\U{2029}' || c == '\U{202F}' || c == '\U{205F}'
    || c == '\U{3000}' || c == '\U{FEFF}'
  }

  /** A line terminator: the characters `.` does not match. */
  predicate IsLineTerminator(c: char) {
    c == '\n' || c == '\r' || c == '\U{2028}' || c == '\U{2029}'
  }

  predicate NoLineTerminator(s: string) {
    forall i :: 0 <= i < |s| ==> !IsLineTerminator(s[i])
  }

  predicate AllSpaces(s: string) {
    forall i :: 0 <= i < |s| ==> IsJsSpace(s[i])
  }
}
