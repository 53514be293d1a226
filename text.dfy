/**
 * The string operations the transaction log query is built from:
 * `toLowerCase` on ASCII, `includes`, the first field of `split(' ')`,
 * and the leading-white-space skip that `parseInt`/`parseFloat` perform.
 */
module Text {

  predicate IsUpper(c: char) {
    'A' <= c <= 'Z'
  }

  /** `toLowerCase` of one character, restricted to ASCII letters. */
  function LowerChar(c: char): (r: char)
    ensures !IsUpper(r)
    ensures IsUpper(c) ==> r as int == c as int + 32
    ensures !IsUpper(c) ==> r == c
  {
    if IsUpper(c) then (c as int + 32) as char else c
  }

  /** `s.toLowerCase()`, character by character. */
  function Lower(s: string): (r: string)
    ensures |r| == |s|
    ensures forall i :: 0 <= i < |s| ==> r[i] == LowerChar(s[i])
  {
    if s == [] then [] else [LowerChar(s[0])] + Lower(s[1..])
  }

  /** Lower-casing twice is lower-casing once. */
  lemma LowerIdempotent(s: string)
    ensures Lower(Lower(s)) == Lower(s)
  {
  }

  /** `t` occurs in `s` starting at index `i`. */
  predicate OccursAt(s: string, t: string, i: nat) {
    i + |t| <= |s| && s[i..i + |t|] == t
  }

  /** `t` occurs in `s` at some index. */
  ghost predicate Occurs(s: string, t: string) {
    exists i: nat :: OccursAt(s, t, i)
  }

  /** `s.includes(t)`: `t` is a prefix of `s` or of one of its suffixes. */
  function Includes(s: string, t: string): (b: bool)
    ensures t == [] ==> b
    ensures b ==> |t| <= |s|
    decreases |s|
  {
    t <= s || (|s| > 0 && Includes(s[1..], t))
  }

  /** `Includes` is substring search: it holds exactly when `t` occurs somewhere in `s`. */
  lemma {:induction false} IncludesIffOccurs(s: string, t: string)
    ensures Includes(s, t) <==> Occurs(s, t)
    decreases |s|
  {
    if t <= s {
      assert OccursAt(s, t, 0);
    } else if |s| > 0 {
      IncludesIffOccurs(s[1..], t);
      if Includes(s[1..], t) {
        var i: nat :| OccursAt(s[1..], t, i);
        OccursAtShift(s, t, i);
      }
      forall i: nat | OccursAt(s, t, i) ensures Occurs(s[1..], t) {
        assert i > 0;
        OccursAtShift(s, t, i - 1);
      }
    }
  }

  /** An occurrence in the tail of `s` is an occurrence in `s` one index later. */
  lemma OccursAtShift(s: string, t: string, i: nat)
    requires |s| > 0
    ensures OccursAt(s[1..], t, i) <==> OccursAt(s, t, i + 1)
  {
    if i + |t| <= |s[1..]| {
      assert s[1..][i..i + |t|] == s[i + 1..i + 1 + |t|];
    }
  }

  /** Every character of an included string occurs in the including one. */
  lemma IncludesKeepsChars(s: string, t: string, k: nat)
    requires Includes(s, t) && k < |t|
    ensures t[k] in s
  {
    IncludesIffOccurs(s, t);
    var i: nat :| OccursAt(s, t, i);
    assert s[i + k] == s[i..i + |t|][k];
  }

  /** Lower-casing brings in no character that was absent in both cases. */
  lemma LowerKeepsAbsent(s: string, c: char)
    requires !IsUpper(c) && c !in s
    requires 'a' <= c <= 'z' ==> (c as int - 32) as char !in s
    ensures c !in Lower(s)
  {
    var r := Lower(s);
    forall i | 0 <= i < |r| ensures r[i] != c {
      assert r[i] == LowerChar(s[i]);
    }
  }

  /** Every string includes the empty string. */
  lemma IncludesEmpty(s: string)
    ensures Includes(s, "")
  {
  }

  /** `s.split(' ')[0]`: the text before the first space, or all of `s` when it has none. */
  function FirstToken(s: string): (r: string)
    ensures r <= s
    ensures ' ' !in r
    ensures |r| == |s| || s[|r|] == ' '
  {
    if s == [] || s[0] == ' ' then [] else [s[0]] + FirstToken(s[1..])
  }

  /** What follows the first space never reaches the first token: a value written as
      "<number> <unit>" has the number as its first token, whatever the unit. */
  lemma {:induction false} FirstTokenIgnoresUnit(tok: string, unit: string)
    requires ' ' !in tok
    ensures FirstToken(tok + " " + unit) == tok
  {
    var s := tok + " " + unit;
    var r := FirstToken(s);
    assert s[|tok|] == ' ';
    assert forall i :: 0 <= i < |tok| ==> s[i] == tok[i];
    assert |r| == |tok|;
    assert r == s[..|r|] && tok == s[..|tok|];
  }

  /** The white-space characters ECMAScript's StrWhiteSpaceChar admits:
      tab, vertical tab, form feed, the Unicode space separators, byte order mark,
      and the line terminators. */
  predicate IsWhiteSpace(c: char) {
    || c == '\t' || c == '\U{000B}' || c == '\U{000C}' || c == '\U{FEFF}'
    || c == '\n' || c == '\r' || c == '\U{2028}' || c == '\U{2029}'
    || c == ' ' || c == '\U{00A0}' || c == '\U{1680}' || ('\U{2000}' <= c <= '\U{200A}')
    || c == '\U{202F}' || c == '\U{205F}' || c == '\U{3000}'
  }

  /** `s` with its leading white space removed, as `parseInt` and `parseFloat` start. */
  function TrimStart(s: string): (r: string)
    ensures |r| <= |s| && r == s[|s| - |r|..]
    ensures forall i :: 0 <= i < |s| - |r| ==> IsWhiteSpace(s[i])
    ensures r == [] || !IsWhiteSpace(r[0])
  {
    if s != [] && IsWhiteSpace(s[0]) then TrimStart(s[1..]) else s
  }
}
