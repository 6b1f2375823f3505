/** The JavaScript string operations the module manager relies on, over `seq<char>`. */
module Strings {

  /** ECMAScript WhiteSpace and LineTerminator code points: what `String.prototype.trim` removes. */
  predicate IsWhitespace(c: char) {
    || c == '\U{9}' || c == '\U{A}' || c == '\U{B}' || c == '\U{C}' || c == '\U{D}'
    || c == ' ' || c == '\U{A0}' || c == '\U{1680}'
    || ('\U{2000}' <= c <= '\U{200A}')
    || c == '\U{2028}' || c == '\U{2029}' || c == '\U{202F}' || c == '\U{205F}' || c == '\U{3000}'
    || c == '\U{FEFF}'
  }

  /** `s` with leading white space removed. */
  function TrimStart(s: string): (r: string)
    ensures |r| <= |s| && r == s[|s| - |r|..]
    ensures |r| > 0 ==> !IsWhitespace(r[0])
    ensures forall i :: 0 <= i < |s| - |r| ==> IsWhitespace(s[i])
  {
    if |s| > 0 && IsWhitespace(s[0]) then TrimStart(s[1..]) else s
  }

  /** `s` with trailing white space removed. */
  function TrimEnd(s: string): (r: string)
    ensures |r| <= |s| && r == s[..|r|]
    ensures |r| > 0 ==> !IsWhitespace(r[|r| - 1])
    ensures forall i :: |r| <= i < |s| ==> IsWhitespace(s[i])
  {
    if |s| > 0 && IsWhitespace(s[|s| - 1]) then TrimEnd(s[..|s| - 1]) else s
  }

  /** `r` occurs in `s` starting at position `i`. */
  predicate InfixAt(s: string, r: string, i: int) {
    0 <= i <= |s| - |r| && s[i..i + |r|] == r
  }

  /** A character absent from `s` is absent from every infix of it. */
  lemma NotInInfix(s: string, r: string, i: int, c: char)
    requires InfixAt(s, r, i) && c !in s
    ensures c !in r
  {
  }

  /** `r` is `s` with only white space removed, and only at its two ends: `r` sits at
      position `i` and everything before and after it is white space. */
  predicate TrimmedAt(s: string, r: string, i: int) {
    && InfixAt(s, r, i)
    && (forall j :: 0 <= j < i ==> IsWhitespace(s[j]))
    && (forall j :: i + |r| <= j < |s| ==> IsWhitespace(s[j]))
  }

  /** `String.prototype.trim`. */
  function Trim(s: string): (r: string)
    ensures |r| <= |s|
    ensures |r| > 0 ==> !IsWhitespace(r[0]) && !IsWhitespace(r[|r| - 1])
    ensures exists i :: TrimmedAt(s, r, i)
  {
    var t := TrimStart(s);
    var r := TrimEnd(t);
    TrimmedAtSplit(s, t, r);
    r
  }

  /** Stripping a white prefix and then a white suffix leaves an infix with only white
      space around it. */
  lemma TrimmedAtSplit(s: string, t: string, r: string)
    requires |t| <= |s| && t == s[|s| - |t|..]
    requires forall j :: 0 <= j < |s| - |t| ==> IsWhitespace(s[j])
    requires |r| <= |t| && r == t[..|r|]
    requires forall j :: |r| <= j < |t| ==> IsWhitespace(t[j])
    ensures TrimmedAt(s, r, |s| - |t|)
  {
    var i := |s| - |t|;
    assert s[i..i + |r|] == r;
    forall j | i + |r| <= j < |s|
      ensures IsWhitespace(s[j])
    {
      assert s[j] == t[j - i];
    }
  }

  /** `Trim` is the only infix with non-white ends that leaves nothing but white space
      around it. */
  lemma {:induction false} TrimUnique(s: string, r: string, i: int)
    requires TrimmedAt(s, r, i)
    requires |r| > 0 ==> !IsWhitespace(r[0]) && !IsWhitespace(r[|r| - 1])
    ensures r == Trim(s)
  {
    var t := Trim(s);
    var k :| TrimmedAt(s, t, k);
    assert |r| > 0 ==> r[0] == s[i];
    assert |t| > 0 ==> t[0] == s[k];
    assert |r| > 0 <==> |t| > 0;
    if |r| > 0 {
      assert i == k;
      assert r[|r| - 1] == s[i + |r| - 1] && t[|t| - 1] == s[k + |t| - 1];
      assert |r| == |t|;
    }
  }

  /** A JavaScript string that is falsy once trimmed: empty or all white space. */
  predicate IsBlank(s: string) {
    Trim(s) == ""
  }

  /** Blank means every character is white space. */
  lemma {:induction false} BlankIffAllWhitespace(s: string)
    ensures IsBlank(s) <==> forall i :: 0 <= i < |s| ==> IsWhitespace(s[i])
  {
    var t := TrimStart(s);
    if forall i :: 0 <= i < |s| ==> IsWhitespace(s[i]) {
      if |t| > 0 {
        assert t[0] == s[|s| - |t|];
      }
    } else {
      var k :| 0 <= k < |s| && !IsWhitespace(s[k]);
      assert |t| > 0;
      assert !IsWhitespace(t[0]);
      assert |TrimEnd(t)| > 0;
    }
  }

  /** Lower-cases one character; only the ASCII letters are mapped. */
  function LowerChar(c: char): char {
    if 'A' <= c <= 'Z' then (c as int - 'A' as int + 'a' as int) as char else c
  }

  /** `String.prototype.toLowerCase`, restricted to ASCII letters. */
  function Lower(s: string): (r: string)
    ensures |r| == |s|
    ensures forall i :: 0 <= i < |s| ==> r[i] == LowerChar(s[i])
  {
    seq(|s|, i requires 0 <= i < |s| => LowerChar(s[i]))
  }

  /** `toLowerCase` on every element. */
  function LowerAll(ss: seq<string>): (r: seq<string>)
    ensures |r| == |ss|
    ensures forall i :: 0 <= i < |ss| ==> r[i] == Lower(ss[i])
  {
    seq(|ss|, i requires 0 <= i < |ss| => Lower(ss[i]))
  }

  /** `pat` occurs in `s` at position `i`. */
  predicate OccursAt(s: string, pat: string, i: int) {
    0 <= i && i + |pat| <= |s| && s[i..i + |pat|] == pat
  }

  /** First position at or after `from` where `pat` occurs in `s`, or -1. */
  function FindFrom(s: string, pat: string, from: nat): (i: int)
    requires from <= |s|
    ensures i == -1 || (from <= i && OccursAt(s, pat, i))
    ensures forall j :: from <= j < (if i == -1 then |s| + 1 else i) ==> !OccursAt(s, pat, j)
    decreases |s| - from
  {
    if OccursAt(s, pat, from) then from
    else if from == |s| then -1
    else FindFrom(s, pat, from + 1)
  }

  /** `String.prototype.indexOf` for a string pattern: the first occurrence, or -1. */
  function Find(s: string, pat: string): (i: int)
    ensures i == -1 <==> forall j :: !OccursAt(s, pat, j)
    ensures i != -1 ==> OccursAt(s, pat, i) && forall j :: 0 <= j < i ==> !OccursAt(s, pat, j)
  {
    FindFrom(s, pat, 0)
  }

  /** `s.replace(pat, rep)` with a string pattern: only the first occurrence is replaced. */
  function ReplaceFirst(s: string, pat: string, rep: string): (r: string)
    ensures (forall j :: !OccursAt(s, pat, j)) ==> r == s
    ensures forall i :: OccursAt(s, pat, i) && (forall j :: 0 <= j < i ==> !OccursAt(s, pat, j)) ==>
      r == s[..i] + rep + s[i + |pat|..]
  {
    var i := Find(s, pat);
    if i == -1 then s else s[..i] + rep + s[i + |pat|..]
  }

  /** `s.split(sep)[0]` for a one-character separator: the text before the first `sep`. */
  function BeforeFirst(s: string, sep: char): (r: string)
    ensures sep !in r
    ensures |r| <= |s| && r == s[..|r|]
    ensures |r| < |s| ==> s[|r|] == sep
  {
    if |s| == 0 || s[0] == sep then "" else [s[0]] + BeforeFirst(s[1..], sep)
  }

  /** Splitting `x + sep + rest` at the first `sep` gives `x` when `x` holds no `sep`. */
  lemma BeforeFirstUpTo(x: string, sep: char, rest: string)
    requires sep !in x
    ensures BeforeFirst(x + [sep] + rest, sep) == x
  {
    var s := x + [sep] + rest;
    var r := BeforeFirst(s, sep);
    assert s[|x|] == sep;
    assert |r| <= |x|;
    assert |r| == |x|;
  }
}
