/**
 * The few ECMAScript string primitives the chat page relies on:
 * the line terminators that a regular-expression `.` refuses, the white space
 * that `String.prototype.trim` removes, `startsWith`/`endsWith` and `slice`.
 * Strings are sequences of characters; the chat code only compares characters
 * with ones from the Basic Multilingual Plane, so UTF-16 code units and Unicode
 * scalar values give the same answers here.
 */
module JsString {

  /** ECMAScript LineTerminator: LF, CR, LINE SEPARATOR, PARAGRAPH SEPARATOR. */
  predicate IsLineTerminator(c: char) {
    c == '\n' || c == '\r' || c == '\U{2028}' || c == '\U{2029}'
  }

  /** ECMAScript WhiteSpace (including every Zs character) or LineTerminator. */
  predicate IsWhiteSpace(c: char) {
    || IsLineTerminator(c)
    || c == '\t' || c == '\U{B}' || c == '\U{C}' || c == ' '
    || c == '\U{A0}' || c == '\U{FEFF}' || c == '\U{1680}'
    || ('\U{2000}' <= c <= '\U{200A}')
    || c == '\U{202F}' || c == '\U{205F}' || c == '\U{3000}'
  }

  predicate AllWhiteSpace(s: string) {
    forall k :: 0 <= k < |s| ==> IsWhiteSpace(s[k])
  }

  /** White space removed from the front: the longest all-white-space prefix goes. */
  function TrimStart(s: string): (r: string)
    ensures |r| <= |s| && r == s[|s| - |r|..]
    ensures AllWhiteSpace(s[..|s| - |r|])
    ensures r == [] || !IsWhiteSpace(r[0])
  {
    if |s| > 0 && IsWhiteSpace(s[0]) then TrimStart(s[1..]) else s
  }

  /** White space removed from the back: the longest all-white-space suffix goes. */
  function TrimEnd(s: string): (r: string)
    ensures |r| <= |s| && r == s[..|r|]
    ensures AllWhiteSpace(s[|r|..])
    ensures r == [] || !IsWhiteSpace(r[|r| - 1])
  {
    if |s| > 0 && IsWhiteSpace(s[|s| - 1]) then TrimEnd(s[..|s| - 1]) else s
  }

  /** `s.trim()` */
  function Trim(s: string): string {
    TrimEnd(TrimStart(s))
  }

  /** `s.trim()` keeps a contiguous piece of `s` and drops only white space around it. */
  lemma TrimIsInfix(s: string)
    ensures exists i, j :: 0 <= i <= j <= |s| && Trim(s) == s[i..j]
              && AllWhiteSpace(s[..i]) && AllWhiteSpace(s[j..])
    ensures Trim(s) == [] || (!IsWhiteSpace(Trim(s)[0]) && !IsWhiteSpace(Trim(s)[|Trim(s)| - 1]))
  {
    var t := TrimStart(s);
    var r := TrimEnd(t);
    InfixWitness(s, t, r);
    if r != [] {
      assert r[0] == t[0];
    }
  }

  /** White space cut from the front of `s`, then from the back of what is left, leaves an infix of `s`. */
  lemma InfixWitness(s: string, t: string, r: string)
    requires |t| <= |s| && t == s[|s| - |t|..] && AllWhiteSpace(s[..|s| - |t|])
    requires |r| <= |t| && r == t[..|r|] && AllWhiteSpace(t[|r|..])
    ensures exists i, j :: 0 <= i <= j <= |s| && r == s[i..j]
              && AllWhiteSpace(s[..i]) && AllWhiteSpace(s[j..])
  {
    var i := |s| - |t|;
    var j := i + |r|;
    assert r == s[i..j] by {
      assert t[..|r|] == s[i..j];
    }
    assert s[j..] == t[|r|..];
  }

  /** `!s.trim()` holds exactly when `s` is empty or white space only. */
  lemma TrimEmptyIff(s: string)
    ensures Trim(s) == [] <==> AllWhiteSpace(s)
  {
    var t := TrimStart(s);
    if Trim(s) == [] {
      // a non-empty TrimStart result begins with a character TrimEnd keeps
      assert t == t[|TrimEnd(t)|..];
      assert t == [];
      assert s[..|s|] == s;
    } else {
      var r := Trim(s);
      assert !IsWhiteSpace(r[0]);
      assert r[0] == t[0];
      assert t[0] == s[|s| - |t|];
    }
  }

  predicate StartsWith(s: string, prefix: string) {
    |prefix| <= |s| && s[..|prefix|] == prefix
  }

  predicate EndsWith(s: string, suffix: string) {
    |suffix| <= |s| && s[|s| - |suffix|..] == suffix
  }

  /** The index that `String.prototype.slice` derives from a possibly negative argument. */
  function SliceIndex(len: nat, i: int): (r: nat)
    ensures r <= len
    ensures 0 <= i <= len ==> r == i
    ensures i < 0 && len + i >= 0 ==> r == len + i
    ensures i > len ==> r == len
    ensures len + i < 0 ==> r == 0
  {
    if i < 0 then (if len + i < 0 then 0 else len + i) else (if i > len then len else i)
  }

  /** `s.slice(start, end)`: empty when the end index falls before the start index. */
  function Slice(s: string, start: int, end: int): string {
    var from := SliceIndex(|s|, start);
    var to := SliceIndex(|s|, end);
    if from <= to then s[from..to] else []
  }

  /** `s.slice(3, -3)`: the inner part when at least six characters, otherwise empty. */
  lemma SliceInner3(s: string)
    ensures |s| >= 6 ==> Slice(s, 3, -3) == s[3..|s| - 3]
    ensures |s| < 6 ==> Slice(s, 3, -3) == []
  {
  }
}
