/**
 * The inline "markdown" renderer of the chat page (`renderContent` inside
 * `MarkdownRenderer`). The text is split on fenced code spans; every fenced
 * part becomes a code block shown literally, every other part goes through six
 * global regular-expression replacements in a fixed order: inline code, `**`,
 * `__`, `*`, `_`, and finally newline to `<br />`.
 *
 * Each regular expression is modelled with the semantics ECMAScript gives it:
 * a global replace tries a match at each position from left to right and
 * resumes after a match (matches never overlap) or one character further on
 * (no match there); a lazy body `(.*?)` takes the shortest body that lets the
 * closing delimiter match; `.` refuses line terminators while `[\s\S]` and
 * `[^`]` accept them. Whether a pattern matches at a position depends only on
 * the text from that position on, so the scans are written as recursion over
 * suffixes.
 */
module Markdown {
  import opened Wrappers
  import opened JsString

  /** The delimiter of a fenced code block. */
  const Fence := "```"

  /** `d` occurs in `s` at index `i`. */
  predicate IsAt(s: string, d: string, i: nat) {
    i + |d| <= |s| && s[i..i + |d|] == d
  }

  /**
   * The one shape every pattern of the renderer has: a delimiter, a body, the
   * same delimiter again. `dotAll` says whether the body may hold line
   * terminators. `nonEmpty` refuses an empty body; it is used only with a body
   * class that excludes the delimiter, where the greedy `[^`]+` and the lazy
   * scan agree.
   */
  datatype Pattern = Pattern(delim: string, dotAll: bool, nonEmpty: bool)

  /** ```[\s\S]*?``` */
  const FencePattern := Pattern(Fence, true, false)
  /** `([^`]+)` */
  const CodePattern := Pattern("`", true, true)
  /** \*\*(.*?)\*\* */
  const BoldStars := Pattern("**", false, false)
  /** __(.*?)__ */
  const BoldUnderscores := Pattern("__", false, false)
  /** \*(.*?)\* */
  const ItalicStar := Pattern("*", false, false)
  /** _(.*?)_ */
  const ItalicUnderscore := Pattern("_", false, false)

  /**
   * `p` matches at the start of `s` and its closing delimiter begins at `k`:
   * the delimiter opens, the body `s[|delim|..k]` is made of characters the body
   * class accepts, the delimiter closes at `k`, and it closes nowhere earlier
   * (the lazy body is the shortest one).
   */
  predicate IsMatch(s: string, p: Pattern, k: nat) {
    && IsAt(s, p.delim, 0)
    && |p.delim| <= k
    && IsAt(s, p.delim, k)
    && (p.nonEmpty ==> k > |p.delim|)
    && forall j :: |p.delim| <= j < k ==>
         !IsAt(s, p.delim, j) && (p.dotAll || !IsLineTerminator(s[j]))
  }

  /**
   * The lazy body scan: from index `from` on, the first index where `d`
   * occurs, stepping over body characters; a line terminator stops the scan
   * unless `dotAll`.
   */
  function LazyClose(s: string, d: string, from: nat, dotAll: bool): (r: Option<nat>)
    requires from <= |s|
    decreases |s| - from
    ensures r.Some? ==> from <= r.value && IsAt(s, d, r.value)
    ensures r.Some? ==> forall j :: from <= j < r.value ==>
              !IsAt(s, d, j) && (dotAll || !IsLineTerminator(s[j]))
    ensures r.None? ==> forall j :: from <= j <= |s| && IsAt(s, d, j) ==>
              !dotAll && exists m :: from <= m < j && IsLineTerminator(s[m])
  {
    if IsAt(s, d, from) then Some(from)
    else if from < |s| && (dotAll || !IsLineTerminator(s[from])) then LazyClose(s, d, from + 1, dotAll)
    else None
  }

  /** Where the closing delimiter of the match of `p` at the start of `s` begins, if `p` matches there. */
  function MatchAt(s: string, p: Pattern): (r: Option<nat>)
    ensures r.Some? ==> |p.delim| <= r.value && r.value + |p.delim| <= |s|
  {
    if !IsAt(s, p.delim, 0) then None
    else match LazyClose(s, p.delim, |p.delim|, p.dotAll)
      case None => None
      case Some(k) => if p.nonEmpty && k == |p.delim| then None else Some(k)
  }

  /** The scan finds exactly the match the declarative reading describes, and finds none when there is none. */
  lemma MatchAtIsMatch(s: string, p: Pattern)
    ensures MatchAt(s, p).Some? ==> IsMatch(s, p, MatchAt(s, p).value)
    ensures MatchAt(s, p).None? ==> forall k: nat :: !IsMatch(s, p, k)
  {
  }

  /** A match of `p` starts at index `i` of `s`. */
  predicate MatchStartsAt(s: string, p: Pattern, i: nat)
    requires i <= |s|
  {
    MatchAt(s[i..], p).Some?
  }

  /** No match of `p` starts before index `q` of `s`. */
  predicate NoMatchBefore(s: string, p: Pattern, q: nat)
    requires q <= |s|
  {
    forall i :: 0 <= i < q ==> !MatchStartsAt(s, p, i)
  }

  /** No match of `p` starts anywhere in `s`. */
  predicate NoMatch(s: string, p: Pattern) {
    NoMatchBefore(s, p, |s|)
  }

  lemma MatchStartsAtTail(s: string, p: Pattern, i: nat)
    requires i < |s|
    ensures MatchStartsAt(s[1..], p, i) == MatchStartsAt(s, p, i + 1)
  {
    assert s[1..][i..] == s[i + 1..];
  }

  /** Dropping the first character, where no match starts, keeps "no match before". */
  lemma NoMatchBeforeTail(s: string, p: Pattern, q: nat)
    requires 0 < q <= |s|
    ensures NoMatchBefore(s, p, q) <==> !MatchStartsAt(s, p, 0) && NoMatchBefore(s[1..], p, q - 1)
  {
    forall i | 0 <= i < q - 1 ensures MatchStartsAt(s[1..], p, i) == MatchStartsAt(s, p, i + 1) {
      MatchStartsAtTail(s, p, i);
    }
    if !MatchStartsAt(s, p, 0) && NoMatchBefore(s[1..], p, q - 1) {
      forall i | 0 <= i < q ensures !MatchStartsAt(s, p, i) {
        if i > 0 { assert !MatchStartsAt(s[1..], p, i - 1); }
      }
    }
  }

  /**
   * `s.replace(/delim(body)delim/g, open + "$1" + close)`: every match, found
   * left to right without overlap, is replaced by its body wrapped in `open`
   * and `close`; the text between matches is kept.
   */
  function ReplaceAll(s: string, p: Pattern, open: string, close: string): (r: string)
    requires p.delim != []
    decreases |s|
    ensures |open| + |close| >= 2 * |p.delim| ==> |r| >= |s|
  {
    if |s| == 0 then []
    else match MatchAt(s, p)
      case Some(k) => open + s[|p.delim|..k] + close + ReplaceAll(s[k + |p.delim|..], p, open, close)
      case None => [s[0]] + ReplaceAll(s[1..], p, open, close)
  }

  /** `x` is the whole body of a match of `p` when the closing delimiter follows it. */
  predicate IsBody(x: string, p: Pattern) {
    && (p.nonEmpty ==> x != [])
    && (forall j :: 0 <= j < |x| ==> !IsAt(x + p.delim, p.delim, j))
    && (!p.dotAll ==> forall j :: 0 <= j < |x| ==> !IsLineTerminator(x[j]))
  }

  lemma IsAtAfter(a: string, b: string, d: string, j: nat)
    ensures IsAt(a + b, d, |a| + j) <==> IsAt(b, d, j)
  {
    if j + |d| <= |b| {
      assert (a + b)[|a| + j..|a| + j + |d|] == b[j..j + |d|];
    }
  }

  lemma IsAtBefore(a: string, b: string, d: string, j: nat)
    requires j + |d| <= |a|
    ensures IsAt(a + b, d, j) <==> IsAt(a, d, j)
  {
    assert (a + b)[j..j + |d|] == a[j..j + |d|];
  }

  /** A replacement does not change the part of the text before the first delimiter character. */
  lemma ReplacePlainPrefix(u: string, v: string, p: Pattern, open: string, close: string)
    requires p.delim != [] && p.delim[0] !in u
    ensures ReplaceAll(u + v, p, open, close) == u + ReplaceAll(v, p, open, close)
  {
    var s := u + v;
    forall i | 0 <= i < |u| ensures !MatchStartsAt(s, p, i) {
      assert s[i..][0] == u[i];
    }
    ReplaceKeepsPrefix(s, p, open, close, |u|);
    assert s[..|u|] == u && s[|u|..] == v;
  }

  /**
   * The case of ReplaceAtLeftmost the examples use: `u delim x delim v`, with
   * no delimiter character in `u` and `x` a complete body, becomes
   * `u open x close` followed by the replacement of `v`.
   */
  lemma ReplaceSplice(u: string, x: string, v: string, p: Pattern, open: string, close: string)
    requires p.delim != [] && p.delim[0] !in u && IsBody(x, p)
    ensures ReplaceAll(u + p.delim + x + p.delim + v, p, open, close)
         == u + open + x + close + ReplaceAll(v, p, open, close)
  {
    var t := p.delim + x + p.delim + v;
    Associate(u, p.delim, x, p.delim, v);
    ReplacePlainPrefix(u, t, p, open, close);
    ReplaceAtMatch(x, v, p, open, close);
    Associate(u, open, x, close, ReplaceAll(v, p, open, close));
  }

  lemma Associate(a: string, b: string, c: string, d: string, e: string)
    ensures a + b + c + d + e == a + (b + c + d + e)
  {
  }

  /**
   * The leftmost match is replaced where it stands, wherever it is: when no
   * match starts before index `q` and one starts at `q`, closing at `q + k`,
   * the text before `q` is kept (the scan stepped over it one character at a
   * time, past any delimiter that found no partner), the match becomes its body
   * wrapped in `open` and `close`, and the scan resumes after the closing
   * delimiter.
   */
  lemma ReplaceAtLeftmost(s: string, p: Pattern, open: string, close: string, q: nat, k: nat)
    requires p.delim != [] && q <= |s| && MatchAt(s[q..], p) == Some(k) && NoMatchBefore(s, p, q)
    ensures q + k + |p.delim| <= |s|
    ensures ReplaceAll(s, p, open, close)
         == s[..q] + open + s[q + |p.delim|..q + k] + close + ReplaceAll(s[q + k + |p.delim|..], p, open, close)
  {
    ReplaceKeepsPrefix(s, p, open, close, q);
    ReplaceFromMatch(s, p, open, close, q, k);
    Associate(s[..q], open, s[q + |p.delim|..q + k], close, ReplaceAll(s[q + k + |p.delim|..], p, open, close));
  }

  /** The replacement from a match at index `q` on: the wrapped body, then the replacement after the match. */
  lemma ReplaceFromMatch(s: string, p: Pattern, open: string, close: string, q: nat, k: nat)
    requires p.delim != [] && q <= |s| && MatchAt(s[q..], p) == Some(k)
    ensures q + k + |p.delim| <= |s|
    ensures ReplaceAll(s[q..], p, open, close)
         == open + s[q + |p.delim|..q + k] + close + ReplaceAll(s[q + k + |p.delim|..], p, open, close)
  {
    ReplaceMatchStep(s[q..], p, open, close, k);
    SameRest(s, p, open, close, q, k);
    assert s[q..][|p.delim|..k] == s[q + |p.delim|..q + k];
  }

  lemma SameRest(s: string, p: Pattern, open: string, close: string, q: nat, k: nat)
    requires p.delim != [] && q + k + |p.delim| <= |s|
    ensures ReplaceAll(s[q..][k + |p.delim|..], p, open, close) == ReplaceAll(s[q + k + |p.delim|..], p, open, close)
  {
    assert s[q..][k + |p.delim|..] == s[q + k + |p.delim|..];
  }

  /** Where no match starts before index `q`, the scan keeps the text before `q` as it is. */
  lemma {:induction false} ReplaceKeepsPrefix(s: string, p: Pattern, open: string, close: string, q: nat)
    requires p.delim != [] && q <= |s| && NoMatchBefore(s, p, q)
    ensures ReplaceAll(s, p, open, close) == s[..q] + ReplaceAll(s[q..], p, open, close)
  {
    if q == 0 {
      assert s[..q] == [] && s[q..] == s;
    } else {
      assert s[0..] == s;
      NoMatchBeforeTail(s, p, q);
      ReplaceNoMatchStep(s, p, open, close);
      ReplaceKeepsPrefix(s[1..], p, open, close, q - 1);
      KeepShift(s, q, ReplaceAll(s, p, open, close), ReplaceAll(s[1..], p, open, close),
        ReplaceAll(s[q..], p, open, close));
      assert s[1..][q - 1..] == s[q..];
    }
  }

  /** The bookkeeping step of ReplaceKeepsPrefix: the first character joins the kept text. */
  lemma KeepShift(s: string, q: nat, r: string, rest: string, tail: string)
    requires 0 < q <= |s| && r == [s[0]] + rest && rest == s[1..][..q - 1] + tail
    ensures r == s[..q] + tail
  {
    assert s[1..][..q - 1] == s[1..q];
    assert s[..q] == [s[0]] + s[1..q];
  }

  /** Where a match starts the text, it is replaced and the scan resumes after it. */
  lemma ReplaceMatchStep(s: string, p: Pattern, open: string, close: string, k: nat)
    requires p.delim != [] && MatchAt(s, p) == Some(k)
    ensures ReplaceAll(s, p, open, close)
         == open + s[|p.delim|..k] + close + ReplaceAll(s[k + |p.delim|..], p, open, close)
  {
    MatchAtIsMatch(s, p);
    MatchBody(s, p, k);
    ReplaceAtMatch(s[|p.delim|..k], s[k + |p.delim|..], p, open, close);
  }

  /** Where no match starts the text, its first character is kept and the scan moves on by one. */
  lemma ReplaceNoMatchStep(s: string, p: Pattern, open: string, close: string)
    requires p.delim != [] && |s| > 0 && MatchAt(s, p).None?
    ensures ReplaceAll(s, p, open, close) == [s[0]] + ReplaceAll(s[1..], p, open, close)
  {
  }

  /** A match is the delimiter, a complete body, the delimiter, and the rest of the text. */
  lemma MatchBody(s: string, p: Pattern, k: nat)
    requires IsMatch(s, p, k)
    ensures s == p.delim + s[|p.delim|..k] + p.delim + s[k + |p.delim|..]
    ensures IsBody(s[|p.delim|..k], p)
  {
    CutFour(s, |p.delim|, k, k + |p.delim|);
    BodyOfMatch(s, p, k);
  }

  lemma BodyOfMatch(s: string, p: Pattern, k: nat)
    requires IsMatch(s, p, k)
    ensures IsBody(s[|p.delim|..k], p)
  {
    var d := p.delim;
    var x := s[|d|..k];
    var w := s[|d|..k + |d|];
    SliceAppend(s, |d|, k, k + |d|);
    assert w == x + d;
    NoCloseInBody(s, d, k, w);
    forall j | 0 <= j < |x|
      ensures p.dotAll || !IsLineTerminator(x[j])
    {
      assert x[j] == s[|d| + j];
    }
  }

  /** No delimiter occurs inside the body of a match, counted within the body followed by its closing delimiter. */
  lemma NoCloseInBody(s: string, d: string, k: nat, w: string)
    requires |d| <= k && k + |d| <= |s| && w == s[|d|..k + |d|]
    requires forall j :: |d| <= j < k ==> !IsAt(s, d, j)
    ensures forall j :: 0 <= j < k - |d| ==> !IsAt(w, d, j)
  {
    forall j | 0 <= j < k - |d|
      ensures !IsAt(w, d, j)
    {
      assert !IsAt(s, d, |d| + j);
      IsAtSlice(s, d, |d|, k + |d|, j);
    }
  }

  lemma SliceAppend(s: string, a: nat, b: nat, c: nat)
    requires a <= b <= c <= |s|
    ensures s[a..c] == s[a..b] + s[b..c]
  {
  }

  /** `d` occurs at `j` in a slice exactly when it occurs at the matching index of the whole text. */
  lemma IsAtSlice(s: string, d: string, a: nat, b: nat, j: nat)
    requires a <= b <= |s| && j + |d| <= b - a
    ensures IsAt(s[a..b], d, j) <==> IsAt(s, d, a + j)
  {
    var t := s[a..b];
    var u, w := t[j..j + |d|], s[a + j..a + j + |d|];
    forall i | 0 <= i < |d| ensures u[i] == w[i] {
      assert t[j + i] == s[a + j + i];
    }
    assert u == w;
  }

  lemma CutFour(s: string, a: nat, b: nat, c: nat)
    requires a <= b <= c <= |s|
    ensures s == s[..a] + s[a..b] + s[b..c] + s[c..]
  {
    assert s[..a] + s[a..b] == s[..b];
    assert s[..b] + s[b..c] == s[..c];
    assert s[..c] + s[c..] == s;
  }


  /** A match at the very start is replaced, and the scan resumes right after it. */
  lemma ReplaceAtMatch(x: string, v: string, p: Pattern, open: string, close: string)
    requires p.delim != [] && IsBody(x, p)
    ensures ReplaceAll(p.delim + x + p.delim + v, p, open, close)
         == open + x + close + ReplaceAll(v, p, open, close)
  {
    var d := p.delim;
    var t := d + x + d + v;
    var k := |d| + |x|;
    BodyMatches(x, v, p);
    MatchAtIsMatch(t, p);
    MatchUnique(t, p, MatchAt(t, p).value, k);
    assert t[|d|..k] == x;
    assert t[k + |d|..] == v;
  }

  /** Two matches of one pattern at one place close at the same index. */
  lemma MatchUnique(s: string, p: Pattern, k1: nat, k2: nat)
    requires IsMatch(s, p, k1) && IsMatch(s, p, k2)
    ensures k1 == k2
  {
  }

  /** `delim x delim v` matches, closing right after `x`, when `x` is a complete body. */
  lemma BodyMatches(x: string, v: string, p: Pattern)
    requires IsBody(x, p)
    ensures IsMatch(p.delim + x + p.delim + v, p, |p.delim| + |x|)
  {
    BodyMatchesNested(p.delim, x, v, p);
    Regroup(p.delim, x, v);
  }

  lemma Regroup(d: string, x: string, v: string)
    ensures d + x + d + v == d + ((x + d) + v)
  {
  }

  lemma BodyMatchesNested(d: string, x: string, v: string, p: Pattern)
    requires d == p.delim && IsBody(x, p)
    ensures IsMatch(d + ((x + d) + v), p, |d| + |x|)
  {
    var w := (x + d) + v;
    var t := d + w;
    assert d[0..|d|] == d;
    IsAtBefore(d, w, d, 0);
    IsAtAfter(d, w, d, |x|);
    IsAtBefore(x + d, v, d, |x|);
    IsAtAfter(x, d, d, 0);
    forall j | |d| <= j < |d| + |x|
      ensures !IsAt(t, d, j) && (p.dotAll || !IsLineTerminator(t[j]))
    {
      IsAtAfter(d, w, d, j - |d|);
      IsAtBefore(x + d, v, d, j - |d|);
      assert t[j] == x[j - |d|];
    }
  }

  /** A replacement leaves the text unchanged exactly when the pattern matches nowhere in it. */
  lemma {:induction false} ReplaceUnchangedIff(s: string, p: Pattern, open: string, close: string)
    requires p.delim != [] && |open| + |close| > 2 * |p.delim|
    ensures ReplaceAll(s, p, open, close) == s <==> NoMatch(s, p)
  {
    if |s| > 0 {
      assert s[0..] == s;
      NoMatchBeforeTail(s, p, |s|);
      if MatchAt(s, p).None? {
        ReplaceUnchangedIff(s[1..], p, open, close);
        assert [s[0]] + s[1..] == s;
      }
    }
  }

  /**
   * A pattern whose delimiter is one character matches nowhere when that
   * character occurs at most once: a lone `*`, `_` or backtick is kept as it is.
   */
  lemma LoneDelimiterUnchanged(s: string, p: Pattern, open: string, close: string)
    requires |p.delim| == 1 && |open| + |close| > 2
    requires forall i, j :: 0 <= i < j < |s| ==> !(s[i] == p.delim[0] && s[j] == p.delim[0])
    ensures ReplaceAll(s, p, open, close) == s
  {
    forall i | 0 <= i < |s| ensures !MatchStartsAt(s, p, i) {
    }
    ReplaceUnchangedIff(s, p, open, close);
  }

  /** A pattern whose delimiter occurs nowhere in `s` leaves `s` as it is. */
  lemma DelimiterAbsentUnchanged(s: string, p: Pattern, open: string, close: string)
    requires p.delim != [] && |open| + |close| > 2 * |p.delim|
    requires forall i: nat :: !IsAt(s, p.delim, i)
    ensures ReplaceAll(s, p, open, close) == s
  {
    forall i | 0 <= i < |s| ensures !MatchStartsAt(s, p, i) {
      assert !IsAt(s, p.delim, i);
      if |p.delim| <= |s| - i {
        assert s[i..][0..|p.delim|] == s[i..i + |p.delim|];
      }
      assert !IsAt(s[i..], p.delim, 0);
    }
    ReplaceUnchangedIff(s, p, open, close);
  }

  /** A pattern whose first delimiter character never occurs leaves `s` as it is. */
  lemma DelimiterCharAbsentUnchanged(s: string, p: Pattern, open: string, close: string)
    requires p.delim != [] && p.delim[0] !in s
    ensures ReplaceAll(s, p, open, close) == s
  {
    ReplacePlainPrefix(s, [], p, open, close);
    assert s + [] == s;
  }

  /** `s.replace(/\n/g, "<br />")` */
  function BreakLines(s: string): (r: string)
    ensures '\n' !in r
    ensures '\n' !in s ==> r == s
  {
    if |s| == 0 then []
    else (if s[0] == '\n' then "<br />" else [s[0]]) + BreakLines(s[1..])
  }

  /** The reverse reading of `BreakLines`: every `<br />` back to a newline. */
  function RestoreLines(s: string): string
  {
    if |s| == 0 then []
    else if StartsWith(s, "<br />") then "\n" + RestoreLines(s[6..])
    else [s[0]] + RestoreLines(s[1..])
  }

  lemma RestoreBreak(rest: string)
    ensures RestoreLines("<br />" + rest) == "\n" + RestoreLines(rest)
  {
    var b := "<br />" + rest;
    assert b[..6] == "<br />" && b[6..] == rest;
  }

  lemma RestoreOther(c: char, rest: string)
    requires c != '<'
    ensures RestoreLines([c] + rest) == [c] + RestoreLines(rest)
  {
    var b := [c] + rest;
    assert b[0] == c && b[1..] == rest;
    if |b| >= 6 { assert b[..6][0] == c; }
  }

  /** On text without `<`, the line-break pass loses nothing: each `<br />` stands for one newline. */
  lemma {:induction false} BreakLinesRoundTrip(s: string)
    requires '<' !in s
    ensures RestoreLines(BreakLines(s)) == s
  {
    if |s| > 0 {
      var rest := BreakLines(s[1..]);
      assert '<' !in s[1..];
      BreakLinesRoundTrip(s[1..]);
      if s[0] == '\n' {
        RestoreBreak(rest);
      } else {
        RestoreOther(s[0], rest);
      }
      assert [s[0]] + s[1..] == s;
    }
  }

  /** One rendered piece of a message. */
  datatype Fragment =
    | CodeBlock(code: string, preClass: string, codeClass: string)
    | Span(html: string)

  /** The class of the `<pre>` around a fenced code block. */
  function PreClass(isUser: bool): string {
    "p-4 rounded-lg mt-3 mb-3 overflow-x-auto "
      + (if isUser then "bg-[#a04d2a]" else "bg-[#f4f3ee] border border-[#b1ada1]/20")
  }

  /** The class of the `<code>` inside a fenced code block. */
  function CodeClass(isUser: bool): string {
    "text-sm font-mono " + (if isUser then "text-white" else "text-[#c15f3c]")
  }

  /** The classes of an inline code span, spelled in short pieces. */
  function InlineCodeClass(isUser: bool): string {
    "px-2 py-1 rounded " + "text-sm font-mono "
      + (if isUser then "bg-[#a04d2a] " + "text-white"
         else "bg-[#f4f3ee] " + "text-[#c15f3c] " + "border " + "border-[#b1ada1]/20")
  }

  /** The opening tag an inline code span is given. */
  function InlineCodeOpen(isUser: bool): string {
    "<code class=\"" + InlineCodeClass(isUser) + "\">"
  }

  const InlineCodeClose := "</code>"

  /** The six replacements applied to a part that is not a code block, in the order of the source. */
  function RenderText(part: string, isUser: bool): string {
    var code := ReplaceAll(part, CodePattern, InlineCodeOpen(isUser), InlineCodeClose);
    var bold := ReplaceAll(code, BoldStars, "<strong>", "</strong>");
    var bold' := ReplaceAll(bold, BoldUnderscores, "<strong>", "</strong>");
    var em := ReplaceAll(bold', ItalicStar, "<em>", "</em>");
    var em' := ReplaceAll(em, ItalicUnderscore, "<em>", "</em>");
    BreakLines(em')
  }

  /** `part.startsWith("```") && part.endsWith("```")` */
  predicate IsCodePart(part: string) {
    StartsWith(part, Fence) && EndsWith(part, Fence)
  }

  /**
   * The fragment for one part of the split: a code block exactly when the part
   * starts and ends with a fence, holding the trimmed inside (nothing when the
   * part is shorter than two fences); otherwise a span with the rewritten text.
   */
  function RenderPart(part: string, isUser: bool): (r: Fragment)
    ensures r.CodeBlock? <==> IsCodePart(part)
    ensures r.CodeBlock? ==> r.preClass == PreClass(isUser) && r.codeClass == CodeClass(isUser)
    ensures r.CodeBlock? && |part| >= 6 ==> r.code == Trim(part[3..|part| - 3])
    ensures r.CodeBlock? && |part| < 6 ==> r.code == []
    ensures r.Span? ==> r.html == RenderText(part, isUser) && '\n' !in r.html
  {
    SliceInner3(part);
    if IsCodePart(part) then CodeBlock(Trim(Slice(part, 3, -3)), PreClass(isUser), CodeClass(isUser))
    else Span(RenderText(part, isUser))
  }

  /** `s` holds no complete fenced span: no fence is followed later by a second, separate one. */
  predicate NoFencedSpan(s: string) {
    forall i, j :: 0 <= i && i + 3 <= j <= |s| && IsAt(s, Fence, i) ==> !IsAt(s, Fence, j)
  }

  /** A fence at the start of `s` is followed by no second one. */
  predicate Unclosed(s: string) {
    IsAt(s, Fence, 0) ==> forall j :: 3 <= j <= |s| ==> !IsAt(s, Fence, j)
  }

  /** Where no fenced span starts, a fence at the start is never closed. */
  lemma UnclosedFence(s: string)
    requires MatchAt(s, FencePattern).None?
    ensures Unclosed(s)
  {
    if IsAt(s, Fence, 0) {
      assert LazyClose(s, Fence, 3, true).None?;
    }
  }

  lemma IsMatchPrefix(s: string, p: Pattern, k: nat)
    requires IsMatch(s, p, k)
    ensures IsMatch(s[..k + |p.delim|], p, k)
  {
    var t := s[..k + |p.delim|];
    assert t[0..|p.delim|] == s[0..|p.delim|];
    assert t[k..k + |p.delim|] == s[k..k + |p.delim|];
    forall j | |p.delim| <= j < k ensures !IsAt(t, p.delim, j) && (p.dotAll || !IsLineTerminator(t[j])) {
      if j + |p.delim| <= |t| { assert t[j..j + |p.delim|] == s[j..j + |p.delim|]; }
      assert t[j] == s[j];
    }
  }

  /**
   * `text.split(/(```[\s\S]*?```)/)`: the text between matches and, because the
   * group captures, the matches themselves, alternately; so there is always an
   * odd number of parts, and the first is a prefix of the text.
   */
  function SplitFences(s: string): (parts: seq<string>)
    decreases |s|
    ensures |parts| % 2 == 1
    ensures |parts[0]| <= |s| && parts[0] == s[..|parts[0]|]
  {
    if |s| == 0 then [[]]
    else match MatchAt(s, FencePattern)
      case Some(k) => [[], s[..k + 3]] + SplitFences(s[k + 3..])
      case None =>
        var rest := SplitFences(s[1..]);
        [[s[0]] + rest[0]] + rest[1..]
  }

  /** `t` is one whole fenced span: a fence, the shortest body, a fence. */
  predicate IsFencedSpan(t: string) {
    |t| >= 6 && IsMatch(t, FencePattern, |t| - 3)
  }

  /** Every odd part is one whole fenced span. */
  predicate OddPartsFenced(parts: seq<string>) {
    forall i :: 0 <= i < |parts| && i % 2 == 1 ==> IsFencedSpan(parts[i])
  }

  /** No even part holds a complete fenced span. */
  predicate EvenPartsUnfenced(parts: seq<string>) {
    forall i :: 0 <= i < |parts| && i % 2 == 0 ==> NoFencedSpan(parts[i])
  }

  /** Every odd part of the split is one whole fenced span. */
  lemma {:induction false} SplitOddParts(s: string)
    ensures OddPartsFenced(SplitFences(s))
  {
    if |s| > 0 {
      match MatchAt(s, FencePattern)
      case Some(k) =>
        SplitMatchedHead(s, k);
        SplitOddParts(s[k + 3..]);
        MatchedSpan(s, k);
        OddAfterMatch(s[..k + 3], SplitFences(s[k + 3..]));
      case None =>
        SplitUnmatchedHead(s);
        SplitOddParts(s[1..]);
        OddAfterUnmatched(s[0], SplitFences(s[1..]));
    }
  }

  /** The match at the start of `s` is one whole fenced span. */
  lemma MatchedSpan(s: string, k: nat)
    requires MatchAt(s, FencePattern) == Some(k)
    ensures k + 3 <= |s| && IsFencedSpan(s[..k + 3])
  {
    MatchAtIsMatch(s, FencePattern);
    IsMatchPrefix(s, FencePattern, k);
  }

  lemma OddAfterMatch(m: string, rest: seq<string>)
    requires IsFencedSpan(m) && OddPartsFenced(rest)
    ensures OddPartsFenced([[], m] + rest)
  {
    var parts := [[], m] + rest;
    forall i | 0 <= i < |parts| && i % 2 == 1 ensures IsFencedSpan(parts[i]) {
      if i > 1 { assert parts[i] == rest[i - 2]; }
    }
  }

  lemma OddAfterUnmatched(c: char, rest: seq<string>)
    requires |rest| > 0 && OddPartsFenced(rest)
    ensures OddPartsFenced([[c] + rest[0]] + rest[1..])
  {
    var parts := [[c] + rest[0]] + rest[1..];
    forall i | 0 <= i < |parts| && i % 2 == 1 ensures IsFencedSpan(parts[i]) {
      assert parts[i] == rest[i];
    }
  }

  /** No even part of the split holds a complete fenced span. */
  lemma {:induction false} SplitEvenParts(s: string)
    ensures EvenPartsUnfenced(SplitFences(s))
  {
    if |s| > 0 {
      match MatchAt(s, FencePattern)
      case Some(k) =>
        SplitMatchedHead(s, k);
        SplitEvenParts(s[k + 3..]);
        EvenAfterMatch(s[..k + 3], SplitFences(s[k + 3..]));
      case None =>
        SplitUnmatchedHead(s);
        SplitEvenParts(s[1..]);
        UnclosedFence(s);
        FirstPartNoFencedSpan(s, SplitFences(s[1..])[0]);
        EvenAfterUnmatched(s[0], SplitFences(s[1..]));
    }
  }

  lemma EvenAfterMatch(m: string, rest: seq<string>)
    requires EvenPartsUnfenced(rest)
    ensures EvenPartsUnfenced([[], m] + rest)
  {
    var parts := [[], m] + rest;
    forall i | 0 <= i < |parts| && i % 2 == 0 ensures NoFencedSpan(parts[i]) {
      if i > 0 { assert parts[i] == rest[i - 2]; }
    }
  }

  lemma EvenAfterUnmatched(c: char, rest: seq<string>)
    requires |rest| > 0 && NoFencedSpan([c] + rest[0]) && EvenPartsUnfenced(rest)
    ensures EvenPartsUnfenced([[c] + rest[0]] + rest[1..])
  {
    var parts := [[c] + rest[0]] + rest[1..];
    forall i | 0 <= i < |parts| && i % 2 == 0 ensures NoFencedSpan(parts[i]) {
      if i > 0 { assert parts[i] == rest[i]; }
    }
  }

  /** Extending a fence-free prefix by one character where no fenced span starts keeps it fence-free. */
  lemma FirstPartNoFencedSpan(s: string, r0: string)
    requires |s| > 0 && Unclosed(s)
    requires |r0| < |s| && r0 == s[1..][..|r0|] && NoFencedSpan(r0)
    ensures NoFencedSpan([s[0]] + r0)
  {
    var first := [s[0]] + r0;
    assert first == s[..|first|];
    forall i, j | 0 <= i && i + 3 <= j <= |first| && IsAt(first, Fence, i) ensures !IsAt(first, Fence, j) {
      if i == 0 {
        assert first + s[|first|..] == s;
        IsAtBefore(first, s[|first|..], Fence, 0);
        if IsAt(first, Fence, j) {
          IsAtBefore(first, s[|first|..], Fence, j);
        }
      } else {
        IsAtAfter([s[0]], r0, Fence, i - 1);
        if IsAt(first, Fence, j) {
          IsAtAfter([s[0]], r0, Fence, j - 1);
        }
      }
    }
  }

  /** The parts joined back together. */
  function Concat(parts: seq<string>): string {
    if |parts| == 0 then [] else parts[0] + Concat(parts[1..])
  }

  /** Splitting keeps every character: the parts, joined, give back the text. */
  lemma {:induction false} SplitConcat(s: string)
    ensures Concat(SplitFences(s)) == s
  {
    if |s| > 0 {
      match MatchAt(s, FencePattern)
      case Some(k) =>
        SplitMatchedHead(s, k);
        SplitConcat(s[k + 3..]);
        ConcatMatched(s, k, SplitFences(s[k + 3..]));
      case None =>
        SplitUnmatchedHead(s);
        SplitConcat(s[1..]);
        ConcatUnmatched(s, SplitFences(s[1..]));
    }
  }

  /** Joining an empty part, the match `s[..e]` and parts that join to the rest gives `s`. */
  lemma ConcatMatched(s: string, k: nat, rest: seq<string>)
    requires k + 3 <= |s| && Concat(rest) == s[k + 3..]
    ensures Concat([[], s[..k + 3]] + rest) == s
  {
    var parts := [[], s[..k + 3]] + rest;
    assert parts[1..] == [s[..k + 3]] + rest;
    assert ([s[..k + 3]] + rest)[1..] == rest;
    assert s[..k + 3] + s[k + 3..] == s;
  }

  /** Putting the first character in front of the first part of parts that join to `s[1..]` gives parts that join to `s`. */
  lemma ConcatUnmatched(s: string, rest: seq<string>)
    requires |s| > 0 && |rest| > 0 && Concat(rest) == s[1..]
    ensures Concat([[s[0]] + rest[0]] + rest[1..]) == s
  {
    var parts := [[s[0]] + rest[0]] + rest[1..];
    assert parts[1..] == rest[1..];
    assert Concat(rest) == rest[0] + Concat(rest[1..]);
    assert [s[0]] + s[1..] == s;
  }

  /** Text in which no fence match starts anywhere is one single part. */
  lemma {:induction false} SplitWithoutMatch(s: string)
    requires NoMatch(s, FencePattern)
    ensures SplitFences(s) == [s]
  {
    if |s| > 0 {
      assert s[0..] == s;
      NoMatchBeforeTail(s, FencePattern, |s|);
      SplitWithoutMatch(s[1..]);
      assert [s[0]] + s[1..] == s;
    }
  }

  /**
   * The split cuts at the leftmost match: when the first match starts at `q`
   * and its closing fence begins `k` characters further on, the parts are the
   * text before it, the match, and the split of the rest.
   */
  lemma SplitAtLeftmost(s: string, q: nat, k: nat)
    requires q <= |s| && MatchAt(s[q..], FencePattern) == Some(k)
    requires NoMatchBefore(s, FencePattern, q)
    ensures q + k + 3 <= |s|
    ensures SplitFences(s) == [s[..q], s[q..q + k + 3]] + SplitFences(s[q + k + 3..])
  {
    LeftmostSplitHolds(s, q, k);
  }

  /** `parts` are the text before `s[q..q + k + 3]`, that span, and the split of the rest. */
  predicate LeftmostSplit(s: string, q: nat, k: nat, parts: seq<string>) {
    q + k + 3 <= |s| && parts == [s[..q], s[q..q + k + 3]] + SplitFences(s[q + k + 3..])
  }

  lemma {:induction false} LeftmostSplitHolds(s: string, q: nat, k: nat)
    requires q <= |s| && MatchAt(s[q..], FencePattern) == Some(k)
    requires NoMatchBefore(s, FencePattern, q)
    ensures LeftmostSplit(s, q, k, SplitFences(s))
  {
    if q == 0 {
      SplitAtStart(s, q, k);
    } else {
      LeftmostInTail(s, FencePattern, q, k);
      LeftmostSplitHolds(s[1..], q - 1, k);
      SplitPastUnmatched(s, q, k);
    }
  }

  /** A leftmost match past the first character is the leftmost match of the tail, and none starts at the first character. */
  lemma LeftmostInTail(s: string, p: Pattern, q: nat, k: nat)
    requires 0 < q <= |s| && MatchAt(s[q..], p) == Some(k)
    requires NoMatchBefore(s, p, q)
    ensures q - 1 <= |s[1..]| && MatchAt(s[1..][q - 1..], p) == Some(k)
    ensures NoMatchBefore(s[1..], p, q - 1)
    ensures MatchAt(s, p).None?
  {
    assert s[1..][q - 1..] == s[q..];
    NoMatchBeforeTail(s, p, q);
    assert !MatchStartsAt(s, p, 0);
    assert s[0..] == s;
  }

  lemma SplitAtStart(s: string, q: nat, k: nat)
    requires q == 0 && MatchAt(s[q..], FencePattern) == Some(k)
    ensures LeftmostSplit(s, q, k, SplitFences(s))
  {
    assert s[0..] == s;
    var e := k + 3;
    SplitMatchedHead(s, k);
    assert s[..q] == [] && s[q..e] == s[..e] && s[q + e..] == s[e..];
  }

  lemma SplitPastUnmatched(s: string, q: nat, k: nat)
    requires 0 < q <= |s| && MatchAt(s, FencePattern).None?
    requires LeftmostSplit(s[1..], q - 1, k, SplitFences(s[1..]))
    ensures LeftmostSplit(s, q, k, SplitFences(s))
  {
    var tail := SplitFences(s[1..][q - 1 + k + 3..]);
    SplitUnmatchedHead(s);
    SplitShift(s, q, k, SplitFences(s), SplitFences(s[1..]), tail);
    assert s[1..][q - 1 + k + 3..] == s[q + k + 3..];
  }

  /** The bookkeeping step of SplitAtLeftmost: the first character joins the text before the match. */
  lemma SplitShift(s: string, q: nat, k: nat, parts: seq<string>, rest: seq<string>, tail: seq<string>)
    requires 0 < q && q + k + 3 <= |s|
    requires |rest| > 0 && parts == [[s[0]] + rest[0]] + rest[1..]
    requires rest == [s[1..][..q - 1], s[1..][q - 1..q - 1 + k + 3]] + tail
    ensures parts == [s[..q], s[q..q + k + 3]] + tail
  {
    assert s[1..][q - 1..q - 1 + k + 3] == s[q..q + k + 3];
    assert [s[0]] + s[1..][..q - 1] == s[..q];
  }

  /** A match at the start gives an empty first part, then the match. */
  lemma SplitMatchedHead(s: string, k: nat)
    requires MatchAt(s, FencePattern) == Some(k)
    ensures SplitFences(s) == [[], s[..k + 3]] + SplitFences(s[k + 3..])
  {
  }

  /** Where no match starts, the first character joins the first part of the rest's split. */
  lemma SplitUnmatchedHead(s: string)
    requires |s| > 0 && MatchAt(s, FencePattern).None?
    ensures SplitFences(s) == [[s[0]] + SplitFences(s[1..])[0]] + SplitFences(s[1..])[1..]
  {
  }

  /** `renderContent(text)`: one fragment per part of the split, in order. */
  function RenderContent(text: string, isUser: bool): (r: seq<Fragment>)
    ensures |r| == |SplitFences(text)| && |r| % 2 == 1
    ensures forall i :: 0 <= i < |r| ==> r[i] == RenderPart(SplitFences(text)[i], isUser)
  {
    var parts := SplitFences(text);
    seq(|parts|, i requires 0 <= i < |parts| => RenderPart(parts[i], isUser))
  }

  /** Every fenced span renders as a code block holding its trimmed inside. */
  lemma RenderFencedSpans(text: string, isUser: bool)
    ensures FencedSpansRendered(SplitFences(text), RenderContent(text, isUser), isUser)
  {
    var parts := SplitFences(text);
    var r := RenderContent(text, isUser);
    assert RendersEach(parts, r, isUser);
    SplitOddParts(text);
    OddPartsRender(parts, r, isUser);
  }

  /** Each odd part of `parts` is at least two fences long and `r` holds, at its index, the code block of its trimmed inside. */
  predicate FencedSpansRendered(parts: seq<string>, r: seq<Fragment>, isUser: bool)
    requires |r| == |parts|
  {
    forall i :: 0 <= i < |parts| && i % 2 == 1 ==>
      |parts[i]| >= 6 && r[i] == CodeBlock(Trim(parts[i][3..|parts[i]| - 3]), PreClass(isUser), CodeClass(isUser))
  }

  /**
   * A part between fenced spans renders as a code block only when it is three
   * to five backticks, and that code block is empty.
   */
  lemma RenderBetweenSpans(text: string, isUser: bool)
    ensures forall i :: 0 <= i < |SplitFences(text)| && i % 2 == 0 && RenderContent(text, isUser)[i].CodeBlock? ==>
              3 <= |SplitFences(text)[i]| < 6 && RenderContent(text, isUser)[i] == CodeBlock([], PreClass(isUser), CodeClass(isUser))
  {
    SplitEvenParts(text);
    EvenPartsRender(SplitFences(text), RenderContent(text, isUser), isUser);
  }

  /** `r` renders `parts` one by one. */
  predicate RendersEach(parts: seq<string>, r: seq<Fragment>, isUser: bool) {
    |r| == |parts| && forall i :: 0 <= i < |r| ==> r[i] == RenderPart(parts[i], isUser)
  }

  lemma OddPartsRender(parts: seq<string>, r: seq<Fragment>, isUser: bool)
    requires OddPartsFenced(parts) && RendersEach(parts, r, isUser)
    ensures FencedSpansRendered(parts, r, isUser)
  {
    forall i | 0 <= i < |parts| && i % 2 == 1
      ensures |parts[i]| >= 6 && r[i] == CodeBlock(Trim(parts[i][3..|parts[i]| - 3]), PreClass(isUser), CodeClass(isUser))
    {
      FencedSpanRenders(parts[i], isUser);
    }
  }

  lemma EvenPartsRender(parts: seq<string>, r: seq<Fragment>, isUser: bool)
    requires EvenPartsUnfenced(parts) && RendersEach(parts, r, isUser)
    ensures forall i :: 0 <= i < |parts| && i % 2 == 0 && r[i].CodeBlock? ==>
              3 <= |parts[i]| < 6 && r[i] == CodeBlock([], PreClass(isUser), CodeClass(isUser))
  {
    forall i | 0 <= i < |parts| && i % 2 == 0 && r[i].CodeBlock?
      ensures 3 <= |parts[i]| < 6 && r[i] == CodeBlock([], PreClass(isUser), CodeClass(isUser))
    {
      UnfencedPartRenders(parts[i], isUser);
    }
  }

  lemma FencedSpanRenders(part: string, isUser: bool)
    requires IsFencedSpan(part)
    ensures |part| >= 6 && RenderPart(part, isUser) == CodeBlock(Trim(part[3..|part| - 3]), PreClass(isUser), CodeClass(isUser))
  {
    FencedSpanIsCodePart(part);
  }

  lemma UnfencedPartRenders(part: string, isUser: bool)
    requires NoFencedSpan(part) && RenderPart(part, isUser).CodeBlock?
    ensures 3 <= |part| < 6 && RenderPart(part, isUser) == CodeBlock([], PreClass(isUser), CodeClass(isUser))
  {
    CodePartWithoutSpanIsShort(part);
  }

  /** A fenced span starts and ends with a fence. */
  lemma FencedSpanIsCodePart(t: string)
    requires IsFencedSpan(t)
    ensures IsCodePart(t)
  {
    assert IsAt(t, Fence, 0) && IsAt(t, Fence, |t| - 3);
  }

  /** A part that starts and ends with a fence yet holds no fenced span is three to five characters long. */
  lemma CodePartWithoutSpanIsShort(part: string)
    requires NoFencedSpan(part) && IsCodePart(part)
    ensures 3 <= |part| < 6
  {
    assert IsAt(part, Fence, 0);
    if |part| >= 6 {
      assert IsAt(part, Fence, |part| - 3);
      assert false;
    }
  }
}
