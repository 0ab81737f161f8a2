/**
 * What `renderContent` does to the inputs its markup is meant for: plain
 * text, inline code, bold and italic, stray delimiters, and a bare fence.
 */
module MarkdownExamples {
  import opened Wrappers
  import opened JsString
  import opened Markdown

  /** A character some rewrite looks for. */
  predicate IsMarker(c: char) {
    c == '`' || c == '*' || c == '_' || c == '\n'
  }

  /** Text no rewrite looks at: no backtick, `*`, `_` or newline. */
  predicate Unmarked(s: string) {
    forall i :: 0 <= i < |s| ==> !IsMarker(s[i])
  }

  /** Unmarked text that also has no line terminator, so it can sit between emphasis delimiters. */
  predicate Plain(s: string) {
    forall i :: 0 <= i < |s| ==> !IsMarker(s[i]) && !IsLineTerminator(s[i])
  }

  /** The four emphasis passes and the line breaks, as `renderContent` runs them after inline code. */
  function Emphasize(s: string): string {
    var bold := ReplaceAll(s, BoldStars, "<strong>", "</strong>");
    var bold' := ReplaceAll(bold, BoldUnderscores, "<strong>", "</strong>");
    var em := ReplaceAll(bold', ItalicStar, "<em>", "</em>");
    var em' := ReplaceAll(em, ItalicUnderscore, "<em>", "</em>");
    BreakLines(em')
  }

  lemma RenderTextIsEmphasizeAfterCode(part: string, isUser: bool)
    ensures RenderText(part, isUser) == Emphasize(ReplaceAll(part, CodePattern, InlineCodeOpen(isUser), InlineCodeClose))
  {
  }

  lemma UnmarkedHasNoMarker(s: string)
    requires Unmarked(s)
    ensures '`' !in s && '*' !in s && '_' !in s && '\n' !in s
  {
    forall c | c in s ensures !IsMarker(c) {
      var i :| 0 <= i < |s| && s[i] == c;
    }
  }

  /** Text with no `*`, `_` or newline is left alone by the emphasis passes and the line breaks. */
  lemma EmphasizeKeeps(s: string)
    requires '*' !in s && '_' !in s && '\n' !in s
    ensures Emphasize(s) == s
  {
    DelimiterCharAbsentUnchanged(s, BoldStars, "<strong>", "</strong>");
    DelimiterCharAbsentUnchanged(s, BoldUnderscores, "<strong>", "</strong>");
    DelimiterCharAbsentUnchanged(s, ItalicStar, "<em>", "</em>");
    DelimiterCharAbsentUnchanged(s, ItalicUnderscore, "<em>", "</em>");
  }

  /** Plain text renders as itself. */
  lemma PlainTextUnchanged(s: string, isUser: bool)
    requires Unmarked(s)
    ensures RenderText(s, isUser) == s
  {
    UnmarkedHasNoMarker(s);
    DelimiterCharAbsentUnchanged(s, CodePattern, InlineCodeOpen(isUser), InlineCodeClose);
    EmphasizeKeeps(s);
    RenderTextIsEmphasizeAfterCode(s, isUser);
  }

  lemma TagsUnmarked()
    ensures Unmarked("<strong>") && Unmarked("</strong>")
    ensures Unmarked("<em>") && Unmarked("</em>") && Unmarked(InlineCodeClose)
  {
  }

  lemma CodeTagUnmarked()
    ensures Unmarked("<code class=\"") && Unmarked("\">")
  {
  }

  lemma SharedClassesUnmarked()
    ensures Unmarked("px-2 py-1 rounded ") && Unmarked("text-sm font-mono ")
  {
  }

  lemma UserClassesUnmarked()
    ensures Unmarked("bg-[#a04d2a] ") && Unmarked("text-white")
  {
  }

  lemma AssistantClassesUnmarked()
    ensures Unmarked("bg-[#f4f3ee] ") && Unmarked("text-[#c15f3c] ")
    ensures Unmarked("border ") && Unmarked("border-[#b1ada1]/20")
  {
  }

  lemma UnmarkedConcat(a: string, b: string)
    requires Unmarked(a) && Unmarked(b)
    ensures Unmarked(a + b)
  {
    forall i | 0 <= i < |a + b| ensures !IsMarker((a + b)[i]) {
      if i >= |a| { assert (a + b)[i] == b[i - |a|]; }
    }
  }

  /** The opening tag of inline code contains nothing a later pass rewrites. */
  lemma InlineCodeOpenUnmarked(isUser: bool)
    ensures Unmarked(InlineCodeOpen(isUser))
  {
    CodeTagUnmarked();
    SharedClassesUnmarked();
    var shared := "px-2 py-1 rounded " + "text-sm font-mono ";
    UnmarkedConcat("px-2 py-1 rounded ", "text-sm font-mono ");
    var own: string;
    if isUser {
      UserClassesUnmarked();
      own := "bg-[#a04d2a] " + "text-white";
      UnmarkedConcat("bg-[#a04d2a] ", "text-white");
    } else {
      AssistantClassesUnmarked();
      var a := "bg-[#f4f3ee] " + "text-[#c15f3c] ";
      UnmarkedConcat("bg-[#f4f3ee] ", "text-[#c15f3c] ");
      UnmarkedConcat(a, "border ");
      UnmarkedConcat(a + "border ", "border-[#b1ada1]/20");
      own := a + "border " + "border-[#b1ada1]/20";
    }
    assert InlineCodeClass(isUser) == shared + own;
    UnmarkedConcat(shared, own);
    UnmarkedConcat("<code class=\"", shared + own);
    UnmarkedConcat("<code class=\"" + (shared + own), "\">");
  }

  /** A whole delimited body, alone, is replaced by the markup around it. */
  lemma ReplaceWhole(x: string, p: Pattern, open: string, close: string)
    requires p.delim != [] && IsBody(x, p)
    ensures ReplaceAll(p.delim + x + p.delim, p, open, close) == open + x + close
  {
    var v: string := [];
    ReplaceAtMatch(x, v, p, open, close);
    assert p.delim + x + p.delim + v == p.delim + x + p.delim;
    assert ReplaceAll(v, p, open, close) == v;
    assert open + x + close + v == open + x + close;
  }

  /** Text shorter than two delimiters cannot hold a match. */
  lemma TooShortUnchanged(s: string, p: Pattern, open: string, close: string)
    requires p.delim != [] && |s| < 2 * |p.delim| && |open| + |close| > 2 * |p.delim|
    ensures ReplaceAll(s, p, open, close) == s
  {
    forall i | 0 <= i < |s| ensures !MatchStartsAt(s, p, i) {
    }
    ReplaceUnchangedIff(s, p, open, close);
  }

  /** Plain text is a body for every pattern whose delimiter starts with a marker. */
  lemma PlainIsBody(x: string, p: Pattern)
    requires Plain(x) && p.delim != [] && IsMarker(p.delim[0])
    requires p.nonEmpty ==> x != []
    ensures IsBody(x, p)
  {
    forall j | 0 <= j < |x| ensures !IsAt(x + p.delim, p.delim, j) && !IsLineTerminator(x[j]) {
      assert (x + p.delim)[j] == x[j];
    }
  }

  /** After an italic pass, on text the bold passes keep, that leaves nothing to rewrite, the last pass keeps the result. */
  lemma EmphasizeAfterItalic(s: string, em: string)
    requires ReplaceAll(s, BoldStars, "<strong>", "</strong>") == s
    requires ReplaceAll(s, BoldUnderscores, "<strong>", "</strong>") == s
    requires ReplaceAll(s, ItalicStar, "<em>", "</em>") == em && '_' !in em
    ensures Emphasize(s) == BreakLines(em)
  {
    DelimiterCharAbsentUnchanged(em, ItalicUnderscore, "<em>", "</em>");
  }

  /** Inline code: a backtick pair around non-empty plain text becomes a `<code>` element. */
  lemma InlineCodeRendered(x: string, isUser: bool)
    requires x != [] && Plain(x)
    ensures RenderText("`" + x + "`", isUser) == InlineCodeOpen(isUser) + x + InlineCodeClose
  {
    PlainIsBody(x, CodePattern);
    var open := InlineCodeOpen(isUser);
    ReplaceWhole(x, CodePattern, open, InlineCodeClose);
    InlineCodeOpenUnmarked(isUser);
    TagsUnmarked();
    UnmarkedConcat(open, x);
    UnmarkedConcat(open + x, InlineCodeClose);
    var code := open + x + InlineCodeClose;
    UnmarkedHasNoMarker(code);
    EmphasizeKeeps(code);
    RenderTextIsEmphasizeAfterCode("`" + x + "`", isUser);
  }

  /** A lone backtick has no partner and is kept as it is. */
  lemma StrayBacktickUnchanged(u: string, v: string, isUser: bool)
    requires Unmarked(u) && Unmarked(v)
    ensures RenderText(u + "`" + v, isUser) == u + "`" + v
  {
    UnmarkedHasNoMarker(u);
    UnmarkedHasNoMarker(v);
    var s := u + "`" + v;
    forall i, j | 0 <= i < j < |s| ensures !(s[i] == '`' && s[j] == '`') {
      if i < |u| { assert s[i] == u[i]; } else { assert s[j] == v[j - |u| - 1]; }
    }
    LoneDelimiterUnchanged(s, CodePattern, InlineCodeOpen(isUser), InlineCodeClose);
    EmphasizeKeeps(s);
    RenderTextIsEmphasizeAfterCode(s, isUser);
  }

  /** After a bold pass that leaves nothing to rewrite, the other passes keep the result. */
  lemma EmphasizeAfterBold(s: string, bold: string)
    requires ReplaceAll(s, BoldStars, "<strong>", "</strong>") == bold
    requires '*' !in bold && '_' !in bold && '\n' !in bold
    ensures Emphasize(s) == bold
  {
    DelimiterCharAbsentUnchanged(bold, BoldUnderscores, "<strong>", "</strong>");
    DelimiterCharAbsentUnchanged(bold, ItalicStar, "<em>", "</em>");
    DelimiterCharAbsentUnchanged(bold, ItalicUnderscore, "<em>", "</em>");
  }

  /** Bold: a `**` pair around plain text becomes `<strong>`. */
  lemma BoldRendered(x: string, isUser: bool)
    requires Plain(x)
    ensures RenderText("**" + x + "**", isUser) == "<strong>" + x + "</strong>"
  {
    UnmarkedHasNoMarker(x);
    PlainIsBody(x, BoldStars);
    var s := "**" + x + "**";
    assert '`' !in s;
    DelimiterCharAbsentUnchanged(s, CodePattern, InlineCodeOpen(isUser), InlineCodeClose);
    ReplaceWhole(x, BoldStars, "<strong>", "</strong>");
    TagsUnmarked();
    UnmarkedConcat("<strong>", x);
    UnmarkedConcat("<strong>" + x, "</strong>");
    var bold := "<strong>" + x + "</strong>";
    UnmarkedHasNoMarker(bold);
    EmphasizeAfterBold(s, bold);
    RenderTextIsEmphasizeAfterCode(s, isUser);
  }

  lemma EmptyBoldSpelled(x: string)
    requires x == []
    ensures "**" + x + "**" == "****" && "<strong>" + x + "</strong>" == "<strong></strong>"
  {
  }

  /** Bold runs before italic, so four asterisks are an empty bold element. */
  lemma FourStarsAreEmptyBold(isUser: bool)
    ensures RenderText("****", isUser) == "<strong></strong>"
  {
    var x: string := [];
    EmptyBoldSpelled(x);
    BoldRendered(x, isUser);
  }

  /** A non-empty star-free body between two stars, in star-free text, puts no two stars side by side. */
  lemma StarPairHasNoDoubleStar(u: string, x: string, w: string)
    requires x != [] && '*' !in u && '*' !in x && '*' !in w
    ensures forall i: nat :: !IsAt(u + "*" + x + "*" + w, "**", i)
  {
    var s := u + "*" + x + "*" + w;
    forall i: nat ensures !IsAt(s, "**", i) {
      if i + 2 <= |s| {
        assert s[i..i + 2][0] == s[i] && s[i..i + 2][1] == s[i + 1];
        if i < |u| {
          assert s[i] == u[i];
        } else if i == |u| {
          assert s[i + 1] == x[0];
        } else if i <= |u| + |x| {
          assert s[i] == x[i - |u| - 1];
        } else {
          assert s[i + 1] == w[i - |u| - |x| - 1];
        }
      }
    }
  }

  /** One star between star-free texts: no second star anywhere. */
  lemma LoneStar(u: string, v: string)
    requires '*' !in u && '*' !in v
    ensures forall i, j :: 0 <= i < j < |u + "*" + v| ==> !((u + "*" + v)[i] == '*' && (u + "*" + v)[j] == '*')
  {
    var s := u + "*" + v;
    forall i, j | 0 <= i < j < |s| ensures !(s[i] == '*' && s[j] == '*') {
      if i < |u| { assert s[i] == u[i]; } else { assert s[j] == v[j - |u| - 1]; }
    }
  }

  /** Where no two stars occur at all, no two stand side by side. */
  lemma LoneStarHasNoDoubleStar(s: string)
    requires forall i, j :: 0 <= i < j < |s| ==> !(s[i] == '*' && s[j] == '*')
    ensures forall i: nat :: !IsAt(s, "**", i)
  {
    forall i: nat ensures !IsAt(s, "**", i) {
      if i + 2 <= |s| {
        assert s[i..i + 2][0] == s[i] && s[i..i + 2][1] == s[i + 1];
      }
    }
  }

  /** Italic: a `*` pair around non-empty plain text becomes `<em>`. */
  lemma ItalicRendered(x: string, isUser: bool)
    requires x != [] && Plain(x)
    ensures RenderText("*" + x + "*", isUser) == "<em>" + x + "</em>"
  {
    UnmarkedHasNoMarker(x);
    var s := "*" + x + "*";
    DelimiterCharAbsentUnchanged(s, CodePattern, InlineCodeOpen(isUser), InlineCodeClose);
    var none: string := [];
    ItalicSpelled(x, none);
    EmphasizeStarPair(none, x, none);
    RenderTextIsEmphasizeAfterCode(s, isUser);
  }

  lemma ItalicSpelled(x: string, none: string)
    requires none == []
    ensures none + "*" + x + "*" + none == "*" + x + "*"
    ensures none + "<em>" + x + "</em>" + none == "<em>" + x + "</em>"
  {
  }

  /** The emphasis passes on a star pair around plain text, in otherwise unmarked text, give one `<em>` element. */
  lemma EmphasizeStarPair(u: string, x: string, w: string)
    requires x != [] && Plain(x) && Unmarked(u) && Unmarked(w)
    ensures Emphasize(u + "*" + x + "*" + w) == u + "<em>" + x + "</em>" + w
  {
    var s := u + "*" + x + "*" + w;
    StarPairBoldKeeps(u, x, w);
    StarPairItalic(u, x, w);
    var em := u + "<em>" + x + "</em>" + w;
    TagsUnmarked();
    UnmarkedConcat(u, "<em>");
    UnmarkedConcat(u + "<em>", x);
    UnmarkedConcat(u + "<em>" + x, "</em>");
    UnmarkedConcat(u + "<em>" + x + "</em>", w);
    UnmarkedHasNoMarker(em);
    EmphasizeAfterItalic(s, em);
  }

  /** The bold passes keep a star pair around plain text in otherwise unmarked text. */
  lemma StarPairBoldKeeps(u: string, x: string, w: string)
    requires x != [] && Unmarked(x) && Unmarked(u) && Unmarked(w)
    ensures ReplaceAll(u + "*" + x + "*" + w, BoldStars, "<strong>", "</strong>") == u + "*" + x + "*" + w
    ensures ReplaceAll(u + "*" + x + "*" + w, BoldUnderscores, "<strong>", "</strong>") == u + "*" + x + "*" + w
  {
    UnmarkedHasNoMarker(u);
    UnmarkedHasNoMarker(x);
    UnmarkedHasNoMarker(w);
    var s := u + "*" + x + "*" + w;
    StarPairHasNoDoubleStar(u, x, w);
    DelimiterAbsentUnchanged(s, BoldStars, "<strong>", "</strong>");
    StarPairHasNoUnderscore(u, x, w);
    DelimiterCharAbsentUnchanged(s, BoldUnderscores, "<strong>", "</strong>");
  }

  lemma StarPairHasNoUnderscore(u: string, x: string, w: string)
    requires '_' !in u && '_' !in x && '_' !in w
    ensures '_' !in u + "*" + x + "*" + w
  {
  }

  /** The italic pass turns the star pair into an `<em>` element. */
  lemma StarPairItalic(u: string, x: string, w: string)
    requires x != [] && Plain(x) && Unmarked(u) && Unmarked(w)
    ensures ReplaceAll(u + "*" + x + "*" + w, ItalicStar, "<em>", "</em>") == u + "<em>" + x + "</em>" + w
  {
    UnmarkedHasNoMarker(u);
    UnmarkedHasNoMarker(w);
    PlainIsBody(x, ItalicStar);
    ReplaceSplice(u, x, w, ItalicStar, "<em>", "</em>");
    DelimiterCharAbsentUnchanged(w, ItalicStar, "<em>", "</em>");
  }

  lemma EmptyItalicSpelled(x: string)
    requires x == []
    ensures "*" + x + "*" == "**" && "<em>" + x + "</em>" == "<em></em>"
  {
  }

  /** Two asterisks alone are too short for bold and become an empty italic element. */
  lemma TwoStarsAreEmptyItalic(isUser: bool)
    ensures RenderText("**", isUser) == "<em></em>"
  {
    var s := "**";
    var x: string := [];
    DelimiterCharAbsentUnchanged(s, CodePattern, InlineCodeOpen(isUser), InlineCodeClose);
    TooShortUnchanged(s, BoldStars, "<strong>", "</strong>");
    DelimiterCharAbsentUnchanged(s, BoldUnderscores, "<strong>", "</strong>");
    ReplaceWhole(x, ItalicStar, "<em>", "</em>");
    EmptyItalicSpelled(x);
    var em := "<em>" + x + "</em>";
    TagsUnmarked();
    UnmarkedConcat("<em>", x);
    UnmarkedConcat("<em>" + x, "</em>");
    UnmarkedHasNoMarker(em);
    EmphasizeAfterItalic(s, em);
    RenderTextIsEmphasizeAfterCode(s, isUser);
  }

  /** An asterisk with no partner, as in `*oops`, is kept as it is. */
  lemma StrayStarUnchanged(u: string, v: string, isUser: bool)
    requires Unmarked(u) && Unmarked(v)
    ensures RenderText(u + "*" + v, isUser) == u + "*" + v
  {
    UnmarkedHasNoMarker(u);
    UnmarkedHasNoMarker(v);
    var s := u + "*" + v;
    assert '`' !in s && '_' !in s && '\n' !in s;
    DelimiterCharAbsentUnchanged(s, CodePattern, InlineCodeOpen(isUser), InlineCodeClose);
    LoneStar(u, v);
    LoneStarHasNoDoubleStar(s);
    DelimiterAbsentUnchanged(s, BoldStars, "<strong>", "</strong>");
    DelimiterCharAbsentUnchanged(s, BoldUnderscores, "<strong>", "</strong>");
    LoneDelimiterUnchanged(s, ItalicStar, "<em>", "</em>");
    DelimiterCharAbsentUnchanged(s, ItalicUnderscore, "<em>", "</em>");
    RenderTextIsEmphasizeAfterCode(s, isUser);
  }

  /** Exactly one fence is a part that starts and ends with a fence: an empty code block. */
  lemma BareFenceIsEmptyCodeBlock(isUser: bool)
    ensures RenderContent("```", isUser) == [CodeBlock([], PreClass(isUser), CodeClass(isUser))]
  {
    var s := "```";
    forall i | 0 <= i < |s| ensures !MatchStartsAt(s, FencePattern, i) {
    }
    SplitWithoutMatch(s);
    assert IsCodePart(s);
  }

  /** A code body with no backtick is a body of the inline-code pattern. */
  lemma BacktickFreeIsCodeBody(y: string)
    requires y != [] && '`' !in y
    ensures IsBody(y, CodePattern)
  {
    forall j | 0 <= j < |y| ensures !IsAt(y + "`", "`", j) {
      assert (y + "`")[j] == y[j];
    }
  }

  lemma StarredCodeSpelled(x: string)
    ensures "`*" + x + "*`" == "`" + ("*" + x + "*") + "`"
  {
  }

  /**
   * Each pass sees the markup of the passes before it: emphasis inside
   * inline code is rewritten as well.
   */
  lemma EmphasisInsideInlineCode(x: string, isUser: bool)
    requires x != [] && Plain(x)
    ensures RenderText("`*" + x + "*`", isUser) == InlineCodeOpen(isUser) + "<em>" + x + "</em>" + InlineCodeClose
  {
    UnmarkedHasNoMarker(x);
    var open := InlineCodeOpen(isUser);
    var y := "*" + x + "*";
    StarredCodeSpelled(x);
    BacktickFreeIsCodeBody(y);
    ReplaceWhole(y, CodePattern, open, InlineCodeClose);
    assert open + y + InlineCodeClose == open + "*" + x + "*" + InlineCodeClose;
    InlineCodeOpenUnmarked(isUser);
    TagsUnmarked();
    EmphasizeStarPair(open, x, InlineCodeClose);
    RenderTextIsEmphasizeAfterCode("`*" + x + "*`", isUser);
  }

  /** No match starts inside a prefix that lacks the delimiter's first character. */
  lemma NoMatchInPlainPrefix(u: string, t: string, p: Pattern)
    requires p.delim != [] && p.delim[0] !in u
    ensures NoMatchBefore(u + t, p, |u|)
  {
    var s := u + t;
    forall i | 0 <= i < |u| ensures !MatchStartsAt(s, p, i) {
      assert s[i..][0] == u[i];
    }
  }

  /** A fence, a body without backticks, and a fence match right at the start. */
  lemma FenceMatchAt(x: string, v: string)
    requires '`' !in x
    ensures MatchAt(Fence + x + Fence + v, FencePattern) == Some(3 + |x|)
  {
    forall j | 0 <= j < |x| ensures !IsAt(x + Fence, Fence, j) {
      assert (x + Fence)[j] == x[j];
    }
    assert IsBody(x, FencePattern);
    var t := Fence + x + Fence + v;
    BodyMatches(x, v, FencePattern);
    MatchAtIsMatch(t, FencePattern);
    MatchUnique(t, FencePattern, MatchAt(t, FencePattern).value, 3 + |x|);
  }

  /** Text without backticks is one single part. */
  lemma SplitPlain(v: string)
    requires '`' !in v
    ensures SplitFences(v) == [v]
  {
    NoMatchInPlainPrefix(v, [], FencePattern);
    assert v + [] == v;
    SplitWithoutMatch(v);
  }

  /** The first match in `u`, fence, `x`, fence, `v` is the fenced block right after `u`. */
  lemma LeftmostFence(u: string, x: string, v: string)
    requires '`' !in u && '`' !in x
    ensures |u| <= |u + Fence + x + Fence + v|
    ensures (u + Fence + x + Fence + v)[|u|..] == Fence + x + Fence + v
    ensures MatchAt((u + Fence + x + Fence + v)[|u|..], FencePattern) == Some(3 + |x|)
    ensures NoMatchBefore(u + Fence + x + Fence + v, FencePattern, |u|)
  {
    var t := Fence + x + Fence + v;
    assert u + Fence + x + Fence + v == u + t;
    FenceMatchAt(x, v);
    NoMatchInPlainPrefix(u, t, FencePattern);
  }

  lemma BlockSlices(u: string, x: string, v: string)
    ensures var s := u + Fence + x + Fence + v;
      |s| == |u| + |x| + 6 + |v| && s[..|u|] == u && s[|u|..|u| + |x| + 6] == Fence + x + Fence && s[|u| + |x| + 6..] == v
  {
  }

  /** Text, one fenced block, and text: the split gives exactly these three parts. */
  lemma FencedBlockBetweenText(u: string, x: string, v: string)
    requires '`' !in u && '`' !in x && '`' !in v
    ensures SplitFences(u + Fence + x + Fence + v) == [u, Fence + x + Fence, v]
  {
    var s := u + Fence + x + Fence + v;
    LeftmostFence(u, x, v);
    SplitAtLeftmost(s, |u|, 3 + |x|);
    BlockSlices(u, x, v);
    SplitPlain(v);
  }

  /** Text, one fenced block, and text render as a span, a code block holding the trimmed body, and a span. */
  lemma FencedBlockBetweenTextRendered(u: string, x: string, v: string, isUser: bool)
    requires '`' !in u && '`' !in x && '`' !in v
    ensures RenderContent(u + Fence + x + Fence + v, isUser)
         == [Span(RenderText(u, isUser)), CodeBlock(Trim(x), PreClass(isUser), CodeClass(isUser)), Span(RenderText(v, isUser))]
  {
    var text := u + Fence + x + Fence + v;
    FencedBlockBetweenText(u, x, v);
    RenderThreeParts(text, u, Fence + x + Fence, v, isUser);
    PlainPartIsSpan(u, isUser);
    PlainPartIsSpan(v, isUser);
    BlockPartIsCodeBlock(x, isUser);
  }

  lemma RenderThreeParts(text: string, a: string, b: string, c: string, isUser: bool)
    requires SplitFences(text) == [a, b, c]
    ensures RenderContent(text, isUser) == [RenderPart(a, isUser), RenderPart(b, isUser), RenderPart(c, isUser)]
  {
    var parts := SplitFences(text);
    var r := RenderContent(text, isUser);
    assert |r| == 3;
    assert r[0] == RenderPart(parts[0], isUser) && parts[0] == a;
    assert r[1] == RenderPart(parts[1], isUser) && parts[1] == b;
    assert r[2] == RenderPart(parts[2], isUser) && parts[2] == c;
    ThreeElements(r, RenderPart(a, isUser), RenderPart(b, isUser), RenderPart(c, isUser));
  }

  lemma ThreeElements(r: seq<Fragment>, f0: Fragment, f1: Fragment, f2: Fragment)
    requires |r| == 3 && r[0] == f0 && r[1] == f1 && r[2] == f2
    ensures r == [f0, f1, f2]
  {
  }

  lemma PlainPartIsSpan(u: string, isUser: bool)
    requires '`' !in u
    ensures RenderPart(u, isUser) == Span(RenderText(u, isUser))
  {
    if |u| >= 3 { assert u[0] == u[..3][0]; }
  }

  lemma BlockPartIsCodeBlock(x: string, isUser: bool)
    ensures RenderPart(Fence + x + Fence, isUser) == CodeBlock(Trim(x), PreClass(isUser), CodeClass(isUser))
  {
    var block := Fence + x + Fence;
    assert block[3..|block| - 3] == x;
    assert block[..3] == Fence && block[|block| - 3..] == Fence;
  }
}
