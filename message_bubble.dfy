/** `renderMarkdownText` as a whole (components/MessageBubble.tsx:23-110): the split, then
    one classification per part, in order; and the choice at :144-147 between showing a
    message as it is (the user's own) and rendering it (the assistant's). */
module MessageBubble {
  import opened Wrappers
  import opened JsString
  import opened MarkdownSplit
  import opened MarkdownClassify

  /** `parts.map(...)`: one classification per part, in the same order. */
  function ClassifyAll(parts: seq<string>): (r: seq<Option<Segment>>)
    ensures |r| == |parts|
    ensures forall i :: 0 <= i < |parts| ==> r[i] == Classify(parts[i])
  {
    if parts == [] then [] else [Classify(parts[0])] + ClassifyAll(parts[1..])
  }

  /** What `renderMarkdownText(text)` produces, one entry per part of the split (None for a
      part rendered as `null`). */
  function RenderMarkdown(text: string): (r: seq<Option<Segment>>)
    ensures |r| == |Split(text)|
    ensures forall i :: 0 <= i < |r| ==> (r[i].None? ==> AllWhiteSpace(Split(text)[i]))
  {
    ClassifyAll(Split(text))
  }

  /** The content of a bubble: the text as it is, or the rendered parts. */
  datatype Body = Verbatim(text: string) | Rendered(segments: seq<Option<Segment>>)

  /** User messages are shown verbatim; only the assistant's are rendered. */
  function BubbleBody(text: string, isUser: bool): (b: Body)
    ensures isUser <==> b.Verbatim?
    ensures b.Verbatim? ==> b.text == text
    ensures b.Rendered? ==> |b.segments| == |Split(text)|
    ensures b.Rendered? ==> forall i :: 0 <= i < |b.segments| ==> b.segments[i] == Classify(Split(text)[i])
  {
    if isUser then Verbatim(text) else Rendered(RenderMarkdown(text))
  }

  // ----- Matches inside a part are matches inside the text -----

  /** What holds at j in the piece holds at o + j in the text. */
  lemma HasAtInside(s: string, o: nat, g: string, j: nat, t: string)
    requires HasAt(s, o, g) && j + |t| <= |g|
    ensures HasAt(g, j, t) <==> HasAt(s, o + j, t)
  {
    assert forall i :: j <= i < j + |t| ==> g[i] == s[o + i];
  }

  /** A lazy search that succeeds inside a piece of the text succeeds at the same place in
      the whole text: a delimiter reaching past the end of the piece would have to start
      before the one found inside it. */
  lemma {:induction false} CloseFromInside(s: string, o: nat, g: string, j: nat, delim: string, crossLines: bool, e: nat)
    requires HasAt(s, o, g) && j <= |g| && delim != []
    requires CloseFrom(g, j, delim, crossLines) == Some(e)
    ensures CloseFrom(s, o + j, delim, crossLines) == Some(o + e)
    decreases |g| - j
  {
    if HasAt(g, j, delim) {
      CloseFromHit(s, o, g, j, delim, crossLines);
    } else {
      CloseFromStep(s, o, g, j, delim, crossLines);
      CloseFromInside(s, o, g, j + 1, delim, crossLines, e);
    }
  }

  lemma CloseFromHit(s: string, o: nat, g: string, j: nat, delim: string, crossLines: bool)
    requires HasAt(s, o, g) && j <= |g| && delim != [] && HasAt(g, j, delim)
    ensures CloseFrom(g, j, delim, crossLines) == Some(j + |delim|)
    ensures CloseFrom(s, o + j, delim, crossLines) == Some(o + j + |delim|)
  {
    HasAtInside(s, o, g, j, delim);
  }

  lemma CloseFromStep(s: string, o: nat, g: string, j: nat, delim: string, crossLines: bool)
    requires HasAt(s, o, g) && j <= |g| && delim != []
    requires CloseFrom(g, j, delim, crossLines).Some? && !HasAt(g, j, delim)
    ensures j < |g|
    ensures CloseFrom(g, j, delim, crossLines) == CloseFrom(g, j + 1, delim, crossLines)
    ensures CloseFrom(s, o + j, delim, crossLines) == CloseFrom(s, o + j + 1, delim, crossLines)
  {
    var e := CloseFrom(g, j, delim, crossLines).value;
    assert j + |delim| <= e <= |g|;
    HasAtInside(s, o, g, j, delim);
    assert s[o + j] == g[j];
  }

  /** The same for the three alternatives that have no anchor. */
  lemma SpanInside(a: Alternative, s: string, o: nat, g: string, i: nat)
    requires a == BoldSpan || a == InlineCodeSpan || a == FencedBlock
    requires HasAt(s, o, g) && i <= |g| && TryAt(a, g, i).Some?
    ensures TryAt(a, s, o + i) == Some(o + TryAt(a, g, i).value)
  {
    var e := TryAt(a, g, i).value;
    match a
    case BoldSpan =>
      HasAtInside(s, o, g, i, "**");
      CloseFromInside(s, o, g, i + 2, "**", false, e);
    case InlineCodeSpan =>
      HasAtInside(s, o, g, i, "`");
      CloseFromInside(s, o, g, i + 1, "`", false, e);
    case FencedBlock =>
      HasAtInside(s, o, g, i, "```");
      CloseFromInside(s, o, g, i + 3, "```", true, e);
  }

  /** A heading prefix at the start of a piece is one at the same place in the text. */
  lemma HeadingInside(s: string, o: nat, g: string)
    requires HasAt(s, o, g) && HeadingPrefix(g).Some?
    ensures TryAt(HeadingLine, s, o).Some?
  {
    var h := HeadingPrefix(g).value;
    assert HashesThenSpace(g, 0, h);
    HasAtInside(s, o, g, 0, "###"[..h]);
    assert s[o + h] == g[h];
    assert HashesThenSpace(s, o, h);
  }

  /** A run of digits followed by a non-digit is exactly what DigitRun consumes. */
  lemma {:induction false} DigitRunExact(s: string, q: nat, d: nat)
    requires q + d <= |s| && AllDigits(s, q, q + d) && (q + d == |s| || !IsDigit(s[q + d]))
    ensures DigitRun(s, q) == d
    decreases d
  {
    if d > 0 {
      DigitRunExact(s, q + 1, d - 1);
    }
  }

  /** A bullet or number prefix at the start of a piece is one in the text when the piece
      begins a line of the text. */
  lemma ListInside(s: string, o: nat, g: string)
    requires HasAt(s, o, g) && LineStart(s, o)
    ensures BulletPrefix(g) ==> TryAt(BulletLine, s, o).Some?
    ensures NumberedPrefix(g) ==> TryAt(NumberedLine, s, o).Some?
  {
    if BulletPrefix(g) {
      assert s[o] == g[0] && s[o + 1] == g[1];
    }
    if NumberedPrefix(g) {
      var d := DigitRun(g, 0);
      DigitRunAllDigits(g, 0);
      assert forall l :: o <= l < o + d ==> s[l] == g[l - o];
      HasAtInside(s, o, g, d, ".");
      HasAtHead(g, d, ".");
      DigitRunExact(s, o, d);
      assert s[o + d + 1] == g[d + 1];
    }
  }

  /** Where nothing in the text matches, nothing matches in that piece either. */
  lemma NoMatchNoAlternative(s: string, q: nat)
    requires q <= |s| && MatchAt(s, q).None?
    ensures forall a :: a in Order ==> TryAt(a, s, q).None?
  {
    FirstMatchSound(Order, s, q);
  }

  /** A search inside a piece where no match of the text starts finds nothing. */
  lemma NoSpanInGap(a: Alternative, s: string, o: nat, g: string)
    requires a == BoldSpan || a == InlineCodeSpan || a == FencedBlock
    requires HasAt(s, o, g) && NoMatchIn(Ends(s), o, o + |g|)
    ensures !Finds(a, g, 0)
  {
    FindsIff(a, g, 0);
    if Finds(a, g, 0) {
      var i :| 0 <= i <= |g| && TryAt(a, g, i).Some?;
      SpanInside(a, s, o, g, i);
      assert Ends(s)(o + i) == MatchEnd(s, o + i);
      NoMatchNoAlternative(s, o + i);
    }
  }

  // ----- What the parts render as -----

  /** Every captured part is rendered as an element, never as `null`: a capture begins with a
      marker character, so it is not blank. */
  lemma CapturesRender(text: string, k: nat)
    requires k < |Split(text)| && k % 2 == 1
    ensures RenderMarkdown(text)[k].Some?
  {
    var parts := Split(text);
    SplitScans(text);
    var o, prev := ScansPiece(Ends(text), text, 0, parts, k);
    assert Ends(text)(o) == MatchEnd(text, o);
    var m := MatchAt(text, o).value;
    FirstMatchSound(Order, text, o);
    MatchStartsMarked(m.alt, text, o);
    assert parts[k][0] == text[o];
    ClassifyNoneIffBlank(parts[k]);
  }

  /** A part of plain text between captures is never a heading, bold text or code: any of
      those inside it would have been a match of the split. */
  lemma GapUnclaimed(s: string, o: nat, g: string)
    requires HasAt(s, o, g) && NoMatchIn(Ends(s), o, o + |g|)
    ensures HeadingPrefix(g).None?
    ensures !Finds(BoldSpan, g, 0) && !Finds(InlineCodeSpan, g, 0) && !Finds(FencedBlock, g, 0)
  {
    NoSpanInGap(BoldSpan, s, o, g);
    NoSpanInGap(InlineCodeSpan, s, o, g);
    NoSpanInGap(FencedBlock, s, o, g);
    if HeadingPrefix(g).Some? {
      HeadingInside(s, o, g);
      assert Ends(s)(o) == MatchEnd(s, o);
      NoMatchNoAlternative(s, o);
    }
  }

  /** Such a part that begins a line of the text is not a list item either. */
  lemma GapAtLineStart(s: string, o: nat, g: string)
    requires HasAt(s, o, g) && NoMatchIn(Ends(s), o, o + |g|)
    requires LineStart(s, o)
    ensures !BulletPrefix(g) && !NumberedPrefix(g)
  {
    ListInside(s, o, g);
    if BulletPrefix(g) || NumberedPrefix(g) {
      assert Ends(s)(o) == MatchEnd(s, o);
      NoMatchNoAlternative(s, o);
    }
  }

  /** It renders as nothing, as plain text, or, when the classifier's `^` (tested against
      the part, not the line) lets a bullet or a number through, as a list item; that
      happens only right after a bold or inline-code capture, which ends with a star or a
      backtick. The first part begins the text, so it is never a list item. */
  lemma GapRendering(text: string, k: nat)
    requires k < |Split(text)| && k % 2 == 0
    ensures var g := Split(text)[k];
            var c := RenderMarkdown(text)[k];
            || c.None?
            || c == Some(Plain(g))
            || (&& (c.value.ListItem? || c.value.NumberedItem?)
                && k > 0 && Split(text)[k - 1] != []
                && Split(text)[k - 1][|Split(text)[k - 1]| - 1] in "*`")
  {
    GapFacts(text, k);
    assert RenderMarkdown(text)[k] == Classify(Split(text)[k]);
    UnclaimedRendering(Split(text)[k]);
  }

  /** What the split tells of a piece of plain text: it is not claimed by the first four
      tests, and passes a list test only right after a capture ending in a star or a
      backtick. */
  lemma GapFacts(text: string, k: nat)
    requires k < |Split(text)| && k % 2 == 0
    ensures var g := Split(text)[k];
            && HeadingPrefix(g).None?
            && !Finds(BoldSpan, g, 0) && !Finds(InlineCodeSpan, g, 0) && !Finds(FencedBlock, g, 0)
    ensures var g := Split(text)[k];
            (BulletPrefix(g) || NumberedPrefix(g)) ==>
              && k > 0 && Split(text)[k - 1] != []
              && Split(text)[k - 1][|Split(text)[k - 1]| - 1] in "*`"
  {
    var parts := Split(text);
    SplitScans(text);
    var o, prev := ScansPiece(Ends(text), text, 0, parts, k);
    var g := parts[k];
    GapUnclaimed(text, o, g);
    if BulletPrefix(g) || NumberedPrefix(g) {
      EndsMatcher(text);
      GapList(text, k, o, prev, g);
      LastHeld(text, prev, parts[k - 1]);
    }
  }

  /** What a part that is neither a heading nor holds a span can render as. */
  lemma UnclaimedRendering(g: string)
    requires HeadingPrefix(g).None?
    requires !Finds(BoldSpan, g, 0) && !Finds(InlineCodeSpan, g, 0) && !Finds(FencedBlock, g, 0)
    ensures || Classify(g).None?
            || Classify(g) == Some(Plain(g))
            || ((BulletPrefix(g) || NumberedPrefix(g))
                && Classify(g).Some? && (Classify(g).value.ListItem? || Classify(g).value.NumberedItem?))
  {
    ClassifyUnclaimed(g);
  }

  /** The last character of a non-empty string held at i. */
  lemma LastHeld(s: string, i: nat, p: string)
    requires HasAt(s, i, p) && p != []
    ensures p[|p| - 1] == s[i + |p| - 1]
  {
  }

  /** A piece of plain text that passes the bullet or number test does not begin a line, so
      it follows a capture, and that capture ends with a star or a backtick. */
  lemma GapList(text: string, k: nat, o: nat, prev: nat, g: string)
    requires HasAt(text, o, g) && NoMatchIn(Ends(text), o, o + |g|)
    requires k == 0 ==> o == 0
    requires k > 0 ==> prev < o && Ends(text)(prev) == Some(o)
    requires BulletPrefix(g) || NumberedPrefix(g)
    ensures k > 0 && 0 < o < |text| && text[o - 1] in "*`"
  {
    if k == 0 || LineStart(text, o) {
      GapAtLineStart(text, o, g);
    } else {
      assert g[0] in "-*" || IsDigit(g[0]) by { DigitRunAllDigits(g, 0); }
      assert text[o] == g[0];
      PreviousCaptureEnd(text, prev, o);
    }
  }

  /** A capture that ends where a non-empty piece begins mid-line, with a bullet or a digit,
      is a bold or inline-code span, so it ends with a star or a backtick. The line-based
      alternatives stop at the end of a line, before its terminator. */
  lemma PreviousCaptureEnd(text: string, prev: nat, o: nat)
    requires prev < o < |text| && Ends(text)(prev) == Some(o)
    requires !IsLineTerminator(text[o])
    ensures text[o - 1] in "*`"
  {
    assert Ends(text)(prev) == MatchEnd(text, prev);
    var m := MatchAt(text, prev).value;
    FirstMatchSound(Order, text, prev);
    assert TryAt(m.alt, text, prev) == Some(o);
    SpanLastChar(text, prev);
    LineAlternativesEnd(text, prev);
  }

  /** A bold span ends with a star, an inline-code span or a fence with a backtick. */
  lemma SpanLastChar(s: string, q: nat)
    requires q <= |s|
    ensures TryAt(BoldSpan, s, q).Some? ==> s[TryAt(BoldSpan, s, q).value - 1] == '*'
    ensures TryAt(InlineCodeSpan, s, q).Some? ==> s[TryAt(InlineCodeSpan, s, q).value - 1] == '`'
    ensures TryAt(FencedBlock, s, q).Some? ==> s[TryAt(FencedBlock, s, q).value - 1] == '`'
  {
    DelimiterLastChar(s, q + 2, "**", false);
    DelimiterLastChar(s, q + 1, "`", false);
    DelimiterLastChar(s, q + 3, "```", true);
  }

  /** The character before the position a lazy search yields is the delimiter's last. */
  lemma DelimiterLastChar(s: string, j: nat, delim: string, crossLines: bool)
    requires delim != []
    ensures j <= |s| && CloseFrom(s, j, delim, crossLines).Some? ==>
              s[CloseFrom(s, j, delim, crossLines).value - 1] == delim[|delim| - 1]
  {
    if j <= |s| && CloseFrom(s, j, delim, crossLines).Some? {
      CloseFromFound(s, j, delim, crossLines);
      HasAtIndex(s, CloseFrom(s, j, delim, crossLines).value - |delim|, delim, |delim| - 1);
    }
  }

  /** The line-based alternatives end at the end of the text or before a line terminator. */
  lemma LineAlternativesEnd(s: string, q: nat)
    requires q <= |s|
    ensures forall a :: a in {HeadingLine, NumberedLine, BulletLine} && TryAt(a, s, q).Some? ==>
              TryAt(a, s, q).value == |s| || IsLineTerminator(s[TryAt(a, s, q).value])
  {
  }

  /** A text with no marker character is one plain part (or nothing, if it is blank). */
  lemma UnmarkedIsPlain(text: string)
    requires forall i :: 0 <= i < |text| ==> text[i] !in "*`#-" && !IsDigit(text[i])
    ensures Split(text) == [text]
    ensures RenderMarkdown(text) == [if AllWhiteSpace(text) then None else Some(Plain(text))]
  {
    forall q | 0 <= q < |text| + 1 ensures Ends(text)(q).None? {
      assert Ends(text)(q) == MatchEnd(text, q);
      if q <= |text| && MatchAt(text, q).Some? {
        FirstMatchSound(Order, text, q);
        MatchStartsMarked(MatchAt(text, q).value.alt, text, q);
      }
    }
    assert text[0..|text|] == text;
    assert Scans(Ends(text), text, 0, [text]);
    SplitCharacterized(text, [text]);
    PlainWhenUnmarked(text);
  }

  /** Three backticks are an inline-code span of two backticks, then a lone backtick: the
      fence alternative is never reached. */
  lemma ThreeBackticks()
    ensures Split("```") == ["", "``", "`"]
    ensures RenderMarkdown("```") == [None, Some(InlineCode("")), Some(Plain("`"))]
  {
    SplitThreeBackticks();
    ClassifyNoneIffBlank("");
    ClassifyTwoBackticks();
    ClassifyOneBacktick();
  }

  /** A fence on the same line as the list marker takes the word after it as its tag:
      `- ```code```` shows a code block holding only `- `. */
  lemma FenceInListLine(tag: string)
    requires forall i :: 0 <= i < |tag| ==> IsWordChar(tag[i])
    ensures Classify("- " + "```" + tag + "```") == Some(CodeBlock("- "))
  {
    var s := "- " + "```" + tag + "```";
    var n := 5 + |tag|;
    assert s[0] == '-';
    HashesStartWithHash(s, 0, 1);
    HashesStartWithHash(s, 0, 2);
    HashesStartWithHash(s, 0, 3);
    forall i | 0 <= i < |s| ensures s[i] != '*' {
      if 5 <= i < n { assert s[i] == tag[i - 5]; }
    }
    NoDoubleStarNoBold(s);
    assert HasAt(s, 2, "```") by { assert s[2..5] == "```"; HasAtIff(s, 2, "```"); }
    assert HasAt(s, n, "```") by { assert s[n..n + 3] == "```"; HasAtIff(s, n, "```"); }
    CloseFromReaches(s, 5, "```", n);
    assert Finds(FencedBlock, s, 2);
    assert Finds(FencedBlock, s, 1);
    StripInlineFence("- ", tag);
  }

  lemma FenceInBullet()
    ensures Classify("- ```code```") == Some(CodeBlock("- "))
  {
    var tag := "code";
    assert IsWordChar(tag[0]) && IsWordChar(tag[1]) && IsWordChar(tag[2]) && IsWordChar(tag[3]);
    FenceInListLine(tag);
    assert "- " + "```" + tag + "```" == "- ```code```";
  }

  /** A bullet marker whose white space is a newline carries the next line into the capture,
      fence and all. There the fence is not on the marker's line: the newline before it goes
      with the fence, and the word after it stays as text. */
  lemma NewlineFenceInListLine(tag: string)
    requires forall i :: 0 <= i < |tag| ==> IsWordChar(tag[i])
    ensures Classify("-" + "\n```" + tag + "```") == Some(CodeBlock("-" + tag))
  {
    var s := "-" + "\n```" + tag + "```";
    var n := 5 + |tag|;
    assert s[0] == '-';
    HashesStartWithHash(s, 0, 1);
    HashesStartWithHash(s, 0, 2);
    HashesStartWithHash(s, 0, 3);
    forall i | 0 <= i < |s| ensures s[i] != '*' {
      if 5 <= i < n { assert s[i] == tag[i - 5]; }
    }
    NoDoubleStarNoBold(s);
    assert HasAt(s, 2, "```") by { assert s[2..5] == "```"; HasAtIff(s, 2, "```"); }
    assert HasAt(s, n, "```") by { assert s[n..n + 3] == "```"; HasAtIff(s, n, "```"); }
    CloseFromReaches(s, 5, "```", n);
    assert Finds(FencedBlock, s, 2);
    assert Finds(FencedBlock, s, 1);
    StripNextLineFence('-', tag);
  }

  /** The bullet alternative takes all of `-` newline `` ```code``` `` as one capture... */
  lemma NewlineFenceIsOneBullet()
    ensures MatchAt("-\n```code```", 0) == Some(Match(BulletLine, 12))
  {
    var s := "-\n```code```";
    assert s[0] == '-' && s[1] == '\n';
    HasAtHead(s, 0, "**");
    HasAtHead(s, 0, "`");
    HasAtHead(s, 0, "```");
    HashesStartWithHash(s, 0, 1);
    HashesStartWithHash(s, 0, 2);
    HashesStartWithHash(s, 0, 3);
    assert DigitRun(s, 0) == 0;
    assert LineStart(s, 0);
    NextLineEndIsFirst(s, 2);
    forall i | 2 <= i < |s| ensures !IsLineTerminator(s[i]) {}
  }

  /** ...which shows as a code block holding `-code`. */
  lemma NewlineFenceInBullet()
    ensures Classify("-\n```code```") == Some(CodeBlock("-code"))
  {
    var tag := "code";
    assert IsWordChar(tag[0]) && IsWordChar(tag[1]) && IsWordChar(tag[2]) && IsWordChar(tag[3]);
    NewlineFenceInListLine(tag);
    assert "-" + "\n```" + tag + "```" == "-\n```code```";
    assert "-" + tag == "-code";
  }

  lemma SplitThreeBackticks()
    ensures Split("```") == ["", "``", "`"]
  {
    var s := "```";
    BackticksMatchAtStart();
    BackticksNoMatchAtTwo();
    EndsMatcher(s);
    assert Ends(s)(0) == Some(2) && Ends(s)(2).None?;
    assert SplitFrom(Ends(s), s, 2, 2) == SplitFrom(Ends(s), s, 2, 3) == [s[2..]];
    assert Split(s) == [s[0..0], s[0..2]] + SplitFrom(Ends(s), s, 2, 2);
    assert s[0..0] == "" && s[0..2] == "``" && s[2..] == "`";
  }

  lemma BackticksMatchAtStart()
    ensures MatchAt("```", 0) == Some(Match(InlineCodeSpan, 2))
  {
    var s := "```";
    HasAtHead(s, 0, "**");
    HasAtIff(s, 0, "`");
    HasAtIff(s, 1, "`");
    assert s[0..1] == "`" && s[1..2] == "`";
  }

  lemma BackticksNoMatchAtTwo()
    ensures MatchAt("```", 2).None?
  {
    var s := "```";
    HasAtHead(s, 2, "**");
    HasAtIff(s, 2, "`");
    assert s[2..3] == "`";
    assert CloseFrom(s, 3, "`", false).None?;
    HashesStartWithHash(s, 2, 1);
    HashesStartWithHash(s, 2, 2);
    HashesStartWithHash(s, 2, 3);
    assert !LineStart(s, 2);
  }

  lemma ClassifyTwoBackticks()
    ensures Classify("``") == Some(InlineCode(""))
  {
    var t := "``";
    HashesStartWithHash(t, 0, 1);
    HashesStartWithHash(t, 0, 2);
    HashesStartWithHash(t, 0, 3);
    NoDoubleStarNoBold(t);
    assert !HasAt(t, 0, "```") && !HasAt(t, 1, "```") && !HasAt(t, 2, "```");
    assert !Finds(FencedBlock, t, 0);
    HasAtIff(t, 0, "`");
    HasAtIff(t, 1, "`");
    assert t[0..1] == "`" && t[1..2] == "`";
    assert TryAt(InlineCodeSpan, t, 0).Some?;
    assert RemoveChar(t, '`') == RemoveChar(t[1..], '`');
  }

  lemma ClassifyOneBacktick()
    ensures Classify("`") == Some(Plain("`"))
  {
    var t := "`";
    HashesStartWithHash(t, 0, 1);
    HashesStartWithHash(t, 0, 2);
    HashesStartWithHash(t, 0, 3);
    NoDoubleStarNoBold(t);
    assert !HasAt(t, 0, "```") && !HasAt(t, 1, "```");
    assert !Finds(FencedBlock, t, 0);
    HasAtIff(t, 0, "`");
    assert t[0..1] == "`";
    assert CloseFrom(t, 1, "`", false).None?;
    assert !Finds(InlineCodeSpan, t, 0);
    ClassifyNoneIffBlank(t);
  }

  /** Without a star there is no bold span. */
  lemma NoDoubleStarNoBold(t: string)
    requires forall i :: 0 <= i < |t| ==> t[i] != '*'
    ensures !Finds(BoldSpan, t, 0)
  {
    FindsIff(BoldSpan, t, 0);
    forall k | 0 <= k <= |t| ensures TryAt(BoldSpan, t, k).None? {
      HasAtHead(t, k, "**");
    }
  }
}
