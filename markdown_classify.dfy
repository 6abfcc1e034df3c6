/** The second half of `renderMarkdownText` (components/MessageBubble.tsx:29-108): each part
    of the split is tested against a chain of regular expressions, the first test that passes
    decides what the part becomes, and the delimiters are then stripped with `replace`.
    A part that is empty or only white space becomes nothing (the `null` element). */
module MarkdownClassify {
  import opened Wrappers
  import opened JsString
  import opened MarkdownSplit

  /** What a part renders as. A heading keeps its level (which picks its style). */
  datatype Segment =
    | Heading(level: nat, text: string)
    | Bold(text: string)
    | CodeBlock(text: string)
    | InlineCode(text: string)
    | ListItem(text: string)
    | NumberedItem(text: string)
    | Plain(text: string)

  /** `/^#{1,3}\s/` on a part: the number of hashes the match consumes before its white-space
      character. The greedy `#{1,3}` tries three hashes, then two, then one. */
  function HeadingPrefix(part: string): (h: Option<nat>)
    ensures h.Some? ==> 1 <= h.value <= 3 && h.value < |part|
  {
    if HashesThenSpace(part, 0, 3) then Some(3)
    else if HashesThenSpace(part, 0, 2) then Some(2)
    else if HashesThenSpace(part, 0, 1) then Some(1)
    else None
  }

  /** The number of `#` characters a part begins with. */
  function LeadingHashes(s: string): (n: nat)
    ensures n <= |s| && (n == |s| || s[n] != '#')
  {
    if |s| > 0 && s[0] == '#' then 1 + LeadingHashes(s[1..]) else 0
  }

  lemma {:induction false} LeadingHashesAreHashes(s: string)
    ensures forall i :: 0 <= i < LeadingHashes(s) ==> s[i] == '#'
  {
    if |s| > 0 && s[0] == '#' {
      LeadingHashesAreHashes(s[1..]);
      assert forall i :: 0 < i < LeadingHashes(s) ==> s[i] == s[1..][i - 1];
    }
  }

  /** `part.match(/^#{1,3}/)?.[0].length || 1`: the level computed by a second, separate
      match, falling back to 1 when the part has no leading hash. */
  function LevelOf(part: string): (level: nat)
    ensures 1 <= level <= 3
    ensures 1 <= LeadingHashes(part) <= 3 ==> level == LeadingHashes(part)
  {
    var n := if LeadingHashes(part) < 3 then LeadingHashes(part) else 3;
    if n == 0 then 1 else n
  }

  /** The style of a heading of the given level. */
  function HeaderClass(level: nat): (c: string)
    ensures c == "text-xl font-bold" <==> level == 1
    ensures c == "text-lg font-semibold" <==> level == 2
    ensures c == "text-base font-medium" <==> level != 1 && level != 2
  {
    if level == 1 then "text-xl font-bold"
    else if level == 2 then "text-lg font-semibold"
    else "text-base font-medium"
  }

  /** An unanchored search (`part.match(re)` without flags): whether the alternative matches
      at some position at or after i. */
  predicate Finds(a: Alternative, s: string, i: nat)
    requires i <= |s|
    decreases |s| - i
  {
    TryAt(a, s, i).Some? || (i < |s| && Finds(a, s, i + 1))
  }

  /** The `replace` of every double star with nothing: each `**` found scanning left to right is deleted. */
  function RemoveDoubleStar(s: string): (r: string)
    ensures |r| <= |s|
  {
    if |s| >= 2 && s[0] == '*' && s[1] == '*' then RemoveDoubleStar(s[2..])
    else if s == [] then []
    else [s[0]] + RemoveDoubleStar(s[1..])
  }

  /** No two stars next to each other. */
  predicate NoDoubleStar(s: string) {
    forall i :: 0 <= i < |s| - 1 ==> !(s[i] == '*' && s[i + 1] == '*')
  }

  /** `part.replace(/```\w*\n?|\n?```/g, '')`: scanning left to right, an opening fence with
      its word-character tag and one optional newline is deleted, and so is a fence with one
      optional newline before it. At a newline only the second alternative can match. */
  function StripFences(s: string): (r: string)
    ensures |r| <= |s|
    decreases |s|
  {
    if HasAt(s, 0, "```") then
      var e := 3 + WordRun(s, 3);
      var e' := if e < |s| && s[e] == '\n' then e + 1 else e;
      StripFences(s[e'..])
    else if HasAt(s, 0, "\n```") then StripFences(s[4..])
    else if s == [] then []
    else [s[0]] + StripFences(s[1..])
  }

  /** `/^[-*]\s/` on a part: the bullet-line alternative of the split, tried at the part's
      start. */
  predicate BulletPrefix(part: string)
    ensures BulletPrefix(part) <==> TryAt(BulletLine, part, 0).Some?
  {
    |part| >= 2 && (part[0] == '-' || part[0] == '*') && IsWhiteSpace(part[1])
  }

  /** `/^\d+\.\s/` on a part: the numbered-line alternative of the split, tried at the
      part's start. */
  predicate NumberedPrefix(part: string)
    ensures NumberedPrefix(part) <==> TryAt(NumberedLine, part, 0).Some?
  {
    var d := DigitRun(part, 0);
    d > 0 && HasAt(part, d, ".") && d + 1 < |part| && IsWhiteSpace(part[d + 1])
  }

  /** The classifier: heading, bold, code block, inline code, bullet, numbered, plain text,
      in that order, the first that applies deciding. */
  function Classify(part: string): (seg: Option<Segment>)
    ensures seg.None? ==> Trim(part) == []
  {
    match HeadingPrefix(part)
    case Some(h) => Some(Heading(LevelOf(part), part[h + 1..]))
    case None =>
      if Finds(BoldSpan, part, 0) then Some(Bold(RemoveDoubleStar(part)))
      else if Finds(FencedBlock, part, 0) then Some(CodeBlock(StripFences(part)))
      else if Finds(InlineCodeSpan, part, 0) then Some(InlineCode(RemoveChar(part, '`')))
      else if BulletPrefix(part) then Some(ListItem(part[2..]))
      else if NumberedPrefix(part) then Some(NumberedItem(part))
      else if Trim(part) != [] then Some(Plain(part))
      else None
  }

  // ----- The search -----

  /** Finds is the unanchored search: some position at or after i where the alternative
      matches. */
  lemma {:induction false} FindsIff(a: Alternative, s: string, i: nat)
    requires i <= |s|
    ensures Finds(a, s, i) <==> exists k :: i <= k <= |s| && TryAt(a, s, k).Some?
    decreases |s| - i
  {
    if i < |s| {
      FindsIff(a, s, i + 1);
      if Finds(a, s, i + 1) {
        var k :| i + 1 <= k <= |s| && TryAt(a, s, k).Some?;
        assert i <= k <= |s| && TryAt(a, s, k).Some?;
      }
      if exists k :: i <= k <= |s| && TryAt(a, s, k).Some? {
        var k :| i <= k <= |s| && TryAt(a, s, k).Some?;
        if k != i {
          assert i + 1 <= k <= |s| && TryAt(a, s, k).Some?;
        }
      }
    }
  }

  /** Every alternative's match begins with a marker character: `*`, a backtick, `#`, a digit
      or `-`; none of them is white space. */
  lemma MatchStartsMarked(a: Alternative, s: string, k: nat)
    requires k <= |s| && TryAt(a, s, k).Some?
    ensures k < |s| && (s[k] in "*`#-" || IsDigit(s[k])) && !IsWhiteSpace(s[k])
  {
    match a
    case BoldSpan => assert s[k..k + 2] == "**";  assert s[k] == '*';
    case InlineCodeSpan => assert s[k..k + 1] == "`"; assert s[k] == '`';
    case FencedBlock => assert s[k..k + 3] == "```"; assert s[k] == '`';
    case HeadingLine =>
      HashesStartWithHash(s, k, 3);
      HashesStartWithHash(s, k, 2);
      HashesStartWithHash(s, k, 1);
    case NumberedLine =>
    case BulletLine =>
  }

  /** HashesThenSpace needs a `#` where it starts. */
  lemma HashesStartWithHash(s: string, q: nat, h: nat)
    requires 1 <= h <= 3
    ensures HashesThenSpace(s, q, h) ==> s[q] == '#'
  {
    if HashesThenSpace(s, q, h) {
      HasAtHead(s, q, "###"[..h]);
    }
  }

  /** A search finds nothing in a blank string. */
  lemma NoFindsInBlank(a: Alternative, s: string)
    requires AllWhiteSpace(s)
    ensures !Finds(a, s, 0)
  {
    FindsIff(a, s, 0);
    if Finds(a, s, 0) {
      var k :| 0 <= k <= |s| && TryAt(a, s, k).Some?;
      MatchStartsMarked(a, s, k);
    }
  }

  /** A search finds nothing in a string without marker characters. */
  lemma NoFindsUnmarked(a: Alternative, s: string)
    requires forall i :: 0 <= i < |s| ==> s[i] !in "*`#-" && !IsDigit(s[i])
    ensures !Finds(a, s, 0)
  {
    FindsIff(a, s, 0);
    if Finds(a, s, 0) {
      var k :| 0 <= k <= |s| && TryAt(a, s, k).Some?;
      MatchStartsMarked(a, s, k);
    }
  }

  // ----- Headings -----

  /** A part that begins with exactly h hashes has h leading hashes. */
  lemma {:induction false} LeadingHashesOf(s: string, h: nat)
    requires h <= |s| && (forall i :: 0 <= i < h ==> s[i] == '#') && (h == |s| || s[h] != '#')
    ensures LeadingHashes(s) == h
    decreases h
  {
    if h > 0 {
      assert forall i :: 0 <= i < h - 1 ==> s[1..][i] == s[i + 1];
      LeadingHashesOf(s[1..], h - 1);
    }
  }

  /** The heading test passes exactly when the part begins with one to three hashes and a
      white-space character, and the hashes it consumes are all the leading hashes. */
  lemma HeadingPrefixIff(part: string)
    ensures HeadingPrefix(part).Some? <==>
            (1 <= LeadingHashes(part) <= 3 && LeadingHashes(part) < |part|
             && IsWhiteSpace(part[LeadingHashes(part)]))
    ensures HeadingPrefix(part).Some? ==> HeadingPrefix(part).value == LeadingHashes(part)
  {
    LeadingHashesSpace(part);
    HashesThenSpaceLeading(part, 1);
    HashesThenSpaceLeading(part, 2);
    HashesThenSpaceLeading(part, 3);
  }

  /** One to three leading hashes followed by white space pass the test for that count... */
  lemma LeadingHashesSpace(part: string)
    ensures var n := LeadingHashes(part);
            1 <= n <= 3 && n < |part| && IsWhiteSpace(part[n]) ==> HashesThenSpace(part, 0, n)
  {
    var n := LeadingHashes(part);
    LeadingHashesAreHashes(part);
    if 1 <= n <= 3 && n < |part| {
      assert forall i :: 0 <= i < n ==> "###"[..n][i] == '#';
    }
  }

  /** ...and passing the test for h hashes means there are exactly h leading hashes. */
  lemma HashesThenSpaceLeading(part: string, h: nat)
    ensures 1 <= h <= 3 && HashesThenSpace(part, 0, h) ==> LeadingHashes(part) == h
  {
    if 1 <= h <= 3 && HashesThenSpace(part, 0, h) {
      forall i | 0 <= i < h ensures part[i] == '#' {
        HasAtIndex(part, 0, "###"[..h], i);
      }
      assert !IsWhiteSpace('#');
      LeadingHashesOf(part, h);
    }
  }

  /** A part is a heading exactly when it begins with one to three `#` followed by a
      white-space character. Its level is then the number of leading `#` (so 1..3), and its
      text is the rest of the part after that prefix and one white-space character. */
  lemma HeadingIff(part: string)
    ensures (Classify(part).Some? && Classify(part).value.Heading?)
            <==> (1 <= LeadingHashes(part) <= 3 && LeadingHashes(part) < |part|
                  && IsWhiteSpace(part[LeadingHashes(part)]))
    ensures Classify(part).Some? && Classify(part).value.Heading? ==>
            var n := LeadingHashes(part);
            Classify(part).value == Heading(n, part[n + 1..])
  {
    HeadingPrefixIff(part);
    ClassifyHeadingBranch(part);
  }

  /** Only the first test of the classifier produces a heading. */
  lemma ClassifyHeadingBranch(part: string)
    ensures (Classify(part).Some? && Classify(part).value.Heading?) <==> HeadingPrefix(part).Some?
    ensures HeadingPrefix(part).Some? ==>
            Classify(part) == Some(Heading(LevelOf(part), part[HeadingPrefix(part).value + 1..]))
  {
  }

  /** Four or more leading hashes never make a heading ("####x", "#### x"). */
  lemma NoHeadingBeyondThree(part: string)
    requires LeadingHashes(part) >= 4
    ensures !(Classify(part).Some? && Classify(part).value.Heading?)
  {
    HeadingIff(part);
  }

  /** The heading style follows the number of leading hashes: one gives the largest, two the
      middle, three the smallest. */
  lemma HeadingStyle(part: string)
    requires Classify(part).Some? && Classify(part).value.Heading?
    ensures var c := HeaderClass(Classify(part).value.level);
            && (c == "text-xl font-bold" <==> IsWhiteSpace(part[1]))
            && (c == "text-lg font-semibold" <==> part[1] == '#' && IsWhiteSpace(part[2]))
            && (c == "text-base font-medium" <==> part[1] == '#' && part[2] == '#')
  {
    HeadingIff(part);
    LeadingHashesAreHashes(part);
    var n := LeadingHashes(part);
    assert part[0] == '#';
    if n == 1 {
      assert !IsWhiteSpace('#');
    } else if n == 2 {
      assert part[1] == '#';
    } else {
      assert part[1] == '#' && part[2] == '#';
    }
  }

  // ----- Delimiter stripping -----

  /** RemoveDoubleStar leaves a part that does not begin with a star as it begins. */
  lemma RemoveDoubleStarHead(s: string)
    requires s != [] && s[0] != '*'
    ensures RemoveDoubleStar(s) != [] && RemoveDoubleStar(s)[0] == s[0]
  {
  }

  /** No `**` is left after the removal: a star is kept only when no star follows it. */
  lemma {:induction false} RemoveDoubleStarLeavesNone(s: string)
    ensures NoDoubleStar(RemoveDoubleStar(s))
    decreases |s|
  {
    var r := RemoveDoubleStar(s);
    if |s| >= 2 && s[0] == '*' && s[1] == '*' {
      RemoveDoubleStarLeavesNone(s[2..]);
    } else if s != [] {
      var t := RemoveDoubleStar(s[1..]);
      RemoveDoubleStarLeavesNone(s[1..]);
      assert r == [s[0]] + t;
      if |r| >= 2 && s[0] == '*' {
        RemoveDoubleStarHead(s[1..]);
        assert r[1] == s[1];
      }
      assert forall i :: 0 < i < |r| ==> r[i] == t[i - 1];
    }
  }

  /** A part without `**` is left alone. */
  lemma {:induction false} RemoveDoubleStarIdentity(s: string)
    requires NoDoubleStar(s)
    ensures RemoveDoubleStar(s) == s
    decreases |s|
  {
    if s != [] {
      assert forall i :: 0 <= i < |s[1..]| ==> s[1..][i] == s[i + 1];
      RemoveDoubleStarIdentity(s[1..]);
    }
  }

  /** So removing `**` a second time changes nothing. */
  lemma RemoveDoubleStarIdempotent(s: string)
    ensures RemoveDoubleStar(RemoveDoubleStar(s)) == RemoveDoubleStar(s)
  {
    RemoveDoubleStarLeavesNone(s);
    RemoveDoubleStarIdentity(RemoveDoubleStar(s));
  }

  /** n stars in a row. */
  function Stars(n: nat): (r: string)
    ensures |r| == n
  {
    if n == 0 then [] else ['*'] + Stars(n - 1)
  }

  /** A run of n stars keeps n % 2 of them: the pairs found from the left go. */
  lemma {:induction false} RemoveDoubleStarRun(n: nat)
    ensures RemoveDoubleStar(Stars(n)) == Stars(n % 2)
    decreases n
  {
    if n >= 2 {
      var t := Stars(n);
      assert t == ['*'] + (['*'] + Stars(n - 2));
      assert t[2..] == Stars(n - 2);
      RemoveDoubleStarPair(t);
      RemoveDoubleStarRun(n - 2);
    } else if n == 1 {
      assert Stars(1) == ['*'];
      RemoveDoubleStarSingle(Stars(1));
    }
  }

  /** A character other than a star is kept, and the removal works on each side of it
      separately. With RemoveDoubleStarRun this says what becomes of every character. */
  lemma {:induction false} RemoveDoubleStarAround(a: string, x: char, b: string)
    requires x != '*'
    ensures RemoveDoubleStar(a + [x] + b) == RemoveDoubleStar(a) + [x] + RemoveDoubleStar(b)
    decreases |a|
  {
    var s := a + [x] + b;
    if a == [] {
      assert s == [x] + b && s[1..] == b;
    } else if |a| >= 2 && a[0] == '*' && a[1] == '*' {
      assert s[2..] == a[2..] + [x] + b;
      RemoveDoubleStarAround(a[2..], x, b);
      RemoveDoubleStarPair(s);
      RemoveDoubleStarPair(a);
    } else {
      assert s[1..] == a[1..] + [x] + b;
      RemoveDoubleStarAround(a[1..], x, b);
      RemoveDoubleStarSingle(s);
      RemoveDoubleStarSingle(a);
      assert RemoveDoubleStar(s) == [a[0]] + (RemoveDoubleStar(a[1..]) + [x] + RemoveDoubleStar(b));
    }
  }

  /** One step of the removal: a leading `**` goes... */
  lemma RemoveDoubleStarPair(s: string)
    requires |s| >= 2 && s[0] == '*' && s[1] == '*'
    ensures RemoveDoubleStar(s) == RemoveDoubleStar(s[2..])
  {
  }

  /** ...and any other leading character stays. */
  lemma RemoveDoubleStarSingle(s: string)
    requires s != [] && !(|s| >= 2 && s[0] == '*' && s[1] == '*')
    ensures RemoveDoubleStar(s) == [s[0]] + RemoveDoubleStar(s[1..])
  {
  }

  /** Apart from stars, nothing is removed and nothing moves. */
  lemma {:induction false} RemoveDoubleStarKeepsOthers(s: string)
    ensures RemoveChar(RemoveDoubleStar(s), '*') == RemoveChar(s, '*')
    decreases |s|
  {
    if |s| >= 2 && s[0] == '*' && s[1] == '*' {
      RemoveDoubleStarKeepsOthers(s[2..]);
      assert s[1..][1..] == s[2..];
    } else if s != [] {
      RemoveDoubleStarKeepsOthers(s[1..]);
      RemoveCharAppend([s[0]], RemoveDoubleStar(s[1..]), '*');
      assert ([s[0]] + RemoveDoubleStar(s[1..]))[1..] == RemoveDoubleStar(s[1..]);
      assert [s[0]][1..] == [];
    }
  }

  /** A body with no fence in it: backticks are allowed, three in a row are not. */
  predicate FenceFree(body: string) {
    forall i: nat :: i <= |body| ==> !HasAt(body, i, "```")
  }

  /** A closing fence on its own line after a fence-free body: only the newline and the
      fence are removed. */
  lemma {:induction false} StripClosingFence(body: string)
    requires FenceFree(body)
    ensures StripFences(body + "\n```") == body
    decreases |body|
  {
    var t := body + "\n```";
    if body == [] {
      assert t == "\n```";
      HasAtHead(t, 0, "```");
      HasAtIff(t, 0, "\n```");
      assert t[4..] == [];
    } else {
      FenceFreeHead(body);
      FenceFreeTail(body);
      assert t[1..] == body[1..] + "\n```";
      StripClosingFence(body[1..]);
    }
  }

  /** Where a fence-free body meets the closing line, neither alternative starts at its
      first character. */
  lemma FenceFreeHead(body: string)
    requires FenceFree(body) && body != []
    ensures var t := body + "\n```"; !HasAt(t, 0, "```") && !HasAt(t, 0, "\n```")
  {
    var t := body + "\n```";
    var n := |body|;
    assert t[n] == '\n';
    if n >= 3 {
      HasAtPrefix(body, "\n```", 0, "```");
    } else {
      HasAtIndex(t, 0, "```", n);
    }
    if n >= 4 {
      HasAtPrefix(body, "\n```", 1, "```");
      HasAtIndex(t, 0, "\n```", 1);
      HasAtIndex(t, 0, "\n```", 2);
      HasAtIndex(t, 0, "\n```", 3);
    } else {
      HasAtIndex(t, 0, "\n```", n);
    }
  }

  /** The rest of a fence-free body is fence-free. */
  lemma FenceFreeTail(body: string)
    requires FenceFree(body) && body != []
    ensures FenceFree(body[1..])
  {
    forall i: nat | i <= |body| - 1 ensures !HasAt(body[1..], i, "```") {
      HasAtDrop(body, i, "```");
    }
  }

  /** A fenced block with a language tag, its body on the following lines, loses its fences,
      its tag and the newlines next to the fences: what is left is the body. Such a part
      never comes out of the split, whose captures end at a line end and whose plain pieces
      hold no two backticks in a row; the classifier handles it all the same. */
  lemma StripFencedBlock(tag: string, body: string)
    requires forall i :: 0 <= i < |tag| ==> IsWordChar(tag[i])
    requires FenceFree(body)
    ensures StripFences("```" + tag + "\n" + body + "\n```") == body
  {
    assert "```" + tag + "\n" + body + "\n```" == "```" + tag + "\n" + (body + "\n```");
    StripOpeningFence(tag, body + "\n```");
    StripClosingFence(body);
  }

  /** An opening fence, its tag and the newline after it are removed together. */
  lemma StripOpeningFence(tag: string, rest: string)
    requires forall i :: 0 <= i < |tag| ==> IsWordChar(tag[i])
    ensures StripFences("```" + tag + "\n" + rest) == StripFences(rest)
  {
    var s := "```" + tag + "\n" + rest;
    var e := 3 + |tag|;
    assert HasAt(s, 0, "```") by { assert s[0..3] == "```"; HasAtIff(s, 0, "```"); }
    assert s[3..e] == tag;
    assert s[e] == '\n';
    WordRunOfWord(s, 3, tag);
    assert s[e + 1..] == rest;
  }

  /** An opening fence on the same line as what follows it: the fence and the word
      characters after it (taken as the tag) are removed, and nothing else. */
  lemma StripBareOpeningFence(tag: string, rest: string)
    requires forall i :: 0 <= i < |tag| ==> IsWordChar(tag[i])
    requires rest == [] || (!IsWordChar(rest[0]) && rest[0] != '\n')
    ensures StripFences("```" + tag + rest) == StripFences(rest)
  {
    var s := "```" + tag + rest;
    var e := 3 + |tag|;
    assert HasAt(s, 0, "```") by { assert s[0..3] == "```"; HasAtIff(s, 0, "```"); }
    assert s[3..e] == tag;
    assert e < |s| ==> s[e] == rest[0];
    WordRunOfWord(s, 3, tag);
    assert s[e..] == rest;
  }

  /** A closing fence on the same line as the body before it: only the fence is removed. The
      body must not end in a newline, which the second alternative would take along, nor in a
      backtick. */
  lemma {:induction false} StripBareClosingFence(body: string)
    requires FenceFree(body)
    requires body == [] || (body[|body| - 1] != '\n' && body[|body| - 1] != '`')
    ensures StripFences(body + "```") == body
    decreases |body|
  {
    var t := body + "```";
    if body == [] {
      assert t == "```";
      assert HasAt(t, 0, "```");
      assert WordRun(t, 3) == 0;
      assert t[3..] == [];
    } else {
      BareFenceFreeHead(body);
      FenceFreeTail(body);
      assert t[1..] == body[1..] + "```";
      assert |body| >= 2 ==> body[1..][|body[1..]| - 1] == body[|body| - 1];
      StripBareClosingFence(body[1..]);
    }
  }

  /** Where a fence-free body meets a fence on its own line end, neither alternative starts at
      the body's first character. */
  lemma BareFenceFreeHead(body: string)
    requires FenceFree(body) && body != []
    requires body[|body| - 1] != '\n' && body[|body| - 1] != '`'
    ensures var t := body + "```"; !HasAt(t, 0, "```") && !HasAt(t, 0, "\n```")
  {
    var t := body + "```";
    var n := |body|;
    assert t[n - 1] == body[n - 1];
    if n >= 3 {
      HasAtPrefix(body, "```", 0, "```");
    } else {
      HasAtIndex(t, 0, "```", n - 1);
    }
    if n >= 4 {
      HasAtPrefix(body, "```", 1, "```");
      HasAtIndex(t, 0, "\n```", 1);
      HasAtIndex(t, 0, "\n```", 2);
      HasAtIndex(t, 0, "\n```", 3);
    } else {
      HasAtIndex(t, 0, "\n```", n - 1);
    }
  }

  /** A part without three backticks in a row is left as it is. */
  lemma {:induction false} StripFencesIdentity(s: string)
    requires FenceFree(s)
    ensures StripFences(s) == s
    decreases |s|
  {
    if s != [] {
      assert !HasAt(s, 0, "```");
      assert !HasAt(s, 1, "```");
      HasAtIndex(s, 0, "\n```", 1);
      HasAtIndex(s, 0, "\n```", 2);
      HasAtIndex(s, 0, "\n```", 3);
      FenceFreeTail(s);
      StripFencesIdentity(s[1..]);
      assert s == [s[0]] + s[1..];
    }
  }

  /** Where neither alternative starts, the first character is kept, whatever it is (a lone
      backtick or a newline not followed by a fence included), and the scan goes on after it. */
  lemma StripFencesKeepsHead(s: string)
    requires s != [] && !HasAt(s, 0, "```") && !HasAt(s, 0, "\n```")
    ensures StripFences(s) == [s[0]] + StripFences(s[1..])
  {
  }

  /** A newline followed by a fence is removed with it, whatever comes after, and the scan
      goes on after the fence: the text that follows is never taken as a tag. */
  lemma StripNewlineFence(rest: string)
    ensures StripFences("\n```" + rest) == StripFences(rest)
  {
    var s := "\n```" + rest;
    HasAtHead(s, 0, "```");
    assert HasAt(s, 0, "\n```") by { assert s[0..4] == "\n```"; HasAtIff(s, 0, "\n```"); }
    assert s[4..] == rest;
  }

  /** A fenced span on one line, after text with no backtick and no newline: the opening
      fence takes the word as its tag, the closing fence goes, and the text before stays. */
  lemma {:induction false} StripInlineFence(pre: string, tag: string)
    requires forall i :: 0 <= i < |pre| ==> pre[i] != '`' && pre[i] != '\n'
    requires forall i :: 0 <= i < |tag| ==> IsWordChar(tag[i])
    ensures StripFences(pre + "```" + tag + "```") == pre
    decreases |pre|
  {
    if pre == [] {
      assert pre + "```" + tag + "```" == "```" + tag + "```";
      StripBareOpeningFence(tag, "```");
      assert [] + "```" == "```";
      StripBareClosingFence([]);
    } else {
      assert pre + "```" + tag + "```" == [pre[0]] + (pre[1..] + "```" + tag + "```");
      StripFencesKeepsChar(pre[0], pre[1..] + "```" + tag + "```");
      StripInlineFence(pre[1..], tag);
      assert pre == [pre[0]] + pre[1..];
    }
  }

  /** A character, then a fenced word on the next line: the newline goes with the opening
      fence, the closing fence goes, and the word stays after the character. */
  lemma StripNextLineFence(c: char, tag: string)
    requires c != '`' && c != '\n'
    requires forall i :: 0 <= i < |tag| ==> IsWordChar(tag[i])
    ensures StripFences([c] + "\n```" + tag + "```") == [c] + tag
  {
    var t := tag + "```";
    NextLineFenceParts(c, tag);
    StripFencesKeepsChar(c, "\n```" + t);
    StripNewlineFence(t);
    WordIsBareBody(tag);
    StripBareClosingFence(tag);
  }

  /** How the pieces of a next-line fence group. */
  lemma NextLineFenceParts(c: char, tag: string)
    ensures [c] + "\n```" + tag + "```" == [c] + ("\n```" + (tag + "```"))
  {
  }

  /** A character that can start neither alternative is kept. */
  lemma StripFencesKeepsChar(c: char, rest: string)
    requires c != '`' && c != '\n'
    ensures StripFences([c] + rest) == [c] + StripFences(rest)
  {
    var s := [c] + rest;
    HasAtHead(s, 0, "```");
    HasAtHead(s, 0, "\n```");
    StripFencesKeepsHead(s);
    assert s[1..] == rest;
  }

  /** A word holds no fence and ends in neither a newline nor a backtick. */
  lemma WordIsBareBody(tag: string)
    requires forall i :: 0 <= i < |tag| ==> IsWordChar(tag[i])
    ensures FenceFree(tag)
    ensures tag == [] || (tag[|tag| - 1] != '\n' && tag[|tag| - 1] != '`')
  {
    forall i: nat | i <= |tag| ensures !HasAt(tag, i, "```") {
      HasAtHead(tag, i, "```");
    }
    assert tag != [] ==> IsWordChar(tag[|tag| - 1]);
  }

  // ----- The classification as a whole -----

  /** A part that is neither a heading nor holds a bold, fenced or inline-code span falls
      through to the list tests and then to plain text. */
  lemma ClassifyUnclaimed(part: string)
    requires HeadingPrefix(part).None?
    requires !Finds(BoldSpan, part, 0) && !Finds(FencedBlock, part, 0) && !Finds(InlineCodeSpan, part, 0)
    ensures Classify(part) == if BulletPrefix(part) then Some(ListItem(part[2..]))
                              else if NumberedPrefix(part) then Some(NumberedItem(part))
                              else if !AllWhiteSpace(part) then Some(Plain(part))
                              else None
  {
    ClassifyNoneIffBlank(part);
  }

  /** The classifier yields nothing exactly for the empty and the blank parts. */
  lemma ClassifyNoneIffBlank(part: string)
    ensures Classify(part).None? <==> AllWhiteSpace(part)
  {
    if AllWhiteSpace(part) {
      NoFindsInBlank(BoldSpan, part);
      NoFindsInBlank(FencedBlock, part);
      NoFindsInBlank(InlineCodeSpan, part);
      if part != [] {
        assert !IsWhiteSpace('#') && !IsWhiteSpace('-') && !IsWhiteSpace('*');
        assert IsWhiteSpace(part[0]);
        HashesStartWithHash(part, 0, 1);
        HashesStartWithHash(part, 0, 2);
        HashesStartWithHash(part, 0, 3);
        assert DigitRun(part, 0) == 0;
      }
    }
  }

  /** A bold part loses every `**`, and none is left in its text. */
  lemma BoldText(part: string)
    requires Classify(part).Some? && Classify(part).value.Bold?
    ensures var t := Classify(part).value.text;
            && t == RemoveDoubleStar(part)
            && NoDoubleStar(t)
            && RemoveChar(t, '*') == RemoveChar(part, '*')
  {
    BoldIsRemoval(part);
    RemoveDoubleStarLeavesNone(part);
    RemoveDoubleStarKeepsOthers(part);
  }

  lemma BoldIsRemoval(part: string)
    requires Classify(part).Some? && Classify(part).value.Bold?
    ensures Classify(part).value.text == RemoveDoubleStar(part)
  {
  }

  /** An inline-code part loses every backtick, and keeps every other character, in order. */
  lemma InlineCodeText(part: string)
    requires Classify(part).Some? && Classify(part).value.InlineCode?
    ensures var t := Classify(part).value.text;
            && t == RemoveChar(part, '`')
            && |t| < |part|
            && multiset(t) == multiset(part)['`' := 0]
            && forall i :: 0 <= i < |t| ==> t[i] != '`'
  {
    InlineCodeIsRemoval(part);
    RemoveCharCounts(part, '`');
    var k := InlineCodeHasBacktick(part);
    RemoveCharDrops(part, '`', k);
  }

  lemma InlineCodeIsRemoval(part: string)
    requires Classify(part).Some? && Classify(part).value.InlineCode?
    ensures Classify(part).value.text == RemoveChar(part, '`')
  {
  }

  /** An inline-code part holds a backtick. */
  lemma InlineCodeHasBacktick(part: string) returns (k: nat)
    requires Classify(part).Some? && Classify(part).value.InlineCode?
    ensures k < |part| && part[k] == '`'
  {
    FindsIff(InlineCodeSpan, part, 0);
    k :| 0 <= k <= |part| && TryAt(InlineCodeSpan, part, k).Some?;
    HasAtHead(part, k, "`");
  }

  /** Deleting a character that occurs shortens the string. */
  lemma {:induction false} RemoveCharDrops(s: string, c: char, k: nat)
    requires k < |s| && s[k] == c
    ensures |RemoveChar(s, c)| < |s|
    decreases |s|
  {
    if s[0] != c {
      RemoveCharDrops(s[1..], c, k - 1);
    }
  }

  /** A bullet part loses exactly its marker and one white-space character; a numbered part is
      kept whole, number included. */
  lemma ListText(part: string)
    ensures Classify(part).Some? && Classify(part).value.ListItem? ==>
            && BulletPrefix(part)
            && Classify(part).value.text == part[2..]
    ensures Classify(part).Some? && Classify(part).value.NumberedItem? ==>
            && NumberedPrefix(part) && IsDigit(part[0])
            && Classify(part).value.text == part
  {
    var c := Classify(part);
    if c.Some? && (c.value.ListItem? || c.value.NumberedItem?) {
      assert HeadingPrefix(part).None?;
      assert !Finds(BoldSpan, part, 0) && !Finds(FencedBlock, part, 0) && !Finds(InlineCodeSpan, part, 0);
      ClassifyUnclaimed(part);
      DigitRunAllDigits(part, 0);
    }
  }

  /** A non-blank part that nothing else claims is shown as it is, untrimmed; in particular a
      part without any of the marker characters is plain text or nothing. */
  lemma PlainWhenUnmarked(part: string)
    requires forall i :: 0 <= i < |part| ==> part[i] !in "*`#-" && !IsDigit(part[i])
    ensures Classify(part) == (if AllWhiteSpace(part) then None else Some(Plain(part)))
  {
    ClassifyNoneIffBlank(part);
    if part != [] {
      assert part[0] != '#' && part[0] != '-' && part[0] != '*' && !IsDigit(part[0]);
      HashesStartWithHash(part, 0, 1);
      HashesStartWithHash(part, 0, 2);
      HashesStartWithHash(part, 0, 3);
    }
    NoFindsUnmarked(BoldSpan, part);
    NoFindsUnmarked(FencedBlock, part);
    NoFindsUnmarked(InlineCodeSpan, part);
  }

  /** Bold outranks the list marker: "- **b**" is bold text "- b". */
  lemma BoldBeforeBullet()
    ensures Classify("- **b**") == Some(Bold("- b"))
  {
    BoldInExample();
    NoHeadingInExample();
    StarsOutOfExample();
  }

  lemma NoHeadingInExample()
    ensures HeadingPrefix("- **b**").None?
  {
    var s := "- **b**";
    HashesStartWithHash(s, 0, 1);
    HashesStartWithHash(s, 0, 2);
    HashesStartWithHash(s, 0, 3);
  }

  lemma StarsOutOfExample()
    ensures RemoveDoubleStar("- **b**") == "- b"
  {
    var s := "- **b**";
    assert s[1..] == " **b**" && s[2..] == "**b**" && "**b**"[2..] == "b**" && "b**"[1..] == "**";
    assert RemoveDoubleStar("**") == [];
    assert RemoveDoubleStar("b**") == "b";
    assert RemoveDoubleStar("**b**") == "b";
    assert RemoveDoubleStar(" **b**") == " b";
  }

  lemma BoldInExample()
    ensures Finds(BoldSpan, "- **b**", 0)
  {
    var s := "- **b**";
    assert TryAt(BoldSpan, s, 2) == Some(7) by {
      HasAtIff(s, 2, "**");
      assert s[2..4] == "**";
      HasAtHead(s, 4, "**");
      assert CloseFrom(s, 4, "**", false) == CloseFrom(s, 5, "**", false);
      HasAtIff(s, 5, "**");
      assert s[5..7] == "**";
    }
    assert Finds(BoldSpan, s, 2);
    assert Finds(BoldSpan, s, 1);
  }
}
