/** The first half of `renderMarkdownText` (components/MessageBubble.tsx:25-27): the message
    text is cut by one `String.prototype.split` with the capturing, global, multiline pattern

      (\*\*.*?\*\*|`.*?`|```[\s\S]*?```|#{1,3}\s.*?$|^\d+\.\s.*?$|^[-*]\s.*?$)

    The model follows the ECMAScript algorithm for a regular-expression split: positions are
    tried left to right, at each one the alternatives are tried in the order written (the
    first that can match wins, and within it a lazy `*?` takes the shortest run), and on a
    match the text since the previous match is emitted, then the capture (here the whole
    match), after which scanning resumes at the end of the match. */
module MarkdownSplit {
  import opened Wrappers
  import opened JsString

  /** The alternatives of the split pattern. */
  datatype Alternative = BoldSpan | InlineCodeSpan | FencedBlock | HeadingLine | NumberedLine | BulletLine

  /** The order in which the pattern lists them, which is the order they are tried in. */
  const Order: seq<Alternative> := [BoldSpan, InlineCodeSpan, FencedBlock, HeadingLine, NumberedLine, BulletLine]

  /** A lazy `X*?` followed by `delim`, starting at j, where X is `.` (crossLines false) or
      `[\s\S]` (crossLines true): scanning from j, stop at the first occurrence of delim
      and yield the position just past it; fail at the end of the text, or, when X is `.`,
      at a line terminator. */
  function CloseFrom(s: string, j: nat, delim: string, crossLines: bool): (e: Option<nat>)
    requires j <= |s| && delim != []
    ensures e.Some? ==> j + |delim| <= e.value <= |s|
    decreases |s| - j
  {
    if HasAt(s, j, delim) then Some(j + |delim|)
    else if j == |s| || (!crossLines && IsLineTerminator(s[j])) then None
    else CloseFrom(s, j + 1, delim, crossLines)
  }

  /** Where CloseFrom succeeds, the delimiter lies right before the position it yields. */
  lemma {:induction false} CloseFromFound(s: string, j: nat, delim: string, crossLines: bool)
    requires j <= |s| && delim != [] && CloseFrom(s, j, delim, crossLines).Some?
    ensures HasAt(s, CloseFrom(s, j, delim, crossLines).value - |delim|, delim)
    decreases |s| - j
  {
    if !HasAt(s, j, delim) {
      CloseFromFound(s, j + 1, delim, crossLines);
    }
  }

  /** When CloseFrom succeeds, no line terminator precedes the delimiter it found (unless
      crossLines)... */
  lemma {:induction false} CloseFromLineFree(s: string, j: nat, delim: string)
    requires j <= |s| && delim != [] && CloseFrom(s, j, delim, false).Some?
    ensures LineFree(s, j, CloseFrom(s, j, delim, false).value - |delim|)
    decreases |s| - j
  {
    if !HasAt(s, j, delim) {
      assert j < |s| && !IsLineTerminator(s[j]);
      assert CloseFrom(s, j, delim, false) == CloseFrom(s, j + 1, delim, false);
      CloseFromLineFree(s, j + 1, delim);
    }
  }

  /** ...and it is the FIRST occurrence of the delimiter at or after j. */
  lemma {:induction false} CloseFromIsFirst(s: string, j: nat, delim: string, crossLines: bool, k: nat)
    requires j <= k <= |s| && delim != [] && CloseFrom(s, j, delim, crossLines).Some?
    requires k < CloseFrom(s, j, delim, crossLines).value - |delim|
    ensures !HasAt(s, k, delim)
    decreases k - j
  {
    if k > j {
      assert CloseFrom(s, j, delim, crossLines) == CloseFrom(s, j + 1, delim, crossLines);
      CloseFromIsFirst(s, j + 1, delim, crossLines, k);
    }
  }

  /** CloseFrom fails only when every occurrence of delim at or after j has a line terminator
      before it (so never, when crossLines, if there is an occurrence at all). */
  lemma {:induction false} CloseFromFailsOnlyIfAbsent(s: string, j: nat, delim: string, crossLines: bool, k: nat)
    requires j <= k && delim != [] && HasAt(s, k, delim)
    requires CloseFrom(s, j, delim, crossLines).None?
    ensures !crossLines && !LineFree(s, j, k)
    decreases k - j
  {
    if !(!crossLines && IsLineTerminator(s[j])) {
      CloseFromFailsOnlyIfAbsent(s, j + 1, delim, crossLines, k);
    }
  }

  /** With `[\s\S]*?`, the search reaches every later occurrence of the delimiter. */
  lemma {:induction false} CloseFromReaches(s: string, j: nat, delim: string, k: nat)
    requires j <= k && delim != [] && HasAt(s, k, delim)
    ensures CloseFrom(s, j, delim, true).Some?
    decreases k - j
  {
    if !HasAt(s, j, delim) {
      CloseFromReaches(s, j + 1, delim, k);
    }
  }

  /** The h-character prefix of "###" at q, followed by a white-space character. */
  predicate HashesThenSpace(s: string, q: nat, h: nat)
    requires h <= 3
  {
    HasAt(s, q, "###"[..h]) && q + h < |s| && IsWhiteSpace(s[q + h])
  }

  /** The end of the match of one alternative tried at position q, if it matches there. */
  function TryAt(a: Alternative, s: string, q: nat): (e: Option<nat>)
    requires q <= |s|
    ensures e.Some? ==> q < e.value <= |s|
  {
    match a
    // \*\*.*?\*\*
    case BoldSpan => if HasAt(s, q, "**") then CloseFrom(s, q + 2, "**", false) else None
    // `.*?`
    case InlineCodeSpan => if HasAt(s, q, "`") then CloseFrom(s, q + 1, "`", false) else None
    // ```[\s\S]*?```
    case FencedBlock => if HasAt(s, q, "```") then CloseFrom(s, q + 3, "```", true) else None
    // #{1,3}\s.*?$ : the greedy #{1,3} backs off from three hashes to one; no ^ here
    case HeadingLine =>
      if HashesThenSpace(s, q, 3) then Some(NextLineEnd(s, q + 4))
      else if HashesThenSpace(s, q, 2) then Some(NextLineEnd(s, q + 3))
      else if HashesThenSpace(s, q, 1) then Some(NextLineEnd(s, q + 2))
      else None
    // ^\d+\.\s.*?$ : backing off the greedy \d+ would put a digit where `.` is needed
    case NumberedLine =>
      var d := DigitRun(s, q);
      if LineStart(s, q) && d > 0 && HasAt(s, q + d, ".") && q + d + 1 < |s| && IsWhiteSpace(s[q + d + 1])
      then Some(NextLineEnd(s, q + d + 2))
      else None
    // ^[-*]\s.*?$
    case BulletLine =>
      if LineStart(s, q) && q + 1 < |s| && (s[q] == '-' || s[q] == '*') && IsWhiteSpace(s[q + 1])
      then Some(NextLineEnd(s, q + 2))
      else None
  }

  /** Which alternative matched, and where its match ends. */
  datatype Match = Match(alt: Alternative, end: nat)

  /** The first of alts that matches at q. */
  function FirstMatch(alts: seq<Alternative>, s: string, q: nat): (m: Option<Match>)
    requires q <= |s|
    ensures m.Some? ==> q < m.value.end <= |s|
  {
    if alts == [] then None
    else match TryAt(alts[0], s, q)
      case Some(e) => Some(Match(alts[0], e))
      case None => FirstMatch(alts[1..], s, q)
  }

  /** The whole pattern tried at position q (the sticky match of the split algorithm). */
  function MatchAt(s: string, q: nat): (m: Option<Match>)
    requires q <= |s|
    ensures m.Some? ==> q < m.value.end <= |s|
  {
    FirstMatch(Order, s, q)
  }

  /** Where the match found at q ends, for every position q (none past the end of s). */
  function MatchEnd(s: string, q: nat): (e: Option<nat>)
    ensures e.Some? ==> q < e.value <= |s|
  {
    if q <= |s| && MatchAt(s, q).Some? then Some(MatchAt(s, q).value.end) else None
  }

  /** MatchEnd of s as a function of the position alone. */
  function Ends(s: string): nat -> Option<nat> {
    q => MatchEnd(s, q)
  }

  /** A matcher for a text of length n: a match, where there is one, ends after the
      position it starts at and within the text. */
  ghost predicate Matcher(ends: nat -> Option<nat>, n: nat) {
    forall q: nat :: ends(q).Some? ==> q < ends(q).value <= n
  }

  lemma EndsMatcher(s: string)
    ensures Matcher(Ends(s), |s|)
  {
    forall q: nat | Ends(s)(q).Some? ensures q < Ends(s)(q).value <= |s| {
      assert Ends(s)(q) == MatchEnd(s, q);
    }
  }

  /** The split loop from ECMA-262, for the sticky matcher `ends`: p is where the current
      piece of plain text begins, q the position being tried. A match always ends after q (no
      alternative matches the empty string), so the algorithm's "empty match at p" case never
      arises. */
  function SplitFrom(ends: nat -> Option<nat>, s: string, p: nat, q: nat): (parts: seq<string>)
    requires p <= q <= |s| && Matcher(ends, |s|)
    ensures |parts| % 2 == 1
    decreases |s| - q
  {
    if q == |s| then [s[p..]]
    else match ends(q)
      case None => SplitFrom(ends, s, p, q + 1)
      case Some(e) => [s[p..q], s[q..e]] + SplitFrom(ends, s, e, e)
  }

  /** `text.split(pattern)`. For the empty string the algorithm asks once whether the pattern
      matches it, and returns [] if so and [""] if not. */
  function Split(s: string): (parts: seq<string>)
    ensures |parts| % 2 == 1
  {
    if |s| == 0 then (if MatchAt(s, 0).Some? then [] else [s])
    else
      EndsMatcher(s);
      SplitFrom(Ends(s), s, 0, 0)
  }

  function Concat(parts: seq<string>): string {
    if parts == [] then [] else parts[0] + Concat(parts[1..])
  }

  /** Nothing matches at any of the positions a..b-1. */
  ghost predicate NoMatchIn(ends: nat -> Option<nat>, a: nat, b: nat) {
    forall r :: a <= r < b ==> ends(r).None?
  }

  /** The declarative description of a split of s[p..], for a matcher that gives the end of
      the match at each position: a piece of plain text inside which no match starts, and then
      either the end of the text, or the match found right after that piece, captured whole,
      followed by a split of what is left. */
  ghost predicate Scans(ends: nat -> Option<nat>, s: string, p: nat, parts: seq<string>)
    requires p <= |s|
    decreases |parts|
  {
    && |parts| >= 1
    && var g := parts[0];
    && HasAt(s, p, g)
    && NoMatchIn(ends, p, p + |g|)
    && if |parts| == 1 then p + |g| == |s|
       else
         && |parts| >= 3
         && var o, c := p + |g|, parts[1];
         && HasAt(s, o, c)
         && ends(o) == Some(o + |c|)
         && Scans(ends, s, o + |c|, parts[2..])
  }

  /** The split loop produces a split of s[p..] that fits the description, given that
      nothing matched at the positions p..q-1 it has already passed over. */
  lemma {:induction false} SplitFromScans(ends: nat -> Option<nat>, s: string, p: nat, q: nat)
    requires p <= q <= |s| && Matcher(ends, |s|) && NoMatchIn(ends, p, q)
    ensures Scans(ends, s, p, SplitFrom(ends, s, p, q))
    decreases |s| - q
  {
    if q == |s| {
      ScansLast(ends, s, p);
    } else {
      match ends(q)
      case None =>
        NoMatchExtend(ends, p, q);
        SplitFromScans(ends, s, p, q + 1);
      case Some(e) =>
        SplitFromScans(ends, s, e, e);
        SliceHasAt(s, p, q);
        SliceHasAt(s, q, e);
        ScansCons(ends, s, p, s[p..q], s[q..e], SplitFrom(ends, s, e, e));
    }
  }

  /** The rest of the text, where nothing matches, is a split by itself. */
  lemma ScansLast(ends: nat -> Option<nat>, s: string, p: nat)
    requires p <= |s| && NoMatchIn(ends, p, |s|)
    ensures Scans(ends, s, p, [s[p..]])
  {
    SliceHasAt(s, p, |s|);
  }

  lemma NoMatchExtend(ends: nat -> Option<nat>, p: nat, q: nat)
    requires NoMatchIn(ends, p, q) && ends(q).None?
    ensures NoMatchIn(ends, p, q + 1)
  {
  }

  /** A piece of plain text, the capture right after it, and a split of the rest make a
      split. */
  lemma ScansCons(ends: nat -> Option<nat>, s: string, p: nat, g: string, c: string, rest: seq<string>)
    requires HasAt(s, p, g) && NoMatchIn(ends, p, p + |g|)
    requires HasAt(s, p + |g|, c) && ends(p + |g|) == Some(p + |g| + |c|)
    requires Scans(ends, s, p + |g| + |c|, rest)
    ensures Scans(ends, s, p, [g, c] + rest)
  {
    assert ([g, c] + rest)[2..] == rest;
  }

  /** The result of the split always fits the description. */
  lemma SplitScans(s: string)
    ensures Scans(Ends(s), s, 0, Split(s))
  {
    if |s| == 0 {
      assert Split(s) == [s];
    } else {
      EndsMatcher(s);
      SplitFromScans(Ends(s), s, 0, 0);
    }
  }

  /** At most one sequence of pieces fits the description, whatever the matcher. */
  lemma {:induction false} ScansUnique(ends: nat -> Option<nat>, s: string, p: nat, parts1: seq<string>, parts2: seq<string>)
    requires p <= |s| && Matcher(ends, |s|) && Scans(ends, s, p, parts1) && Scans(ends, s, p, parts2)
    ensures parts1 == parts2
    decreases |parts1|
  {
    // The plain-text pieces have the same length: a capture in one split would otherwise
    // start inside the other's piece of plain text.
    var g := |parts1[0]|;
    assert g == |parts2[0]|;
    HasAtUnique(s, p, parts1[0], parts2[0]);
    if |parts1| >= 3 && |parts2| >= 3 {
      var o := p + g;
      HasAtUnique(s, o, parts1[1], parts2[1]);
      ScansUnique(ends, s, o + |parts1[1]|, parts1[2..], parts2[2..]);
      assert parts1 == [parts1[0], parts1[1]] + parts1[2..];
      assert parts2 == [parts2[0], parts2[1]] + parts2[2..];
    }
  }

  /** The split of s is exactly the one sequence of pieces that fits the description. */
  lemma SplitCharacterized(s: string, parts: seq<string>)
    ensures Scans(Ends(s), s, 0, parts) <==> parts == Split(s)
  {
    SplitScans(s);
    EndsMatcher(s);
    if Scans(Ends(s), s, 0, parts) {
      ScansUnique(Ends(s), s, 0, parts, Split(s));
    }
  }

  /** What the description implies: the pieces reassemble s[p..]. */
  lemma {:induction false} ScansReassemble(ends: nat -> Option<nat>, s: string, p: nat, parts: seq<string>)
    requires p <= |s| && Scans(ends, s, p, parts)
    ensures Concat(parts) == s[p..]
    decreases |parts|
  {
    HasAtIff(s, p, parts[0]);
    if |parts| == 1 {
      assert Concat(parts) == parts[0] + Concat([]);
    } else {
      var o := p + |parts[0]|;
      var e := o + |parts[1]|;
      HasAtIff(s, o, parts[1]);
      ScansReassemble(ends, s, e, parts[2..]);
      ConcatTwo(parts);
      SliceThree(s, p, o, e);
    }
  }

  lemma ConcatTwo(parts: seq<string>)
    requires |parts| >= 2
    ensures Concat(parts) == parts[0] + parts[1] + Concat(parts[2..])
  {
    assert parts[1..][1..] == parts[2..];
  }

  lemma SliceThree(s: string, p: nat, o: nat, e: nat)
    requires p <= o <= e <= |s|
    ensures s[p..] == s[p..o] + s[o..e] + s[e..]
  {
  }

  /** Concatenating the pieces in order gives back the text, and every captured piece is
      non-empty, because no alternative matches the empty string. */
  lemma SplitReassembles(s: string)
    ensures Concat(Split(s)) == s
    ensures forall k :: 0 <= k < |Split(s)| && k % 2 == 1 ==> Split(s)[k] != []
  {
    var parts := Split(s);
    SplitScans(s);
    EndsMatcher(s);
    ScansReassemble(Ends(s), s, 0, parts);
    forall k | 0 <= k < |parts| && k % 2 == 1 ensures parts[k] != [] {
      var o, prev := ScansPiece(Ends(s), s, 0, parts, k);
    }
  }

  /** Where the k-th piece of a split of s[p..] lies in s: a piece of plain text (even k)
      is a stretch where no match starts, the first one beginning at p and every later one
      right where the capture before it, starting at prev, ends; a capture (odd k) is the
      match found where it begins. */
  lemma {:induction false} ScansPiece(ends: nat -> Option<nat>, s: string, p: nat, parts: seq<string>, k: nat)
      returns (o: nat, prev: nat)
    requires p <= |s| && Scans(ends, s, p, parts) && k < |parts|
    ensures p <= o && HasAt(s, o, parts[k])
    ensures k % 2 == 0 ==> NoMatchIn(ends, o, o + |parts[k]|)
    ensures k == 0 ==> o == p
    ensures k % 2 == 0 && k > 0 ==> prev + |parts[k - 1]| == o && ends(prev) == Some(o)
                                    && HasAt(s, prev, parts[k - 1])
    ensures k % 2 == 1 ==> ends(o) == Some(o + |parts[k]|)
    decreases k
  {
    var g := |parts[0]|;
    if k == 0 {
      o, prev := p, p;
    } else if k == 1 {
      o, prev := p + g, p;
    } else {
      var c := |parts[1]|;
      o, prev := ScansPiece(ends, s, p + g + c, parts[2..], k - 2);
      assert parts[2..][k - 2] == parts[k];
      if k == 2 {
        prev := p + g;
      } else {
        assert parts[2..][k - 3] == parts[k - 1];
      }
    }
  }

  /** What FirstMatch finds is the match of one of alts; it finds nothing only when none of
      them matches. */
  lemma {:induction false} FirstMatchSound(alts: seq<Alternative>, s: string, q: nat)
    requires q <= |s|
    ensures var m := FirstMatch(alts, s, q);
            && (m.Some? ==> m.value.alt in alts && TryAt(m.value.alt, s, q) == Some(m.value.end))
            && (m.None? <==> forall a :: a in alts ==> TryAt(a, s, q).None?)
  {
    if alts != [] && TryAt(alts[0], s, q).None? {
      FirstMatchSound(alts[1..], s, q);
      assert forall a :: a in alts ==> a == alts[0] || a in alts[1..];
    }
  }

  /** FirstMatch picks alts[i] exactly when alts[i] matches and none before it does. */
  lemma {:induction false} FirstMatchIsFirst(alts: seq<Alternative>, s: string, q: nat, i: nat)
    requires q <= |s| && i < |alts|
    requires forall j :: 0 <= j < i ==> alts[j] != alts[i]
    ensures (FirstMatch(alts, s, q).Some? && FirstMatch(alts, s, q).value.alt == alts[i])
            <==> (TryAt(alts[i], s, q).Some? && forall j :: 0 <= j < i ==> TryAt(alts[j], s, q).None?)
  {
    if i == 0 && TryAt(alts[0], s, q).None? {
      FirstMatchSound(alts[1..], s, q);
    } else if i > 0 && TryAt(alts[0], s, q).None? {
      FirstMatchIsFirst(alts[1..], s, q, i - 1);
      assert forall j :: 0 < j < i ==> alts[1..][j - 1] == alts[j];
      assert forall j :: 0 <= j < i ==> (j == 0 || TryAt(alts[j], s, q) == TryAt(alts[1..][j - 1], s, q));
    }
  }

  /** At every position the alternatives are tried in the written order: the match found is
      that of the first alternative in Order that matches there. */
  lemma MatchAtWrittenOrder(s: string, q: nat, i: nat)
    requires q <= |s| && i < |Order|
    ensures (MatchAt(s, q).Some? && MatchAt(s, q).value.alt == Order[i])
            <==> (TryAt(Order[i], s, q).Some? && forall j :: 0 <= j < i ==> TryAt(Order[j], s, q).None?)
    ensures MatchAt(s, q).Some? ==> TryAt(MatchAt(s, q).value.alt, s, q) == Some(MatchAt(s, q).value.end)
  {
    FirstMatchIsFirst(Order, s, q, i);
    FirstMatchSound(Order, s, q);
  }

  /** Wherever a fence could start, two backticks are already an inline-code span... */
  lemma FenceShadowed(s: string, q: nat)
    requires q <= |s| && TryAt(FencedBlock, s, q).Some?
    ensures TryAt(InlineCodeSpan, s, q) == Some(q + 2)
  {
    assert s[q..q + 3] == "```";
    assert s[q] == '`' && s[q + 1] == '`';
    assert HasAt(s, q, "`") && HasAt(s, q + 1, "`");
  }

  /** ...so the fenced-block alternative never wins at any position. */
  lemma FenceNeverMatches(s: string, q: nat)
    requires q <= |s|
    ensures MatchAt(s, q).None? || MatchAt(s, q).value.alt != FencedBlock
  {
    MatchAtWrittenOrder(s, q, 2);
    assert Order[1] == InlineCodeSpan && Order[2] == FencedBlock;
    if TryAt(FencedBlock, s, q).Some? {
      FenceShadowed(s, q);
    }
  }
}
