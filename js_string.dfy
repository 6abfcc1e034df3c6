/** The pieces of ECMAScript string semantics the components rely on:
    the character classes behind `\s`, `\d`, `\w` and `.`, and `String.prototype.trim`.
    Strings are sequences of `char`; see README for the UTF-16 caveat. */
module JsString {

  /** ECMAScript LineTerminator: the characters `.` does not match and before which a
      multiline `$` (and after which a multiline `^`) holds. */
  predicate IsLineTerminator(c: char) {
    c == '\n' || c == '\r' || c == '\U{2028}' || c == '\U{2029}'
  }

  /** ECMAScript WhiteSpace or LineTerminator: the class `\s`, and what `trim()` removes.
      The space separators (general category Zs) are listed out. */
  predicate IsWhiteSpace(c: char) {
    || IsLineTerminator(c)
    || c == '\t' || c == '\U{000B}' || c == '\U{000C}' || c == ' '
    || c == '\U{00A0}' || c == '\U{FEFF}' || c == '\U{1680}'
    || ('\U{2000}' <= c <= '\U{200A}')
    || c == '\U{202F}' || c == '\U{205F}' || c == '\U{3000}'
  }

  /** The class `\d`: ASCII digits only. */
  predicate IsDigit(c: char) {
    '0' <= c <= '9'
  }

  /** The class `\w`: ASCII letters, digits and underscore. */
  predicate IsWordChar(c: char) {
    ('a' <= c <= 'z') || ('A' <= c <= 'Z') || IsDigit(c) || c == '_'
  }

  predicate AllWhiteSpace(s: string) {
    forall i :: 0 <= i < |s| ==> IsWhiteSpace(s[i])
  }

  /** `s` holds `t` at offset `q`. */
  predicate HasAt(s: string, q: nat, t: string) {
    q + |t| <= |s| && forall i :: 0 <= i < |t| ==> s[q + i] == t[i]
  }

  /** HasAt, stated with a slice. */
  lemma HasAtIff(s: string, q: nat, t: string)
    ensures HasAt(s, q, t) <==> q + |t| <= |s| && s[q..q + |t|] == t
  {
    if q + |t| <= |s| && s[q..q + |t|] == t {
      forall i | 0 <= i < |t| ensures s[q + i] == t[i] {
        assert s[q..q + |t|][i] == s[q + i];
      }
    }
  }

  /** A text holds t at q only if it holds t's first character there... */
  lemma HasAtHead(s: string, q: nat, t: string)
    requires t != []
    ensures HasAt(s, q, t) ==> q < |s| && s[q] == t[0]
  {
    HasAtIndex(s, q, t, 0);
  }

  /** ...and any other of its characters. */
  lemma HasAtIndex(s: string, q: nat, t: string, i: nat)
    requires i < |t|
    ensures HasAt(s, q, t) ==> q + i < |s| && s[q + i] == t[i]
  {
  }

  /** A slice of s is held by s where it was cut. */
  lemma SliceHasAt(s: string, i: nat, j: nat)
    requires i <= j <= |s|
    ensures HasAt(s, i, s[i..j])
  {
  }

  /** What lies within s is held by s + u exactly when it is held by s. */
  lemma HasAtPrefix(s: string, u: string, q: nat, t: string)
    requires q + |t| <= |s|
    ensures HasAt(s + u, q, t) <==> HasAt(s, q, t)
  {
  }

  /** Dropping the first character moves every offset down by one. */
  lemma HasAtDrop(s: string, q: nat, t: string)
    requires s != []
    ensures HasAt(s[1..], q, t) <==> HasAt(s, q + 1, t)
  {
    if HasAt(s, q + 1, t) {
      forall i | 0 <= i < |t| ensures s[1..][q + i] == t[i] {
        assert s[1..][q + i] == s[q + 1 + i];
      }
    }
  }

  /** Two strings of one length held at the same place are equal. */
  lemma HasAtUnique(s: string, q: nat, t1: string, t2: string)
    requires HasAt(s, q, t1) && HasAt(s, q, t2) && |t1| == |t2|
    ensures t1 == t2
  {
  }

  /** Multiline `^` at position q. */
  predicate LineStart(s: string, q: nat)
    requires q <= |s|
  {
    q == 0 || IsLineTerminator(s[q - 1])
  }

  /** No line terminator in s[j..k]. */
  predicate LineFree(s: string, j: nat, k: nat)
    requires j <= k <= |s|
  {
    forall l :: j <= l < k ==> !IsLineTerminator(s[l])
  }

  /** Only digits in s[j..k]. */
  predicate AllDigits(s: string, j: nat, k: nat)
    requires j <= k <= |s|
  {
    forall l :: j <= l < k ==> IsDigit(s[l])
  }

  /** The first position at or after r where a multiline `$` holds: the end of the
      input or a line terminator. `.*?$` from r ends exactly there. */
  function NextLineEnd(s: string, r: nat): (e: nat)
    requires r <= |s|
    ensures r <= e <= |s|
    ensures e == |s| || IsLineTerminator(s[e])
    decreases |s| - r
  {
    if r == |s| || IsLineTerminator(s[r]) then r else NextLineEnd(s, r + 1)
  }

  /** No line terminator comes before NextLineEnd, so it is the first place `$` holds. */
  lemma {:induction false} NextLineEndIsFirst(s: string, r: nat)
    requires r <= |s|
    ensures LineFree(s, r, NextLineEnd(s, r))
    decreases |s| - r
  {
    if r < |s| && !IsLineTerminator(s[r]) {
      NextLineEndIsFirst(s, r + 1);
    }
  }

  /** The length of the run of digits starting at q (what a greedy `\d+` consumes). */
  function DigitRun(s: string, q: nat): (d: nat)
    requires q <= |s|
    ensures q + d <= |s|
    ensures q + d == |s| || !IsDigit(s[q + d])
    decreases |s| - q
  {
    if q < |s| && IsDigit(s[q]) then 1 + DigitRun(s, q + 1) else 0
  }

  /** Everything DigitRun passes over is a digit. */
  lemma {:induction false} DigitRunAllDigits(s: string, q: nat)
    requires q <= |s|
    ensures AllDigits(s, q, q + DigitRun(s, q))
    decreases |s| - q
  {
    if q < |s| && IsDigit(s[q]) {
      DigitRunAllDigits(s, q + 1);
    }
  }

  /** The length of the run of word characters starting at q (what a greedy `\w*` consumes). */
  function WordRun(s: string, q: nat): (d: nat)
    requires q <= |s|
    ensures q + d <= |s|
    ensures q + d == |s| || !IsWordChar(s[q + d])
    decreases |s| - q
  {
    if q < |s| && IsWordChar(s[q]) then 1 + WordRun(s, q + 1) else 0
  }

  /** A run of word characters that is followed by something else is exactly what WordRun
      consumes. */
  lemma {:induction false} WordRunOfWord(s: string, q: nat, w: string)
    requires q + |w| <= |s| && s[q..q + |w|] == w
    requires forall i :: 0 <= i < |w| ==> IsWordChar(w[i])
    requires q + |w| == |s| || !IsWordChar(s[q + |w|])
    ensures WordRun(s, q) == |w|
    decreases |w|
  {
    if w != [] {
      assert s[q] == w[0];
      assert s[q + 1..q + 1 + |w[1..]|] == w[1..];
      WordRunOfWord(s, q + 1, w[1..]);
    }
  }

  /** The first position at or after i that holds no white space (|s| if there is none). */
  function SkipBlank(s: string, i: nat): (a: nat)
    requires i <= |s|
    ensures i <= a <= |s| && (a == |s| || !IsWhiteSpace(s[a]))
    decreases |s| - i
  {
    if i < |s| && IsWhiteSpace(s[i]) then SkipBlank(s, i + 1) else i
  }

  lemma {:induction false} SkipBlankSkipsBlank(s: string, i: nat)
    requires i <= |s|
    ensures forall l :: i <= l < SkipBlank(s, i) ==> IsWhiteSpace(s[l])
    decreases |s| - i
  {
    if i < |s| && IsWhiteSpace(s[i]) {
      SkipBlankSkipsBlank(s, i + 1);
    }
  }

  /** The position just past the last character of s[a..j] that is not white space (a if
      there is none). */
  function BackBlank(s: string, a: nat, j: nat): (e: nat)
    requires a <= j <= |s|
    ensures a <= e <= j && (e == a || !IsWhiteSpace(s[e - 1]))
    decreases j
  {
    if j > a && IsWhiteSpace(s[j - 1]) then BackBlank(s, a, j - 1) else j
  }

  lemma {:induction false} BackBlankSkipsBlank(s: string, a: nat, j: nat)
    requires a <= j <= |s|
    ensures forall l :: BackBlank(s, a, j) <= l < j ==> IsWhiteSpace(s[l])
    decreases j
  {
    if j > a && IsWhiteSpace(s[j - 1]) {
      BackBlankSkipsBlank(s, a, j - 1);
    }
  }

  /** The backward scan stops before a character that is not white space. */
  lemma {:induction false} BackBlankStops(s: string, a: nat, j: nat)
    requires a < j <= |s| && !IsWhiteSpace(s[a])
    ensures a < BackBlank(s, a, j)
    decreases j
  {
    if j > a + 1 && IsWhiteSpace(s[j - 1]) {
      BackBlankStops(s, a, j - 1);
    }
  }

  /** `String.prototype.trim`: leading and trailing white space removed. It is empty
      exactly when s is blank, and otherwise begins and ends with a character that is
      not white space. */
  function Trim(s: string): (r: string)
    ensures |r| <= |s|
    ensures r == [] <==> AllWhiteSpace(s)
    ensures r != [] ==> !IsWhiteSpace(r[0]) && !IsWhiteSpace(r[|r| - 1])
  {
    var a := SkipBlank(s, 0);
    var e := BackBlank(s, a, |s|);
    TrimBlankIff(s);
    s[a..e]
  }

  /** Nothing is left between the two scans exactly when s is blank. */
  lemma TrimBlankIff(s: string)
    ensures var a := SkipBlank(s, 0);
            BackBlank(s, a, |s|) == a <==> AllWhiteSpace(s)
  {
    var a := SkipBlank(s, 0);
    SkipBlankSkipsBlank(s, 0);
    if a < |s| {
      BackBlankStops(s, a, |s|);
    }
  }

  /** The trimmed string is exactly what lies between a blank prefix and a blank suffix
      of s. */
  lemma TrimIsMiddle(s: string) returns (a: nat)
    ensures a + |Trim(s)| <= |s| && s[a..a + |Trim(s)|] == Trim(s)
    ensures AllWhiteSpace(s[..a]) && AllWhiteSpace(s[a + |Trim(s)|..])
  {
    a := SkipBlank(s, 0);
    var e := BackBlank(s, a, |s|);
    SkipBlankSkipsBlank(s, 0);
    BackBlankSkipsBlank(s, a, |s|);
    assert Trim(s) == s[a..e];
    forall l | 0 <= l < a ensures IsWhiteSpace(s[..a][l]) {
      assert s[..a][l] == s[l];
    }
    forall l | 0 <= l < |s| - e ensures IsWhiteSpace(s[e..][l]) {
      assert s[e..][l] == s[e + l];
    }
  }

  /** Trimming twice is trimming once. */
  lemma TrimIdempotent(s: string)
    ensures Trim(Trim(s)) == Trim(s)
  {
    var r := Trim(s);
    if r != [] {
      assert SkipBlank(r, 0) == 0;
      assert BackBlank(r, 0, |r|) == |r|;
      assert r[0..|r|] == r;
    }
  }

  /** s with every occurrence of the character c deleted (`replace(/c/g, '')`): no c is
      left, every other character keeps its number of occurrences (RemoveCharCounts) and
      their order (RemoveCharAppend). */
  function RemoveChar(s: string, c: char): (r: string)
    ensures |r| <= |s|
    ensures forall i :: 0 <= i < |r| ==> r[i] != c
    ensures (forall i :: 0 <= i < |s| ==> s[i] != c) ==> r == s
  {
    if s == [] then [] else (if s[0] == c then [] else [s[0]]) + RemoveChar(s[1..], c)
  }

  /** Only c goes: every other character occurs as often as before. */
  lemma {:induction false} RemoveCharCounts(s: string, c: char)
    ensures multiset(RemoveChar(s, c)) == multiset(s)[c := 0]
    decreases |s|
  {
    if s != [] {
      assert s == [s[0]] + s[1..];
      RemoveCharCounts(s[1..], c);
    }
  }

  /** Deleting c from a concatenation deletes it from each half: the characters that stay
      keep their order. */
  lemma {:induction false} RemoveCharAppend(a: string, b: string, c: char)
    ensures RemoveChar(a + b, c) == RemoveChar(a, c) + RemoveChar(b, c)
    decreases |a|
  {
    if a != [] {
      assert (a + b)[1..] == a[1..] + b;
      RemoveCharAppend(a[1..], b, c);
    } else {
      assert a + b == b;
    }
  }
}
