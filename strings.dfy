/** The few operations on Python `str` values that the converter relies on. */
module Strings {

  predicate StartsWith(s: string, prefix: string) {
    |prefix| <= |s| && s[..|prefix|] == prefix
  }

  predicate EndsWith(s: string, suffix: string) {
    |suffix| <= |s| && s[|s| - |suffix|..] == suffix
  }

  /** `lit` occurs in `s` starting at index `i`. */
  predicate OccursAt(s: string, i: nat, lit: string) {
    i + |lit| <= |s| && s[i..i + |lit|] == lit
  }

  // Used by ExpandedGlue, OpenAtBreak and ShortcodeExpanded.
  lemma ConcatAssoc(a: string, b: string, c: string)
    ensures a + b + c == a + (b + c)
  {
  }

  // Used by ExpandedGlue, IllustrateBreakEmpty and IllustrateMidLine.
  lemma DropPrefix(a: string, b: string)
    ensures (a + b)[|a|..] == b
  {
  }

  /** Glue for a line scanned one character at a time and then the next line. */
  lemma ConsLineGlue(a: string, x: char, b: string, tail: string, r: string, l: string)
    requires a == [x] + b && b == tail + "\n" + r && l == [x] + tail
    ensures a == l + "\n" + r
  {
  }

  /** Glue for a text copied one character at a time. Used by GalleryPlain. */
  lemma ConsGlue(a: string, b: string, g: string)
    requires a != []
    ensures (a + b)[1..] == a[1..] + b
    ensures [(a + b)[0]] + (a[1..] + g) == a + g
  {
    assert a == [a[0]] + a[1..];
  }

  // Used by TailOnLine.
  lemma NotInSuffix(s: string, c: char, i: nat)
    requires c !in s && i <= |s|
    ensures c !in s[i..]
  {
    var t := s[i..];
    assert forall j :: 0 <= j < |t| ==> t[j] == s[i + j];
  }

  // Used by Layout.
  lemma OccursAtSplit(s: string, i: nat, u: string, w: string)
    requires OccursAt(s, i, u + w)
    ensures OccursAt(s, i, u) && OccursAt(s, i + |u|, w)
  {
    assert s[i..i + |u|] == (u + w)[..|u|];
    assert s[i + |u|..i + |u| + |w|] == (u + w)[|u|..];
  }

  // Used by LaidHeadOf, LaidMiddleOf, LaidOut and LaidTailOf.
  lemma OccursAtChars(s: string, i: nat, lit: string)
    requires OccursAt(s, i, lit)
    ensures forall j :: 0 <= j < |lit| ==> s[i + j] == lit[j]
  {
    forall j | 0 <= j < |lit|
      ensures s[i + j] == lit[j]
    {
      assert s[i..i + |lit|][j] == s[i + j];
    }
  }

  /** One mismatching character rules an occurrence out. */
  lemma NotOccursAt(s: string, i: nat, lit: string, j: nat)
    requires j < |lit| && (i + j < |s| ==> s[i + j] != lit[j])
    ensures !OccursAt(s, i, lit)
  {
    assert i + |lit| <= |s| ==> s[i..i + |lit|][j] == s[i + j];
  }

  /** Where `lit` occurs in `u + w`, seen from `u` and from `w`. */
  lemma OccursAtShift(u: string, w: string, j: nat, lit: string)
    ensures OccursAt(u + w, |u| + j, lit) <==> OccursAt(w, j, lit)
  {
    if |u| + j + |lit| <= |u + w| {
      assert (u + w)[|u| + j..|u| + j + |lit|] == w[j..j + |lit|];
    }
  }

  /** The first index at or after `from` that holds `c`, or `|s|` when there is none. */
  function IndexOf(s: string, c: char, from: nat): (r: nat)
    requires from <= |s|
    ensures from <= r <= |s|
    ensures r < |s| ==> s[r] == c
    ensures forall j :: from <= j < r ==> s[j] != c
    decreases |s| - from
  {
    if from == |s| || s[from] == c then from else IndexOf(s, c, from + 1)
  }

  /** The first occurrence of `c` does not move when text is appended after it. */
  lemma IndexOfExtend(s: string, t: string, c: char, from: nat)
    requires from <= |s| && IndexOf(s, c, from) < |s|
    ensures IndexOf(s + t, c, from) == IndexOf(s, c, from)
  {
    assert (s + t)[IndexOf(s, c, from)] == c;
  }

  // Used by CloseLinked, ClosingBracketTakesADigit, FrontMatterRoundTrip, HrefOnce, ImageThenText, ImgTagAfterGroup, JoinSplit, MatchShortcode, SpanOpenDropped and SrcOnce.
  lemma IndexOfIs(s: string, c: char, from: nat, r: nat)
    requires from <= r < |s| && s[r] == c
    requires forall j :: from <= j < r ==> s[j] != c
    ensures IndexOf(s, c, from) == r
  {
  }

  /** The number of occurrences of `c` in `s`. */
  function Count(s: string, c: char): nat {
    if s == [] then 0 else (if s[0] == c then 1 else 0) + Count(s[1..], c)
  }

  // Used by AddsOnlyBreaksAtCopy, AddsOnlyBreaksAtImage and Split.
  lemma CountAppend(a: string, b: string, c: char)
    ensures Count(a + b, c) == Count(a, c) + Count(b, c)
  {
    if a == [] {
      assert a + b == b;
    } else {
      assert (a + b)[1..] == a[1..] + b;
      CountAppend(a[1..], b, c);
    }
  }

  /** Python's `s.replace(pat, rep)`: every occurrence of `pat`, found left to right
      without overlap, is replaced by `rep`. */
  function ReplaceAll(s: string, pat: string, rep: string): string
    requires pat != []
    decreases |s|
  {
    if |s| < |pat| then s
    else if s[..|pat|] == pat then rep + ReplaceAll(s[|pat|..], pat, rep)
    else [s[0]] + ReplaceAll(s[1..], pat, rep)
  }

  /** Python's `sep.join(parts)`. */
  function Join(parts: seq<string>, sep: string): string {
    if |parts| == 0 then ""
    else if |parts| == 1 then parts[0]
    else parts[0] + sep + Join(parts[1..], sep)
  }

  /** Python's `s.split(sep)` for a one-character separator: the pieces between
      consecutive separators, empty pieces included. */
  function Split(s: string, sep: char): (r: seq<string>)
    ensures |r| == Count(s, sep) + 1
    ensures forall i :: 0 <= i < |r| ==> sep !in r[i]
    decreases |s|
  {
    var i := IndexOf(s, sep, 0);
    if i == |s| then
      CountNone(s, sep);
      [s]
    else
      var rest := Split(s[i + 1..], sep);
      assert s == s[..i] + [sep] + s[i + 1..];
      CountNone(s[..i], sep);
      CountAppend(s[..i] + [sep], s[i + 1..], sep);
      CountAppend(s[..i], [sep], sep);
      [s[..i]] + rest
  }

  // Used by Split.
  lemma CountNone(s: string, c: char)
    requires c !in s
    ensures Count(s, c) == 0
  {
    if s != [] {
      assert s[0] != c;
      CountNone(s[1..], c);
    }
  }

  /** Joining the pieces of a split with the separator gives back the text. */
  lemma {:induction false} SplitJoin(s: string, sep: char)
    ensures Join(Split(s, sep), [sep]) == s
    decreases |s|
  {
    var i := IndexOf(s, sep, 0);
    if i < |s| {
      SplitJoin(s[i + 1..], sep);
      assert s == s[..i] + [sep] + s[i + 1..];
    }
  }

  /** Splitting a join of separator-free parts gives the parts back. */
  lemma {:induction false} JoinSplit(parts: seq<string>, sep: char)
    requires |parts| >= 1
    requires forall i :: 0 <= i < |parts| ==> sep !in parts[i]
    ensures Split(Join(parts, [sep]), sep) == parts
  {
    var s := Join(parts, [sep]);
    if |parts| == 1 {
      IndexOfNone(s, sep);
    } else {
      var i := |parts[0]|;
      assert s == parts[0] + [sep] + Join(parts[1..], [sep]);
      assert forall j :: 0 <= j < i ==> s[j] == parts[0][j];
      IndexOfIs(s, sep, 0, i);
      assert s[..i] == parts[0];
      assert s[i + 1..] == Join(parts[1..], [sep]);
      JoinSplit(parts[1..], sep);
    }
  }

  // Used by JoinSplit.
  lemma IndexOfNone(s: string, c: char)
    requires c !in s
    ensures IndexOf(s, c, 0) == |s|
  {
  }

  /** Python's `\w` restricted to ASCII: letters, digits and the underscore. */
  predicate IsWordChar(c: char) {
    ('a' <= c <= 'z') || ('A' <= c <= 'Z') || ('0' <= c <= '9') || c == '_'
  }

  /** Python's `\s` on `str` patterns: the characters `str.isspace()` accepts. */
  predicate IsSpace(c: char) {
    || c == ' ' || ('\t' <= c <= '\r') || ('\U{1C}' <= c <= '\U{1F}')
    || c == '\U{85}' || c == '\U{A0}' || c == '\U{1680}'
    || ('\U{2000}' <= c <= '\U{200A}') || c == '\U{2028}' || c == '\U{2029}'
    || c == '\U{202F}' || c == '\U{205F}' || c == '\U{3000}'
  }
}
