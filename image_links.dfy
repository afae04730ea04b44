/** RemoveImageLinksFilter: an `<a>` whose target is the image it wraps is
    replaced by that `<img>` tag. The pattern is
    `<a[^>]+\bhref="([^"]+)[^>]*?>(<img[^>]+\bsrc="\1"[^>]*?>)</a>`, replaced
    by its second group. The search below tries the pattern's choices in the
    order Python's backtracking matcher does: the greedy `[^>]+` in front of
    `href` from longest to shortest, then the greedy URL group from longest to
    shortest, then the greedy `[^>]+` in front of `src`; each lazy `[^>]*?>`
    can only stop at the first `>`. */
module RemoveImageLinksFilter {
  import opened Wrappers
  import opened Strings

  const AnchorOpen := "<a"
  const HrefAttr := "href=\""
  const ImgOpen := "<img"
  const SrcAttr := "src=\""
  const AnchorClose := "</a>"

  /** One match: the `<img…>` tag it keeps is `t[imgStart..imgEnd]`, and the
      match ends at `end`. */
  datatype Match = Match(imgStart: nat, imgEnd: nat, end: nat)

  /** A match keeps a tag that starts with `<img` and is followed by `</a>`,
      where the match ends. */
  predicate Framed(t: string, m: Match) {
    && m.imgStart < m.imgEnd && m.end == m.imgEnd + 4 <= |t|
    && OccursAt(t, m.imgStart, ImgOpen) && OccursAt(t, m.imgEnd, AnchorClose)
  }

  /** `\bhref="` at `h`. */
  predicate HrefAt(t: string, h: nat) {
    1 <= h && OccursAt(t, h, HrefAttr) && !IsWordChar(t[h - 1])
  }

  /** `\bsrc="` at `s`. */
  predicate SrcAt(t: string, s: nat) {
    1 <= s && OccursAt(t, s, SrcAttr) && !IsWordChar(t[s - 1])
  }

  /** The length of the longest run of non-quote characters from `g`, the most
      the URL group `([^"]+)` can take. */
  function QuoteFree(t: string, g: nat): (k: nat)
    requires g <= |t|
    ensures g + k <= |t|
    ensures forall j :: g <= j < g + k ==> t[j] != '"'
  {
    IndexOf(t, '"', g) - g
  }

  /** `\1"[^>]*?>` at `v`, then `</a>`, with the URL `t[g..g + k]`: the end of
      the `<img…>` tag. */
  function CloseAt(t: string, g: nat, k: nat, v: nat): (r: Option<nat>)
    requires g + k <= |t| && v <= |t|
    ensures r.Some? ==> v + k < r.value && OccursAt(t, r.value, AnchorClose)
  {
    if v + k < |t| && t[v..v + k] == t[g..g + k] && t[v + k] == '"' then
      var d := IndexOf(t, '>', v + k + 1);
      if OccursAt(t, d + 1, AnchorClose) then Some(d + 1) else None
    else None
  }

  /** The `[^>]+` in front of `src` ending at `s`, `s - 1`, …, `lo`. */
  function TrySrc(t: string, g: nat, k: nat, lo: nat, s: nat): (r: Option<nat>)
    requires 1 <= lo && g + k <= |t| && s <= |t|
    ensures r.Some? ==> lo < r.value && OccursAt(t, r.value, AnchorClose)
    decreases s
  {
    if s < lo then None
    else if SrcAt(t, s) && CloseAt(t, g, k, s + 5).Some? then CloseAt(t, g, k, s + 5)
    else TrySrc(t, g, k, lo, s - 1)
  }

  /** `[^>]*?>(<img[^>]+\bsrc="\1"[^>]*?>)</a>` after a URL `t[g..g + k]`. */
  function TryImg(t: string, g: nat, k: nat): (r: Option<Match>)
    requires g + k <= |t|
    ensures r.Some? ==> g + k < r.value.imgStart && Framed(t, r.value)
  {
    var c := IndexOf(t, '>', g + k);
    if OccursAt(t, c + 1, ImgOpen) then
      match TrySrc(t, g, k, c + 6, IndexOf(t, '>', c + 5))
      case Some(e) => Some(Match(c + 1, e, e + 4))
      case None => None
    else None
  }

  /** What follows a URL group of 1, 2, …, `k` characters from `g`, shortest first. */
  function ImgChoices(t: string, g: nat, k: nat): (cs: seq<Option<Match>>)
    requires g + k <= |t|
    ensures |cs| == k
    ensures forall c :: c in cs && c.Some? ==> g < c.value.imgStart && Framed(t, c.value)
    decreases k
  {
    if k == 0 then [] else ImgChoices(t, g, k - 1) + [TryImg(t, g, k)]
  }

  /** The last choice that matches. */
  function LastSome(cs: seq<Option<Match>>): (r: Option<Match>)
    ensures r.Some? ==> r in cs
  {
    if cs == [] then None
    else if cs[|cs| - 1].Some? then cs[|cs| - 1]
    else LastSome(cs[..|cs| - 1])
  }

  /** The URL group taking `k`, `k - 1`, …, 1 characters from `g`: the longest
      group after which the rest of the pattern matches. */
  function TryGroup(t: string, g: nat, k: nat): (r: Option<Match>)
    requires g + k <= |t|
    ensures r.Some? ==> g < r.value.imgStart && Framed(t, r.value)
  {
    LastSome(ImgChoices(t, g, k))
  }

  /** The `[^>]+` in front of `href` ending at `h`, `h - 1`, …, `lo`. */
  function TryHref(t: string, lo: nat, h: nat): (r: Option<Match>)
    requires 1 <= lo && h <= |t|
    ensures r.Some? ==> lo < r.value.imgStart && Framed(t, r.value)
    decreases h
  {
    if h < lo then None
    else if HrefAt(t, h) && TryGroup(t, h + 6, QuoteFree(t, h + 6)).Some? then
      TryGroup(t, h + 6, QuoteFree(t, h + 6))
    else TryHref(t, lo, h - 1)
  }

  /** The match of the pattern that starts at `p`, if there is one. */
  function MatchAt(t: string, p: nat): (r: Option<Match>)
    requires p <= |t|
    ensures r.Some? ==> OccursAt(t, p, AnchorOpen) && p < r.value.imgStart && Framed(t, r.value)
  {
    if OccursAt(t, p, AnchorOpen) then TryHref(t, p + 3, IndexOf(t, '>', p + 2)) else None
  }

  /** `f` at `p`, `p + 1`, …, `n - 1`. */
  function Tabulate(f: nat -> Option<Match>, p: nat, n: nat): (ms: seq<Option<Match>>)
    requires p <= n
    ensures |ms| == n - p
    decreases n - p
  {
    if p == n then [] else [f(p)] + Tabulate(f, p + 1, n)
  }

  /** The match of the pattern at each position of `t`. */
  function Matches(t: string): (ms: seq<Option<Match>>)
    ensures |ms| == |t| && Ahead(ms)
  {
    var f := (j: nat) => if j < |t| then MatchAt(t, j) else None;
    TabulateAhead(f, |t|);
    Tabulate(f, 0, |t|)
  }

  // Used by MatchesAt and TabulateAhead.
  lemma {:induction false} TabulateAt(f: nat -> Option<Match>, p: nat, n: nat, j: nat)
    requires p + j < n
    ensures Tabulate(f, p, n)[j] == f(p + j)
    decreases j
  {
    if j > 0 {
      TabulateAt(f, p + 1, n, j - 1);
    }
  }

  // Used by Matches.
  lemma TabulateAhead(f: nat -> Option<Match>, n: nat)
    requires forall j: nat :: j < n && f(j).Some? ==> j < f(j).value.imgStart < f(j).value.imgEnd < f(j).value.end <= n
    ensures Ahead(Tabulate(f, 0, n))
  {
    forall j | 0 <= j < n
      ensures Tabulate(f, 0, n)[j] == f(j)
    {
      TabulateAt(f, 0, n, j);
    }
  }

  /** The table holds the pattern's match at each position. */
  lemma MatchesAt(t: string, j: nat)
    requires j < |t|
    ensures Matches(t)[j] == MatchAt(t, j)
  {
    TabulateAt((i: nat) => if i < |t| then MatchAt(t, i) else None, 0, |t|, j);
  }

  /** Every match lies ahead of the position it starts at. */
  predicate Ahead(ms: seq<Option<Match>>) {
    forall j :: 0 <= j < |ms| && ms[j].Some? ==> j < ms[j].value.imgStart < ms[j].value.imgEnd < ms[j].value.end <= |ms|
  }

  /** `re.sub` scanning `t` from `p`: where a match starts it is replaced by
      the `<img…>` tag it holds and the scan resumes after it; elsewhere the
      character is copied. */
  function Scan(t: string, ms: seq<Option<Match>>, p: nat): (r: string)
    requires |ms| == |t| && Ahead(ms) && p <= |t|
    ensures |r| <= |t| - p
    decreases |t| - p
  {
    if p == |t| then []
    else match ms[p]
      case Some(m) => t[m.imgStart..m.imgEnd] + Scan(t, ms, m.end)
      case None => [t[p]] + Scan(t, ms, p + 1)
  }

  /** RemoveImageLinksFilter.__call__. The result is never longer than the text. */
  function RemoveImageLinks(text: string): (r: string)
    ensures |r| <= |text|
  {
    Scan(text, Matches(text), 0)
  }

  // ---------------------------------------------------------------------------
  // Text without links

  predicate NoAnchorOpen(s: string) {
    forall j :: 0 <= j < |s| ==> !OccursAt(s, j, AnchorOpen)
  }

  /** The pattern needs `<a` where it starts. */
  lemma NoAnchorNoMatch(t: string, p: nat, q: nat)
    requires p <= q <= |t|
    requires forall j :: p <= j < q ==> !OccursAt(t, j, AnchorOpen)
    ensures forall j :: p <= j < q ==> Matches(t)[j] == None
  {
    forall j | p <= j < q
      ensures Matches(t)[j] == None
    {
      MatchesAt(t, j);
    }
  }

  // Used by ScanKept and ScanReplaced.
  lemma {:induction false} ScanPlain(t: string, ms: seq<Option<Match>>, p: nat, q: nat)
    requires |ms| == |t| && Ahead(ms) && p <= q <= |t|
    requires forall j :: p <= j < q ==> ms[j] == None
    ensures Scan(t, ms, p) == t[p..q] + Scan(t, ms, q)
    decreases q - p
  {
    if p < q {
      ScanStep(t, ms, p);
      ScanPlain(t, ms, p + 1, q);
      SliceCons(t, p, q);
      ConsSplice(Scan(t, ms, p), Scan(t, ms, p + 1), Scan(t, ms, q), t[p], t[p + 1..q], t[p..q]);
    }
  }

  // Used by ScanPlain.
  lemma ScanStep(t: string, ms: seq<Option<Match>>, p: nat)
    requires |ms| == |t| && Ahead(ms) && p < |t| && ms[p] == None
    ensures Scan(t, ms, p) == [t[p]] + Scan(t, ms, p + 1)
  {
  }

  // Used by ScanPlain.
  lemma ConsSplice(a: string, b: string, c: string, x: char, y: string, w: string)
    requires a == [x] + b && b == y + c && w == [x] + y
    ensures a == w + c
  {
  }

  // Used by ScanPlain.
  lemma SliceCons(t: string, p: nat, q: nat)
    requires p < q <= |t|
    ensures t[p..q] == [t[p]] + t[p + 1..q]
  {
  }

  /** With no match anywhere the text is copied. */
  lemma ScanKept(t: string, ms: seq<Option<Match>>)
    requires |ms| == |t| && Ahead(ms)
    requires forall j :: 0 <= j < |t| ==> ms[j] == None
    ensures Scan(t, ms, 0) == t
  {
    ScanPlain(t, ms, 0, |t|);
    assert t[0..|t|] == t;
  }

  /** With a single match the text around it is copied. */
  lemma ScanReplaced(t: string, ms: seq<Option<Match>>, p: nat, m: Match)
    requires |ms| == |t| && Ahead(ms) && p < |t| && ms[p] == Some(m)
    requires forall j :: 0 <= j < p ==> ms[j] == None
    requires forall j :: m.end <= j < |t| ==> ms[j] == None
    ensures Scan(t, ms, 0) == t[..p] + t[m.imgStart..m.imgEnd] + t[m.end..]
  {
    ScanPlain(t, ms, 0, p);
    ScanMatchStep(t, ms, p, m);
    ScanPlain(t, ms, m.end, |t|);
    Splice(Scan(t, ms, 0), Scan(t, ms, p), Scan(t, ms, m.end), Scan(t, ms, |t|),
      t[0..p], t[m.imgStart..m.imgEnd], t[m.end..|t|]);
    SliceWhole(t, p, m.end);
  }

  /** Where a match starts it is replaced by its `<img…>` tag. */
  lemma ScanMatchStep(t: string, ms: seq<Option<Match>>, p: nat, m: Match)
    requires |ms| == |t| && Ahead(ms) && p < |t| && ms[p] == Some(m)
    ensures m.end <= |t| && m.imgStart <= m.imgEnd
    ensures Scan(t, ms, p) == t[m.imgStart..m.imgEnd] + Scan(t, ms, m.end)
  {
  }

  // Used by ScanReplaced.
  lemma Splice(a: string, b: string, c: string, d: string, x: string, y: string, z: string)
    requires a == x + b && b == y + c && c == z + d && d == []
    ensures a == x + y + z
  {
  }

  // Used by ScanReplaced.
  lemma SliceWhole(t: string, p: nat, e: nat)
    requires p <= e <= |t|
    ensures t[0..p] == t[..p] && t[e..|t|] == t[e..]
  {
  }

  /** Text in which no `<a` occurs comes out as it went in. */
  lemma NoLinkUnchanged(text: string)
    requires NoAnchorOpen(text)
    ensures RemoveImageLinks(text) == text
  {
    NoAnchorNoMatch(text, 0, |text|);
    ScanKept(text, Matches(text));
  }

  /** Where `<a` occurs in `u + w`: where it occurs in `u` or in `w`, or across
      the seam. */
  lemma AnchorsInConcat(u: string, w: string)
    ensures forall j :: 0 <= j < |u| ==>
      (OccursAt(u + w, j, AnchorOpen) <==> OccursAt(u, j, AnchorOpen) || (j == |u| - 1 && u[j] == '<' && w != [] && w[0] == 'a'))
    ensures forall j :: 0 <= j < |w| ==> (OccursAt(u + w, |u| + j, AnchorOpen) <==> OccursAt(w, j, AnchorOpen))
  {
    forall j | 0 <= j < |w| {
      OccursAtShift(u, w, j, AnchorOpen);
    }
    forall j | 0 <= j < |u|
      ensures OccursAt(u + w, j, AnchorOpen) <==> OccursAt(u, j, AnchorOpen) || (j == |u| - 1 && u[j] == '<' && w != [] && w[0] == 'a')
    {
      if j + 2 <= |u| {
        assert (u + w)[j..j + 2] == u[j..j + 2];
      } else if w != [] {
        assert (u + w)[j..j + 2] == [u[j], w[0]];
      }
    }
  }

  // ---------------------------------------------------------------------------
  // A link around an image

  /** A URL as the lemmas below take it: no quote, angle bracket or `=`. */
  predicate PlainUrl(u: string) {
    forall i :: 0 <= i < |u| ==> u[i] != '"' && u[i] != '<' && u[i] != '>' && u[i] != '='
  }

  function Img(src: string): string {
    ImgOpen + " " + SrcAttr + src + "\">"
  }

  function LinkedImage(href: string, src: string): string {
    "<a " + HrefAttr + href + "\">" + ImgOpen + " " + SrcAttr + src + "\">" + AnchorClose
  }

  /** The back-reference `\1` can match: `src` is a non-empty prefix of `href`. */
  predicate PrefixTarget(src: string, href: string) {
    0 < |src| <= |href| && href[..|src|] == src
  }

  /** `LinkedImage(href, src)` at `p` in `t`, character by character: the link's
      URL ends at `q`, the image's at `w`. */
  predicate Laid(t: string, p: nat, href: string, src: string) {
    var q := p + 9 + |href|;
    var w := q + 12 + |src|;
    && w + 6 <= |t|
    && LaidHead(t, p)
    && (forall j :: 0 <= j < |href| ==> t[p + 9 + j] == href[j])
    && LaidMiddle(t, q)
    && (forall j :: 0 <= j < |src| ==> t[q + 12 + j] == src[j])
    && LaidTail(t, w)
  }

  /** `<a href="` at `p`. */
  predicate LaidHead(t: string, p: nat) {
    && p + 9 <= |t|
    && t[p] == '<' && t[p + 1] == 'a' && t[p + 2] == ' ' && t[p + 3] == 'h' && t[p + 4] == 'r'
    && t[p + 5] == 'e' && t[p + 6] == 'f' && t[p + 7] == '=' && t[p + 8] == '"'
  }

  /** `"><img src="` at `q`. */
  predicate LaidMiddle(t: string, q: nat) {
    && q + 12 <= |t|
    && t[q] == '"' && t[q + 1] == '>' && t[q + 2] == '<' && t[q + 3] == 'i' && t[q + 4] == 'm'
    && t[q + 5] == 'g' && t[q + 6] == ' ' && t[q + 7] == 's' && t[q + 8] == 'r' && t[q + 9] == 'c'
    && t[q + 10] == '=' && t[q + 11] == '"'
  }

  /** `"></a>` at `w`. */
  predicate LaidTail(t: string, w: nat) {
    && w + 6 <= |t|
    && t[w] == '"' && t[w + 1] == '>' && t[w + 2] == '<' && t[w + 3] == '/' && t[w + 4] == 'a' && t[w + 5] == '>'
  }

  // Used by LaidOut.
  lemma Layout(t: string, p: nat, href: string, src: string)
    requires OccursAt(t, p, LinkedImage(href, src))
    ensures OccursAt(t, p, "<a " + HrefAttr)
    ensures OccursAt(t, p + 9, href)
    ensures OccursAt(t, p + 9 + |href|, "\">" + ImgOpen + " " + SrcAttr)
    ensures OccursAt(t, p + 21 + |href|, src)
    ensures OccursAt(t, p + 21 + |href| + |src|, "\">" + AnchorClose)
  {
    var a1 := "<a " + HrefAttr;
    var a2 := a1 + href;
    var a3 := a2 + ("\">" + ImgOpen + " " + SrcAttr);
    var a4 := a3 + src;
    assert LinkedImage(href, src) == a4 + ("\">" + AnchorClose);
    OccursAtSplit(t, p, a4, "\">" + AnchorClose);
    OccursAtSplit(t, p, a3, src);
    OccursAtSplit(t, p, a2, "\">" + ImgOpen + " " + SrcAttr);
    OccursAtSplit(t, p, a1, href);
  }

  // Used by LaidOut.
  lemma LaidHeadOf(t: string, p: nat)
    requires OccursAt(t, p, "<a " + HrefAttr)
    ensures LaidHead(t, p)
  {
    OccursAtChars(t, p, "<a " + HrefAttr);
  }

  // Used by LaidOut.
  lemma LaidMiddleOf(t: string, q: nat)
    requires OccursAt(t, q, "\">" + ImgOpen + " " + SrcAttr)
    ensures LaidMiddle(t, q)
  {
    OccursAtChars(t, q, "\">" + ImgOpen + " " + SrcAttr);
  }

  // Used by LaidOut.
  lemma LaidTailOf(t: string, w: nat)
    requires OccursAt(t, w, "\">" + AnchorClose)
    ensures LaidTail(t, w)
  {
    OccursAtChars(t, w, "\">" + AnchorClose);
  }

  // Used by LinkedMatch.
  lemma LaidOut(t: string, p: nat, href: string, src: string)
    requires OccursAt(t, p, LinkedImage(href, src))
    ensures Laid(t, p, href, src)
  {
    Layout(t, p, href, src);
    LaidHeadOf(t, p);
    OccursAtChars(t, p + 9, href);
    LaidMiddleOf(t, p + 9 + |href|);
    OccursAtChars(t, p + 21 + |href|, src);
    LaidTailOf(t, p + 21 + |href| + |src|);
  }

  /** In front of `href` the only candidate is the attribute itself. */
  lemma HrefOnce(t: string, p: nat, href: string, src: string)
    requires Laid(t, p, href, src) && PlainUrl(href)
    ensures IndexOf(t, '>', p + 2) == p + 10 + |href|
    ensures HrefAt(t, p + 3)
    ensures forall h :: p + 3 < h <= p + 10 + |href| ==> !HrefAt(t, h)
    ensures QuoteFree(t, p + 9) == |href|
  {
    var q := p + 9 + |href|;
    assert forall j :: p + 9 <= j < q ==> t[j] == href[j - (p + 9)];
    IndexOfIs(t, '>', p + 2, q + 1);
    IndexOfIs(t, '"', p + 9, q);
    assert t[p + 3..p + 9] == HrefAttr;
    forall h | p + 3 < h <= q + 1
      ensures !HrefAt(t, h)
    {
      NotOccursAt(t, h, HrefAttr, 4);
    }
  }

  /** In front of `src` the only candidate is the attribute itself. */
  lemma SrcOnce(t: string, p: nat, href: string, src: string)
    requires Laid(t, p, href, src) && PlainUrl(src)
    ensures IndexOf(t, '>', p + 15 + |href|) == p + 22 + |href| + |src|
    ensures SrcAt(t, p + 16 + |href|)
    ensures forall s :: p + 16 + |href| < s <= p + 22 + |href| + |src| ==> !SrcAt(t, s)
  {
    var v := p + 21 + |href|;
    var w := v + |src|;
    assert forall j :: v <= j < w ==> t[j] == src[j - v];
    IndexOfIs(t, '>', v - 6, w + 1);
    assert t[v - 5..v] == SrcAttr;
    forall s | v - 5 < s <= w + 1
      ensures !SrcAt(t, s)
    {
      NotOccursAt(t, s, SrcAttr, 3);
    }
  }

  /** After `src="` the back-reference and the closing `"` match exactly when
      the URL group is the whole of `src`. */
  lemma CloseLinked(t: string, p: nat, href: string, src: string, k: nat)
    requires Laid(t, p, href, src) && PlainUrl(href) && PlainUrl(src)
    requires 1 <= k <= |href|
    ensures CloseAt(t, p + 9, k, p + 21 + |href|)
         == if k == |src| && href[..k] == src then Some(p + 23 + |href| + |src|) else None
  {
    var g, v := p + 9, p + 21 + |href|;
    var w := v + |src|;
    if k < |src| {
      assert t[v + k] == src[k];
    } else if k > |src| {
      if v + k < |t| {
        assert t[v..v + k][|src|] == t[w];
        assert t[g..g + k][|src|] == href[|src|];
      }
    } else {
      assert t[v..v + k] == src;
      assert t[g..g + k] == href[..k];
      IndexOfIs(t, '>', w + 1, w + 1);
      assert t[w + 2..w + 6] == AnchorClose;
    }
  }

  // Used by TrySrcOnly.
  lemma {:induction false} TrySrcDown(t: string, g: nat, k: nat, lo: nat, s: nat, s0: nat)
    requires 1 <= lo <= s0 <= s <= |t| && g + k <= |t|
    requires forall j :: s0 < j <= s ==> !SrcAt(t, j)
    ensures TrySrc(t, g, k, lo, s) == TrySrc(t, g, k, lo, s0)
    decreases s
  {
    if s0 < s {
      TrySrcDown(t, g, k, lo, s - 1, s0);
    }
  }

  /** The rest of the pattern after a URL group of `k` characters. */
  lemma ImgLinked(t: string, p: nat, href: string, src: string, k: nat)
    requires Laid(t, p, href, src) && PlainUrl(href) && PlainUrl(src)
    requires 1 <= k <= |href|
    ensures TryImg(t, p + 9, k)
         == if k == |src| && href[..k] == src
            then Some(Match(p + 11 + |href|, p + 23 + |href| + |src|, p + 27 + |href| + |src|))
            else None
  {
    ImgTagAfterGroup(t, p, href, src, k);
    SrcOnce(t, p, href, src);
    TrySrcLinked(t, p, href, src, k);
    ImgAtPositions(t, p + 9, k, p + 10 + |href|, p + 11 + |href|, p + 15 + |href|, p + 16 + |href|,
      p + 22 + |href| + |src|, p + 23 + |href| + |src|, p + 27 + |href| + |src|, k == |src| && href[..k] == src);
  }

  /** `ImgAt` with every position it mentions given by name. */
  lemma ImgAtPositions(t: string, g: nat, k: nat, c: nat, c1: nat, c5: nat, c6: nat, e: nat, e1: nat, e5: nat, b: bool)
    requires c1 == c + 1 && c5 == c + 5 && c6 == c + 6 && e1 == e + 1 && e5 == e + 5
    requires g + k <= |t| && c5 <= |t|
    requires IndexOf(t, '>', g + k) == c && OccursAt(t, c1, ImgOpen)
    requires IndexOf(t, '>', c5) == e
    requires TrySrc(t, g, k, c6, e) == if b then Some(e1) else None
    ensures TryImg(t, g, k) == if b then Some(Match(c1, e1, e5)) else None
  {
    ImgAt(t, g, k, c, e, b);
  }

  /** `TryImg` once the tag's `>`, the `<img`, the image tag's `>` and the
      result of the `src` search are known. */
  lemma ImgAt(t: string, g: nat, k: nat, c: nat, e: nat, b: bool)
    requires g + k <= |t| && IndexOf(t, '>', g + k) == c && OccursAt(t, c + 1, ImgOpen)
    requires c + 5 <= |t| && IndexOf(t, '>', c + 5) == e
    requires TrySrc(t, g, k, c + 6, e) == if b then Some(e + 1) else None
    ensures TryImg(t, g, k) == if b then Some(Match(c + 1, e + 1, e + 5)) else None
  {
  }

  /** The `[^>]+` in front of `src` can only end at the attribute itself. */
  lemma TrySrcLinked(t: string, p: nat, href: string, src: string, k: nat)
    requires Laid(t, p, href, src) && PlainUrl(href) && PlainUrl(src)
    requires 1 <= k <= |href|
    ensures TrySrc(t, p + 9, k, p + 16 + |href|, p + 22 + |href| + |src|)
         == if k == |src| && href[..k] == src then Some(p + 23 + |href| + |src|) else None
  {
    var g, lo := p + 9, p + 16 + |href|;
    SrcOnce(t, p, href, src);
    CloseLinked(t, p, href, src, k);
    TrySrcOnly(t, g, k, lo, p + 22 + |href| + |src|);
  }

  // Used by TrySrcLinked.
  lemma TrySrcOnly(t: string, g: nat, k: nat, lo: nat, s: nat)
    requires 1 <= lo <= s <= |t| && g + k <= |t| && SrcAt(t, lo)
    requires forall j :: lo < j <= s ==> !SrcAt(t, j)
    ensures TrySrc(t, g, k, lo, s) == CloseAt(t, g, k, lo + 5)
  {
    TrySrcDown(t, g, k, lo, s, lo);
  }

  // Used by ImgLinked.
  lemma ImgTagAfterGroup(t: string, p: nat, href: string, src: string, k: nat)
    requires Laid(t, p, href, src) && PlainUrl(href)
    requires k <= |href|
    ensures IndexOf(t, '>', p + 9 + k) == p + 10 + |href|
    ensures OccursAt(t, p + 11 + |href|, ImgOpen)
  {
    var q := p + 9 + |href|;
    assert forall j :: p + 9 + k <= j < q ==> t[j] == href[j - (p + 9)];
    IndexOfIs(t, '>', p + 9 + k, q + 1);
    assert t[q + 2..q + 6] == ImgOpen;
  }

  // Used by GroupLinked.
  lemma TryGroupDown(t: string, g: nat, k: nat, k0: nat)
    requires k0 <= k && g + k <= |t|
    requires forall j :: k0 < j <= k ==> TryImg(t, g, j).None?
    ensures TryGroup(t, g, k) == TryGroup(t, g, k0)
  {
    var cs := ImgChoices(t, g, k);
    forall j | k0 <= j < k
      ensures cs[j].None?
    {
      ImgChoicesAt(t, g, k, j + 1);
    }
    LastSomeSkip(cs, k0);
    ImgChoicesPrefix(t, g, k, k0);
  }

  /** Choices that do not match are passed over. */
  lemma {:induction false} LastSomeSkip(cs: seq<Option<Match>>, n: nat)
    requires n <= |cs| && forall j :: n <= j < |cs| ==> cs[j].None?
    ensures LastSome(cs) == LastSome(cs[..n])
    decreases |cs|
  {
    if n < |cs| {
      var front := cs[..|cs| - 1];
      assert front[..n] == cs[..n];
      LastSomeSkip(front, n);
    } else {
      assert cs[..n] == cs;
    }
  }

  // Used by TryGroupDown.
  lemma {:induction false} ImgChoicesAt(t: string, g: nat, k: nat, j: nat)
    requires 1 <= j <= k && g + k <= |t|
    ensures ImgChoices(t, g, k)[j - 1] == TryImg(t, g, j)
    decreases k
  {
    ImgChoicesStep(t, g, k);
    if j < k {
      ImgChoicesAt(t, g, k - 1, j);
      SnocAt(ImgChoices(t, g, k - 1), TryImg(t, g, k), j - 1);
    } else {
      SnocAt(ImgChoices(t, g, k - 1), TryImg(t, g, k), k - 1);
    }
  }

  // Used by ImgChoicesAt.
  lemma ImgChoicesStep(t: string, g: nat, k: nat)
    requires 1 <= k && g + k <= |t|
    ensures ImgChoices(t, g, k) == ImgChoices(t, g, k - 1) + [TryImg(t, g, k)]
  {
  }

  // Used by ImgChoicesAt.
  lemma SnocAt(cs: seq<Option<Match>>, c: Option<Match>, i: nat)
    requires i <= |cs|
    ensures (cs + [c])[i] == if i == |cs| then c else cs[i]
  {
  }

  // Used by TryGroupDown.
  lemma {:induction false} ImgChoicesPrefix(t: string, g: nat, k: nat, k0: nat)
    requires k0 <= k && g + k <= |t|
    ensures ImgChoices(t, g, k)[..k0] == ImgChoices(t, g, k0)
    decreases k
  {
    if k0 < k {
      ImgChoicesPrefix(t, g, k - 1, k0);
      assert ImgChoices(t, g, k)[..k - 1] == ImgChoices(t, g, k - 1);
    } else {
      assert ImgChoices(t, g, k)[..k0] == ImgChoices(t, g, k);
    }
  }

  /** The longest group after which the rest matches is taken. */
  lemma TryGroupTop(t: string, g: nat, k: nat)
    requires 1 <= k && g + k <= |t| && TryImg(t, g, k).Some?
    ensures TryGroup(t, g, k) == TryImg(t, g, k)
  {
    assert ImgChoices(t, g, k)[k - 1] == TryImg(t, g, k);
  }

  // Used by HrefOnly.
  lemma {:induction false} TryHrefDown(t: string, lo: nat, h: nat, h0: nat)
    requires 1 <= lo <= h0 <= h <= |t|
    requires forall j :: h0 < j <= h ==> !HrefAt(t, j)
    ensures TryHref(t, lo, h) == TryHref(t, lo, h0)
    decreases h
  {
    if h0 < h {
      TryHrefDown(t, lo, h - 1, h0);
    }
  }

  /** The URL group gives up characters until the back-reference fits. */
  lemma GroupLinked(t: string, p: nat, href: string, src: string)
    requires Laid(t, p, href, src) && PlainUrl(href) && PlainUrl(src)
    ensures TryGroup(t, p + 9, |href|)
         == if PrefixTarget(src, href)
            then Some(Match(p + 11 + |href|, p + 23 + |href| + |src|, p + 27 + |href| + |src|))
            else None
  {
    var g := p + 9;
    var m := Match(p + 11 + |href|, p + 23 + |href| + |src|, p + 27 + |href| + |src|);
    forall j | 1 <= j <= |href|
      ensures TryImg(t, g, j) == if j == |src| && href[..j] == src then Some(m) else None
    {
      ImgLinked(t, p, href, src, j);
    }
    if PrefixTarget(src, href) {
      TryGroupDown(t, g, |href|, |src|);
      TryGroupTop(t, g, |src|);
    } else {
      TryGroupDown(t, g, |href|, 0);
    }
  }

  /** At a link around an image the pattern matches exactly when the image's
      `src` is a non-empty prefix of the link's `href`, and then the match runs
      from `<a` to `</a>` and keeps the `<img…>` tag. */
  lemma MatchAtLinked(t: string, p: nat, href: string, src: string)
    requires Laid(t, p, href, src) && PlainUrl(href) && PlainUrl(src)
    ensures MatchAt(t, p)
         == if PrefixTarget(src, href)
            then Some(Match(p + 11 + |href|, p + 23 + |href| + |src|, p + 27 + |href| + |src|))
            else None
  {
    assert t[p..p + 2] == AnchorOpen;
    HrefOnce(t, p, href, src);
    GroupLinked(t, p, href, src);
    MatchAtGroup(t, p, p + 10 + |href|);
  }

  /** With a single `href="` in the opening tag the match is the URL group's. */
  lemma MatchAtGroup(t: string, p: nat, h: nat)
    requires OccursAt(t, p, AnchorOpen) && IndexOf(t, '>', p + 2) == h
    requires p + 3 <= h && HrefAt(t, p + 3)
    requires forall j :: p + 3 < j <= h ==> !HrefAt(t, j)
    ensures MatchAt(t, p) == TryGroup(t, p + 9, QuoteFree(t, p + 9))
  {
    HrefOnly(t, p + 3, h);
  }

  /** Only one place can hold `href="`: the URL group starts after it. */
  lemma HrefOnly(t: string, lo: nat, h: nat)
    requires 1 <= lo <= h <= |t| && HrefAt(t, lo)
    requires forall j :: lo < j <= h ==> !HrefAt(t, j)
    ensures TryHref(t, lo, h) == TryGroup(t, lo + 6, QuoteFree(t, lo + 6))
  {
    TryHrefDown(t, lo, h, lo);
  }

  /** No `<a` inside a link around an image after its own. */
  lemma InnerHasNoAnchor(t: string, p: nat, href: string, src: string)
    requires Laid(t, p, href, src) && PlainUrl(href) && PlainUrl(src)
    ensures forall j :: p < j < p + 27 + |href| + |src| ==> !OccursAt(t, j, AnchorOpen)
  {
    var q := p + 9 + |href|;
    var v := q + 12;
    forall j | p < j < v + |src| + 6
      ensures !OccursAt(t, j, AnchorOpen)
    {
      if p + 9 <= j < q {
        assert t[j] == href[j - (p + 9)];
      } else if v <= j < v + |src| {
        assert t[j] == src[j - v];
      }
      if t[j] != '<' {
        NotOccursAt(t, j, AnchorOpen, 0);
      } else {
        NotOccursAt(t, j, AnchorOpen, 1);
      }
    }
  }

  /** The whole filter on a link around an image with link-free text on either
      side: the link is replaced by the image exactly when the image's `src` is
      a non-empty prefix of the link's `href`, and otherwise the text is kept
      as it is. */
  lemma LinkedImageFiltered(pre: string, href: string, src: string, post: string)
    requires NoAnchorOpen(pre) && NoAnchorOpen(post) && PlainUrl(href) && PlainUrl(src)
    ensures RemoveImageLinks(pre + LinkedImage(href, src) + post)
         == if PrefixTarget(src, href) then pre + Img(src) + post else pre + LinkedImage(href, src) + post
  {
    Around(pre, LinkedImage(href, src), post);
    FilteredAt(pre + LinkedImage(href, src) + post, pre, href, src, post);
  }

  lemma FilteredAt(t: string, pre: string, href: string, src: string, post: string)
    requires OccursAt(t, |pre|, LinkedImage(href, src)) && PlainUrl(href) && PlainUrl(src)
    requires t[..|pre|] == pre && t[|pre| + |LinkedImage(href, src)|..] == post
    requires forall j :: 0 <= j < |pre| ==> !OccursAt(t, j, AnchorOpen)
    requires forall j :: |pre| + |LinkedImage(href, src)| <= j < |t| ==> !OccursAt(t, j, AnchorOpen)
    ensures RemoveImageLinks(t) == if PrefixTarget(src, href) then pre + Img(src) + post else t
  {
    var p := |pre|;
    LinkMatches(t, p, href, src);
    var m := Match(p + 11 + |href|, p + 23 + |href| + |src|, p + 27 + |href| + |src|);
    if PrefixTarget(src, href) {
      ScanReplaced(t, Matches(t), p, m);
      Respell(Scan(t, Matches(t), 0), t[..p], t[m.imgStart..m.imgEnd], t[m.end..], pre, Img(src), post);
    } else {
      ScanKept(t, Matches(t));
    }
  }

  // Used by FilteredAt.
  lemma Respell(a: string, x: string, y: string, z: string, x': string, y': string, z': string)
    requires a == x + y + z && x == x' && y == y' && z == z'
    ensures a == x' + y' + z'
  {
  }

  /** Where the pieces of `pre + a + post` lie, for `a` starting with `<`. */
  lemma Around(pre: string, a: string, post: string)
    requires NoAnchorOpen(pre) && NoAnchorOpen(post) && a != [] && a[0] == '<'
    ensures OccursAt(pre + a + post, |pre|, a)
    ensures (pre + a + post)[..|pre|] == pre && (pre + a + post)[|pre + a|..] == post
    ensures forall j :: 0 <= j < |pre| ==> !OccursAt(pre + a + post, j, AnchorOpen)
    ensures forall j :: |pre + a| <= j < |pre + a + post| ==> !OccursAt(pre + a + post, j, AnchorOpen)
  {
    var t := pre + a + post;
    assert t[|pre|..|pre| + |a|] == a;
    assert t == pre + (a + post);
    AnchorsInConcat(pre, a + post);
    AnchorsInConcat(pre + a, post);
    forall j | |pre + a| <= j < |t|
      ensures !OccursAt(t, j, AnchorOpen)
    {
      assert OccursAt(t, |pre + a| + (j - |pre + a|), AnchorOpen) <==> OccursAt(post, j - |pre + a|, AnchorOpen);
    }
  }

  /** Where the pattern matches in text holding one link around an image with
      link-free text on either side: only at the link, and there exactly when
      the image's `src` is a prefix of its `href`. */
  lemma LinkMatches(t: string, p: nat, href: string, src: string)
    requires OccursAt(t, p, LinkedImage(href, src)) && PlainUrl(href) && PlainUrl(src)
    requires forall j :: 0 <= j < p ==> !OccursAt(t, j, AnchorOpen)
    requires forall j :: p + |LinkedImage(href, src)| <= j < |t| ==> !OccursAt(t, j, AnchorOpen)
    ensures var e := p + 27 + |href| + |src|;
      && |LinkedImage(href, src)| == 27 + |href| + |src| && e <= |t|
      && Matches(t)[p] == (if PrefixTarget(src, href) then Some(Match(p + 11 + |href|, p + 23 + |href| + |src|, e)) else None)
      && (forall j :: 0 <= j < p ==> Matches(t)[j] == None)
      && (forall j :: p < j < |t| ==> Matches(t)[j] == None)
    ensures PrefixTarget(src, href) ==> t[p + 11 + |href|..p + 23 + |href| + |src|] == Img(src)
    ensures t[..p] + t[p..p + 27 + |href| + |src|] + t[p + 27 + |href| + |src|..] == t
    ensures t[p..p + 27 + |href| + |src|] == LinkedImage(href, src)
  {
    var e := p + 27 + |href| + |src|;
    LinkedMatch(t, p, href, src);
    MatchesAt(t, p);
    NoAnchorNoMatch(t, 0, p);
    NoAnchorNoMatch(t, p + 1, e);
    NoAnchorNoMatch(t, e, |t|);
    assert t[..p] + t[p..e] + t[e..] == t;
  }

  /** What the pattern does at a link around an image, in the terms the scan
      needs. */
  lemma LinkedMatch(t: string, p: nat, href: string, src: string)
    requires OccursAt(t, p, LinkedImage(href, src)) && PlainUrl(href) && PlainUrl(src)
    ensures |LinkedImage(href, src)| == 27 + |href| + |src|
    ensures p + 27 + |href| + |src| <= |t|
    ensures MatchAt(t, p)
         == if PrefixTarget(src, href)
            then Some(Match(p + 11 + |href|, p + 23 + |href| + |src|, p + 27 + |href| + |src|))
            else None
    ensures PrefixTarget(src, href) ==> t[p + 11 + |href|..p + 23 + |href| + |src|] == Img(src)
    ensures forall j :: p < j < p + 27 + |href| + |src| ==> !OccursAt(t, j, AnchorOpen)
  {
    LaidOut(t, p, href, src);
    MatchAtLinked(t, p, href, src);
    ImgSlice(t, p, href, src);
    InnerHasNoAnchor(t, p, href, src);
  }

  // Used by LinkedMatch.
  lemma ImgSlice(t: string, p: nat, href: string, src: string)
    requires Laid(t, p, href, src)
    ensures t[p + 11 + |href|..p + 23 + |href| + |src|] == Img(src)
  {
    var q := p + 9 + |href|;
    var i := t[q + 2..q + 14 + |src|];
    assert Img(src) == ImgOpen + " " + SrcAttr + src + "\">";
    assert |i| == |Img(src)|;
    forall j | 0 <= j < |i|
      ensures i[j] == Img(src)[j]
    {
      if 10 <= j < 10 + |src| {
        assert i[j] == src[j - 10];
      }
    }
  }

  /** A link to a larger version of the image whose name the image's `src`
      begins with is unwrapped all the same. */
  lemma PrefixTargetUnwrapped(href: string, src: string)
    requires href == "photo.jpg" && src == "photo"
    ensures RemoveImageLinks(LinkedImage(href, src)) == Img(src)
  {
    assert PlainUrl(href) && PlainUrl(src);
    assert href[..|src|] == src;
    LinkedImageFiltered("", href, src, "");
    assert "" + LinkedImage(href, src) + "" == LinkedImage(href, src);
    assert "" + Img(src) + "" == Img(src);
  }
}
