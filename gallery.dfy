/** GalleryFilter: each `[gallery ids="…"]` shortcode is replaced by one
    `<img>` tag per listed attachment that the registry knows, joined by blank
    lines. The pattern is `\[gallery ids="([0-9,]+)[^]]+\]`. */
module GalleryFilter {
  import opened Wrappers
  import opened Strings

  const ShortcodeOpen := "[gallery ids=\""
  const TagSeparator := "\n\n"

  predicate IsIdChar(c: char) {
    ('0' <= c <= '9') || c == ','
  }

  /** The end of the run of digits and commas that starts at `from`. */
  function IdRun(text: string, from: nat): (r: nat)
    requires from <= |text|
    ensures from <= r <= |text|
    ensures forall j :: from <= j < r ==> IsIdChar(text[j])
    ensures r < |text| ==> !IsIdChar(text[r])
    decreases |text| - from
  {
    if from == |text| || !IsIdChar(text[from]) then from else IdRun(text, from + 1)
  }

  /** A shortcode at the front of the text: its id list and its length. */
  datatype Shortcode = Shortcode(group: string, length: nat)

  /** The pattern at the front of `text`. The id group is greedy, `[^]]+`
      needs at least one character before the first `]`, so when that `]`
      follows the ids directly the group gives its last character back. */
  function MatchGallery(text: string): (r: Option<Shortcode>)
    ensures r.Some? ==> 0 < r.value.length <= |text|
    ensures r.Some? ==> r.value.group != [] && forall j :: 0 <= j < |r.value.group| ==> IsIdChar(r.value.group[j])
  {
    if !StartsWith(text, ShortcodeOpen) then None
    else
      var k := IdRun(text, 14);
      var e := IndexOf(text, ']', 14);
      if e == |text| || k == 14 then None
      else if e > k then Some(Shortcode(text[14..k], e + 1))
      else if k - 14 >= 2 then Some(Shortcode(text[14..k - 1], e + 1))
      else None
  }

  /** The tag `image_markup` builds for one attachment. */
  function ImgTag(id: string, url: string): string {
    "<img class=\"wp-image-" + id + "\" src=\"" + url + "\">"
  }

  /** The ids the registry knows, in order, duplicates kept. */
  function KnownIds(urls: map<string, string>, ids: seq<string>): (r: seq<string>)
    ensures |r| <= |ids|
    ensures forall i :: 0 <= i < |r| ==> r[i] in urls
  {
    if ids == [] then [] else (if ids[0] in urls then [ids[0]] else []) + KnownIds(urls, ids[1..])
  }

  /** One tag per known id. */
  function GalleryTags(urls: map<string, string>, ids: seq<string>): seq<string> {
    var known := KnownIds(urls, ids);
    seq(|known|, i requires 0 <= i < |known| => ImgTag(known[i], urls[known[i]]))
  }

  /** What `image_markup` returns for the id list `group`. */
  function Markup(urls: map<string, string>, group: string): string {
    Join(GalleryTags(urls, Split(group, ',')), TagSeparator)
  }

  /** GalleryFilter.image_markup: the tags are collected in a loop over the ids. */
  method ImageMarkup(urls: map<string, string>, group: string) returns (markup: string)
    ensures markup == Markup(urls, group)
  {
    var ids := Split(group, ',');
    var tags: seq<string> := [];
    var i := 0;
    while i < |ids|
      invariant 0 <= i <= |ids|
      invariant tags == GalleryTags(urls, ids[..i])
    {
      var id := ids[i];
      GalleryTagsSnoc(urls, ids[..i], id);
      assert ids[..i + 1] == ids[..i] + [id];
      if id in urls {
        tags := tags + [ImgTag(id, urls[id])];
      }
      i := i + 1;
    }
    assert ids[..i] == ids;
    markup := Join(tags, TagSeparator);
  }

  /** GalleryFilter.__call__: `re.sub` with `image_markup` as the replacement. */
  function Gallery(urls: map<string, string>, text: string): (r: string)
    decreases |text|
  {
    if text == [] then []
    else match MatchGallery(text)
      case Some(m) => Markup(urls, m.group) + Gallery(urls, text[m.length..])
      case None => [text[0]] + Gallery(urls, text[1..])
  }

  // ---------------------------------------------------------------------------
  // The ids that are kept

  lemma {:induction false} KnownIdsAppend(urls: map<string, string>, a: seq<string>, b: seq<string>)
    ensures KnownIds(urls, a + b) == KnownIds(urls, a) + KnownIds(urls, b)
  {
    if a == [] {
      assert a + b == b;
    } else {
      assert (a + b)[1..] == a[1..] + b;
      KnownIdsAppend(urls, a[1..], b);
    }
  }

  /** One more id adds its tag when the registry knows it. */
  lemma GalleryTagsSnoc(urls: map<string, string>, ids: seq<string>, id: string)
    ensures GalleryTags(urls, ids + [id])
         == GalleryTags(urls, ids) + (if id in urls then [ImgTag(id, urls[id])] else [])
  {
    KnownIdsAppend(urls, ids, [id]);
    assert KnownIds(urls, [id]) == if id in urls then [id] else [] by {
      assert [id][1..] == [];
    }
  }

  /** An id the registry knows is kept as often as it is listed; any other id
      is dropped. */
  lemma {:induction false} KnownIdsCount(urls: map<string, string>, ids: seq<string>, x: string)
    ensures multiset(KnownIds(urls, ids))[x] == if x in urls then multiset(ids)[x] else 0
  {
    if ids != [] {
      KnownIdsCount(urls, ids[1..], x);
      assert ids == [ids[0]] + ids[1..];
    }
  }

  /** When the registry knows every id, all of them are kept, in order. */
  lemma {:induction false} AllKnown(urls: map<string, string>, ids: seq<string>)
    requires forall i :: 0 <= i < |ids| ==> ids[i] in urls
    ensures KnownIds(urls, ids) == ids
  {
    if ids != [] {
      AllKnown(urls, ids[1..]);
    }
  }

  /** When the registry knows none of the ids, the shortcode becomes `''`. */
  lemma {:induction false} NoneKnown(urls: map<string, string>, group: string)
    requires forall i :: 0 <= i < |Split(group, ',')| ==> Split(group, ',')[i] !in urls
    ensures Markup(urls, group) == ""
  {
    NoneKnownIds(urls, Split(group, ','));
  }

  // Used by NoneKnown.
  lemma {:induction false} NoneKnownIds(urls: map<string, string>, ids: seq<string>)
    requires forall i :: 0 <= i < |ids| ==> ids[i] !in urls
    ensures KnownIds(urls, ids) == []
  {
    if ids != [] {
      NoneKnownIds(urls, ids[1..]);
    }
  }

  /** The markup for a comma-separated id list: one tag per known id, in the
      order of the list, joined by blank lines. */
  lemma MarkupOfIds(urls: map<string, string>, ids: seq<string>)
    requires |ids| >= 1 && forall i :: 0 <= i < |ids| ==> ',' !in ids[i]
    ensures Markup(urls, Join(ids, ",")) == Join(GalleryTags(urls, ids), TagSeparator)
  {
    JoinSplit(ids, ',');
  }

  /** Of three listed ids the registry knows the first two: the markup holds
      their tags in that order and the third id is dropped. */
  lemma ThirdIdDropped(urls: map<string, string>, a: string, b: string, c: string)
    requires ',' !in a && ',' !in b && ',' !in c
    requires a in urls && b in urls && c !in urls
    ensures Markup(urls, a + "," + (b + "," + c)) == ImgTag(a, urls[a]) + TagSeparator + ImgTag(b, urls[b])
  {
    var ids := [a, b, c];
    assert ids[1..][1..] == [c];
    assert Join(ids[1..], ",") == b + "," + c;
    assert Join(ids, ",") == a + "," + (b + "," + c);
    MarkupOfIds(urls, ids);
    assert KnownIds(urls, ids[1..][1..]) == [] by {
      assert ids[1..][1..][1..] == [];
    }
    assert KnownIds(urls, ids) == [a, b];
    var tags := GalleryTags(urls, ids);
    assert tags[1..] == [ImgTag(b, urls[b])];
  }

  // ---------------------------------------------------------------------------
  // Text around shortcodes

  /** Text in front of which no shortcode starts is copied unchanged. */
  lemma {:induction false} GalleryPlain(urls: map<string, string>, pre: string, rest: string)
    requires forall j :: 0 <= j < |pre| ==> MatchGallery((pre + rest)[j..]).None?
    ensures Gallery(urls, pre + rest) == pre + Gallery(urls, rest)
  {
    if pre != [] {
      NoMatchShift(pre, rest);
      GalleryCopies(urls, pre + rest);
      GalleryPlain(urls, pre[1..], rest);
      ConsGlue(pre, rest, Gallery(urls, rest));
    } else {
      assert pre + rest == rest;
    }
  }

  // Used by GalleryPlain.
  lemma NoMatchShift(pre: string, rest: string)
    requires pre != []
    requires forall j :: 0 <= j < |pre| ==> MatchGallery((pre + rest)[j..]).None?
    ensures MatchGallery(pre + rest).None?
    ensures forall j :: 0 <= j < |pre[1..]| ==> MatchGallery((pre[1..] + rest)[j..]).None?
  {
    assert (pre + rest)[0..] == pre + rest;
    forall j | 0 <= j < |pre[1..]|
      ensures MatchGallery((pre[1..] + rest)[j..]).None?
    {
      assert (pre[1..] + rest)[j..] == (pre + rest)[j + 1..];
    }
  }

  // Used by GalleryPlain.
  lemma GalleryCopies(urls: map<string, string>, t: string)
    requires t != [] && MatchGallery(t).None?
    ensures Gallery(urls, t) == [t[0]] + Gallery(urls, t[1..])
  {
  }

  /** A shortcode starts only at a `[`. Used by NoBracketUnchanged. */
  lemma NoBracketNoMatch(text: string)
    requires text != [] && text[0] != '['
    ensures MatchGallery(text).None?
  {
    assert |text| >= 14 ==> text[..14][0] == text[0];
  }

  /** Text where no shortcode starts is returned unchanged. */
  lemma NoShortcodeUnchanged(urls: map<string, string>, text: string)
    requires forall j :: 0 <= j < |text| ==> MatchGallery(text[j..]).None?
    ensures Gallery(urls, text) == text
  {
    assert text + "" == text;
    GalleryPlain(urls, text, "");
  }

  /** In particular text without `[` is returned unchanged. */
  lemma NoBracketUnchanged(urls: map<string, string>, text: string)
    requires '[' !in text
    ensures Gallery(urls, text) == text
  {
    forall j | 0 <= j < |text|
      ensures MatchGallery(text[j..]).None?
    {
      assert text[j..][0] == text[j];
      NoBracketNoMatch(text[j..]);
    }
    NoShortcodeUnchanged(urls, text);
  }

  /** The usual shortcode `[gallery ids="…" …]`: the id list is a non-empty run
      of digits and commas followed by at least one other character before
      the closing `]`. */
  function ShortcodeText(group: string, attrs: string): string {
    ShortcodeOpen + group + attrs + "]"
  }

  lemma MatchShortcode(group: string, attrs: string, post: string)
    requires group != [] && forall j :: 0 <= j < |group| ==> IsIdChar(group[j])
    requires attrs != [] && !IsIdChar(attrs[0]) && ']' !in attrs
    ensures MatchGallery(ShortcodeText(group, attrs) + post) == Some(Shortcode(group, |ShortcodeText(group, attrs)|))
  {
    var s := ShortcodeText(group, attrs);
    var t := s + post;
    var k := 14 + |group|;
    var e := k + |attrs|;
    assert t[..14] == ShortcodeOpen;
    assert forall j :: 14 <= j < k ==> t[j] == group[j - 14];
    assert t[k] == attrs[0];
    assert forall j :: k <= j < e ==> t[j] == attrs[j - k];
    assert t[e] == ']';
    IdRunIs(t, 14, k);
    IndexOfIs(t, ']', 14, e);
    assert t[14..k] == group;
  }

  // Used by ClosingBracketTakesADigit and MatchShortcode.
  lemma IdRunIs(text: string, from: nat, r: nat)
    requires from <= r < |text| && !IsIdChar(text[r])
    requires forall j :: from <= j < r ==> IsIdChar(text[j])
    ensures IdRun(text, from) == r
    decreases r - from
  {
    if from < r {
      IdRunIs(text, from + 1, r);
    }
  }

  /** The leftmost shortcode is replaced by its markup, the text in front of
      it is kept, and the filter goes on after it. */
  lemma ShortcodeExpanded(urls: map<string, string>, pre: string, group: string, attrs: string, post: string)
    requires forall j :: 0 <= j < |pre| ==> MatchGallery((pre + ShortcodeText(group, attrs) + post)[j..]).None?
    requires group != [] && forall j :: 0 <= j < |group| ==> IsIdChar(group[j])
    requires attrs != [] && !IsIdChar(attrs[0]) && ']' !in attrs
    ensures Gallery(urls, pre + ShortcodeText(group, attrs) + post)
         == pre + Markup(urls, group) + Gallery(urls, post)
  {
    ConcatAssoc(pre, ShortcodeText(group, attrs), post);
    GalleryPlain(urls, pre, ShortcodeText(group, attrs) + post);
    MatchShortcode(group, attrs, post);
    GalleryMatched(urls, ShortcodeText(group, attrs) + post, Shortcode(group, |ShortcodeText(group, attrs)|));
    ExpandedGlue(urls, pre, ShortcodeText(group, attrs), post, group);
  }

  // Used by ShortcodeExpanded.
  lemma GalleryMatched(urls: map<string, string>, text: string, m: Shortcode)
    requires MatchGallery(text) == Some(m)
    ensures Gallery(urls, text) == Markup(urls, m.group) + Gallery(urls, text[m.length..])
  {
  }

  // Used by ShortcodeExpanded.
  lemma ExpandedGlue(urls: map<string, string>, pre: string, s: string, post: string, group: string)
    requires Gallery(urls, pre + (s + post)) == pre + Gallery(urls, s + post)
    requires Gallery(urls, s + post) == Markup(urls, group) + Gallery(urls, (s + post)[|s|..])
    ensures Gallery(urls, pre + s + post) == pre + Markup(urls, group) + Gallery(urls, post)
  {
    ConcatAssoc(pre, s, post);
    DropPrefix(s, post);
  }

  /** When `]` follows the ids directly, the group gives its last character
      to `[^]]+`: that id loses its final digit. */
  /** The other branch of the pattern: when `]` follows the id list directly,
      `[^]]+` takes its last character, so the group is the list without it;
      a single id character leaves nothing for the group, and there is no
      match. */
  lemma ClosingBracketGivesBack(group: string, post: string)
    requires group != [] && forall j :: 0 <= j < |group| ==> IsIdChar(group[j])
    ensures MatchGallery(ShortcodeOpen + group + "]" + post)
         == if |group| >= 2 then Some(Shortcode(group[..|group| - 1], |ShortcodeOpen + group + "]"|)) else None
  {
    var t := ShortcodeOpen + group + "]" + post;
    var k := 14 + |group|;
    assert t[..14] == ShortcodeOpen;
    assert forall j :: 14 <= j < k ==> t[j] == group[j - 14];
    assert t[k] == ']';
    IdRunIs(t, 14, k);
    IndexOfIs(t, ']', 14, k);
    assert t[14..k - 1] == group[..|group| - 1];
  }

  lemma ClosingBracketTakesADigit(text: string, post: string)
    requires text == "[gallery ids=\"12]" + post
    ensures MatchGallery(text) == Some(Shortcode("1", 17))
  {
    assert text[..14] == ShortcodeOpen;
    assert text[14] == '1' && text[15] == '2' && text[16] == ']';
    IdRunIs(text, 14, 16);
    IndexOfIs(text, ']', 14, 16);
    assert text[14..15] == "1";
  }
}
