/** The Astro side of the converter: where a post's Markdown file goes and the
    front matter it starts with. A path is the sequence of its components. */
module Astro {
  import opened Wrappers
  import opened Strings
  import opened Pages

  const Quote := "\""
  const EscapedQuote := "\\\""

  /** The body of `escape_quotes`: `text.replace('"', '\\"')`. */
  function EscapeBody(text: string): string {
    ReplaceAll(text, Quote, EscapedQuote)
  }

  /** PostDirectory.escape_quotes: the text as a double-quoted string. */
  function EscapeQuotes(text: string): (r: string)
    ensures |r| >= 2 && r[0] == '"' && r[|r| - 1] == '"'
  {
    Quote + EscapeBody(text) + Quote
  }

  /** What a single character becomes inside the quotes. */
  function EscapeChar(c: char): string {
    if c == '"' then EscapedQuote else [c]
  }

  /** Strip the delimiters, then turn `\"` back into `"`, left to right. */
  function Unescape(s: string): string
    requires |s| >= 2
  {
    ReplaceAll(s[1..|s| - 1], EscapedQuote, Quote)
  }

  // ---------------------------------------------------------------------------
  // escape_quotes, character by character

  lemma EscapeBodyCons(c: char, rest: string)
    ensures EscapeBody([c] + rest) == EscapeChar(c) + EscapeBody(rest)
  {
    var s := [c] + rest;
    assert s[..1] == [c] && s[1..] == rest;
  }

  /** Escaping works piece by piece: every `"` becomes `\"` and every other
      character is copied, in order. */
  lemma {:induction false} EscapeBodyAppend(a: string, b: string)
    ensures EscapeBody(a + b) == EscapeBody(a) + EscapeBody(b)
  {
    if a == [] {
      assert a + b == b;
    } else {
      assert a + b == [a[0]] + (a[1..] + b);
      EscapeBodyCons(a[0], a[1..] + b);
      EscapeBodyAppend(a[1..], b);
      EscapeBodyCons(a[0], a[1..]);
      assert a == [a[0]] + a[1..];
    }
  }

  /** The result is two delimiters and one backslash per quote longer than the text. */
  lemma {:induction false} EscapeLength(text: string)
    ensures |EscapeQuotes(text)| == |text| + 2 + Count(text, '"')
  {
    EscapeBodyLength(text);
  }

  // Used by EscapeLength.
  lemma {:induction false} EscapeBodyLength(text: string)
    ensures |EscapeBody(text)| == |text| + Count(text, '"')
  {
    if text != [] {
      EscapeBodyCons(text[0], text[1..]);
      assert text == [text[0]] + text[1..];
      EscapeBodyLength(text[1..]);
    }
  }

  /** A text without quotes is only wrapped in them. */
  lemma {:induction false} QuoteFreeWrapped(text: string)
    requires '"' !in text
    ensures EscapeQuotes(text) == Quote + text + Quote
  {
    QuoteFreeBody(text);
  }

  // Used by QuoteFreeWrapped.
  lemma {:induction false} QuoteFreeBody(text: string)
    requires '"' !in text
    ensures EscapeBody(text) == text
  {
    if text != [] {
      EscapeBodyCons(text[0], text[1..]);
      assert text == [text[0]] + text[1..];
      QuoteFreeBody(text[1..]);
    }
  }

  /** The escaped body never starts with a bare quote. */
  lemma EscapedHead(text: string)
    ensures EscapeBody(text) == [] || EscapeBody(text)[0] != '"'
  {
    if text != [] {
      EscapeBodyCons(text[0], text[1..]);
      assert text == [text[0]] + text[1..];
    }
  }

  /** Escaping adds only quotes and backslashes. */
  lemma {:induction false} EscapeAddsNoNewline(text: string)
    requires '\n' !in text
    ensures '\n' !in EscapeBody(text)
  {
    if text != [] {
      EscapeBodyCons(text[0], text[1..]);
      assert text == [text[0]] + text[1..];
      EscapeAddsNoNewline(text[1..]);
    }
  }

  lemma {:induction false} UnescapeBody(text: string)
    ensures ReplaceAll(EscapeBody(text), EscapedQuote, Quote) == text
  {
    if text != [] {
      var c, rest := text[0], text[1..];
      assert text == [c] + rest;
      EscapeBodyCons(c, rest);
      UnescapeBody(rest);
      EscapedHead(rest);
      var e := EscapeBody(rest);
      if c == '"' {
        var s := EscapedQuote + e;
        assert s[..2] == EscapedQuote && s[2..] == e;
      } else {
        var s := [c] + e;
        assert s[1..] == e;
        assert |s| >= 2 ==> s[..2] != EscapedQuote by {
          assert |s| >= 2 ==> s[..2][1] == e[0];
        }
      }
    }
  }

  /** Stripping the delimiters and turning `\"` back into `"` from left to
      right recovers the text. */
  lemma EscapeRoundTrip(text: string)
    ensures Unescape(EscapeQuotes(text)) == text
  {
    var r := EscapeQuotes(text);
    assert r[1..|r| - 1] == EscapeBody(text);
    UnescapeBody(text);
  }

  // ---------------------------------------------------------------------------
  // The post's directory

  /** PostDirectory: the content directory and the post written into it. */
  datatype PostDirectory = PostDirectory(contentDir: seq<string>, post: Page)
  {
    /** PostDirectory.filename, for a slug that is one path component without a dot. */
    function Filename(): (r: seq<string>)
      requires post.slug != [] && '.' !in post.slug && '/' !in post.slug
      ensures |r| == |contentDir| + 1
    {
      contentDir + [post.slug + ".md"]
    }

    /** The text create_markdown writes. */
    function MarkdownText(): string {
      FrontMatterText(post.title, post.pubDate, post.content)
    }
  }

  const TitleKey := "---\ntitle: "
  const DateKey := "\npubDate: "
  const FrontEnd := "\n---\n"

  /** The text of create_markdown: the front matter with the quoted title and
      the date, then the content and a final line break. */
  function FrontMatterText(title: string, pubDate: string, content: string): string {
    TitleKey + EscapeQuotes(title) + DateKey + pubDate + FrontEnd + content + "\n"
  }

  /** The index of the last `c` in `s`, or -1. */
  function LastIndexOf(s: string, c: char): (r: int)
    ensures -1 <= r < |s|
    ensures r >= 0 ==> s[r] == c
    ensures forall j :: r < j < |s| ==> s[j] != c
  {
    if s == [] then -1
    else if s[|s| - 1] == c then |s| - 1
    else LastIndexOf(s[..|s| - 1], c)
  }

  /** `PurePath.suffix` of a file name: from its last dot, unless that dot is
      the first or the last character. */
  function Suffix(name: string): string {
    var i := LastIndexOf(name, '.');
    if 0 < i < |name| - 1 then name[i..] else ""
  }

  /** `PurePath.stem`: the name without its suffix. */
  function Stem(name: string): string {
    var i := LastIndexOf(name, '.');
    if 0 < i < |name| - 1 then name[..i] else name
  }

  /** The Markdown file sits in the content directory, its stem is the slug and
      its suffix is `.md`. */
  lemma FilenameParts(d: PostDirectory)
    requires d.post.slug != [] && '.' !in d.post.slug && '/' !in d.post.slug
    ensures var r := d.Filename();
      && r[..|r| - 1] == d.contentDir
      && Stem(r[|r| - 1]) == d.post.slug
      && Suffix(r[|r| - 1]) == ".md"
  {
    var slug := d.post.slug;
    var name := slug + ".md";
    LastDot(slug, name);
    assert name[..|slug|] == slug;
    assert name[|slug|..] == ".md";
  }

  // Used by FilenameParts.
  lemma LastDot(slug: string, name: string)
    requires '.' !in slug && name == slug + ".md"
    ensures LastIndexOf(name, '.') == |slug|
  {
    assert name[|slug|] == '.' && name[|slug| + 1] == 'm' && name[|slug| + 2] == 'd';
    assert name[..|name| - 1][..|name| - 2] == name[..|name| - 2];
  }

  // ---------------------------------------------------------------------------
  // Reading the front matter back

  datatype FrontMatter = FrontMatter(title: string, pubDate: string, content: string)

  /** Reads a file laid out as create_markdown writes it. */
  function ReadFrontMatter(s: string): Option<FrontMatter> {
    if !StartsWith(s, TitleKey) then None
    else
      var i := IndexOf(s, '\n', 11);
      if i < 13 || !OccursAt(s, i, DateKey) then None
      else
        var j := IndexOf(s, '\n', i + 10);
        if !OccursAt(s, j, FrontEnd) || j + 5 >= |s| || s[|s| - 1] != '\n' then None
        else Some(FrontMatter(Unescape(s[11..i]), s[i + 10..j], s[j + 5..|s| - 1]))
  }

  /** Title, date and content come back out of the written text, provided the
      title and the date stay on their lines. */
  lemma FrontMatterRoundTrip(title: string, pubDate: string, content: string)
    requires '\n' !in title && '\n' !in pubDate
    ensures ReadFrontMatter(FrontMatterText(title, pubDate, content)) == Some(FrontMatter(title, pubDate, content))
  {
    var e := EscapeQuotes(title);
    EscapeAddsNoNewline(title);
    assert '\n' !in e;
    var s := FrontMatterText(title, pubDate, content);
    var i := 11 + |e|;
    var j := i + 10 + |pubDate|;
    FrontParts(e, pubDate, content, s);
    IndexOfIs(s, '\n', 11, i);
    IndexOfIs(s, '\n', i + 10, j);
    EscapeRoundTrip(title);
  }

  // Used by FrontMatterRoundTrip.
  lemma FrontParts(e: string, pubDate: string, content: string, s: string)
    requires s == TitleKey + e + DateKey + pubDate + FrontEnd + content + "\n"
    ensures StartsWith(s, TitleKey)
    ensures s[11..11 + |e|] == e
    ensures forall k :: 11 <= k < 11 + |e| ==> s[k] == e[k - 11]
    ensures OccursAt(s, 11 + |e|, DateKey)
    ensures s[21 + |e|..21 + |e| + |pubDate|] == pubDate
    ensures forall k :: 21 + |e| <= k < 21 + |e| + |pubDate| ==> s[k] == pubDate[k - 21 - |e|]
    ensures OccursAt(s, 21 + |e| + |pubDate|, FrontEnd)
    ensures s[26 + |e| + |pubDate|..|s| - 1] == content
    ensures |s| == 27 + |e| + |pubDate| + |content| && s[|s| - 1] == '\n'
  {
    var a := TitleKey + e;
    var b := a + DateKey + pubDate;
    var c := b + FrontEnd + content;
    assert s == c + "\n";
    assert s[..11] == TitleKey;
    assert s[11..11 + |e|] == e;
    assert s[11 + |e|..21 + |e|] == DateKey;
    assert s[21 + |e|..21 + |e| + |pubDate|] == pubDate;
    assert s[21 + |e| + |pubDate|..26 + |e| + |pubDate|] == FrontEnd;
    assert s[26 + |e| + |pubDate|..|s| - 1] == content;
  }
}
