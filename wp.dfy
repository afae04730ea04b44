/** What the converter knows about a WordPress export: reading required fields
    of an item, the tag and thumbnail extractors, the record a post becomes,
    and the two scans over the export (published posts, attachment registry).

    The export is the sequence of elements the streaming XML reader reports, in
    the order it reports them; only elements whose tag is `item` are looked at. */
module Wp {
  import opened Wrappers

  /** A `<category>` child of an item: its `domain` attribute ("" when absent,
      which no lookup can tell from an empty one) and its `nicename` attribute. */
  datatype Category = Category(domain: string, nicename: Option<string>)

  /** A `<wp:postmeta>` child: the texts of its `wp:meta_key` and `wp:meta_value`. */
  datatype PostMeta = PostMeta(key: string, value: string)

  /** One element of the export. `children` maps a child's tag (as the reader's
      path names it, e.g. "wp:post_type") to its text, `None` when the child is
      present but empty; when several children share a tag the first one is kept. */
  datatype Element = Element(
    tag: string,
    children: map<string, Option<string>>,
    categories: seq<Category>,
    postmeta: seq<PostMeta>)

  /** The exceptions the reader raises. */
  datatype Error =
    | MissingChild(tag: string, parent: string)   // ValueError from text_of
    | MissingAttribute(name: string)              // KeyError on a category's attributes
    | UnknownAttachment(id: string)               // KeyError on the attachment registry
    | Raised(message: string)                     // any exception of a caller's own extractor

  /** A value in a post record: most fields are strings, `tags` becomes a list. */
  datatype Value = Str(s: string) | StrList(items: seq<string>)

  /** The keyword arguments a post is built from. */
  type Record = map<string, Value>

  /** What a generator produced: the values it yielded, then the exception that
      ended it, if one did. */
  datatype Stream<T> = Stream(yielded: seq<T>, failure: Option<Error>)

  function Prepend<T>(front: seq<T>, s: Stream<T>): Stream<T> {
    Stream(front + s.yielded, s.failure)
  }

  const ItemTag := "item"
  const PostType := "wp:post_type"
  const Status := "wp:status"
  const PostId := "wp:post_id"
  const AttachmentUrl := "wp:attachment_url"
  const Title := "title"
  const PostName := "wp:post_name"
  const PostDateGmt := "wp:post_date_gmt"
  const ContentEncoded := "content:encoded"
  const ThumbnailId := "_thumbnail_id"

  // ---------------------------------------------------------------------------
  // Required fields

  predicate Has(el: Element, tag: string) {
    tag in el.children
  }

  /** The text of a child that is present: "" when it is empty. */
  function Text(el: Element, tag: string): string
    requires Has(el, tag)
  {
    el.children[tag].GetOr("")
  }

  /** text_of: the child's text, or an error naming the tag and the parent. */
  function TextOf(el: Element, tag: string): (r: Result<string, Error>)
    ensures r.Ok? <==> Has(el, tag)
    ensures r.Ok? && el.children[tag] == None ==> r.value == ""
    ensures r.Ok? && el.children[tag].Some? ==> r.value == el.children[tag].value
    ensures r.Err? ==> r.error == MissingChild(tag, el.tag)
  {
    if tag in el.children then Ok(Text(el, tag)) else Err(MissingChild(tag, el.tag))
  }

  // ---------------------------------------------------------------------------
  // Extractors

  const PostTagDomain := "post_tag"

  /** The categories whose domain is `post_tag`, in document order. */
  function PostTagCategories(cats: seq<Category>): (r: seq<Category>)
    ensures |r| <= |cats|
    ensures forall c :: c in r <==> c in cats && c.domain == PostTagDomain
  {
    if cats == [] then []
    else (if cats[0].domain == PostTagDomain then [cats[0]] else []) + PostTagCategories(cats[1..])
  }

  /** The generator inside tag_parser, drained by `list()`: the nicename of each
      post_tag category; a post_tag category without one raises KeyError. */
  function PostTagNames(cats: seq<Category>): (r: Result<seq<string>, Error>)
    ensures r.Err? ==> r.error == MissingAttribute("nicename")
  {
    if cats == [] then Ok([])
    else if cats[0].domain != PostTagDomain then PostTagNames(cats[1..])
    else if cats[0].nicename.None? then Err(MissingAttribute("nicename"))
    else match PostTagNames(cats[1..])
      case Err(e) => Err(e)
      case Ok(names) => Ok([cats[0].nicename.value] + names)
  }

  /** The names collected are those of the post_tag categories, in order, and
      collecting fails exactly when one of them has no nicename. */
  lemma {:induction false} PostTagNamesYield(cats: seq<Category>)
    ensures PostTagNames(cats).Ok? <==> forall c :: c in PostTagCategories(cats) ==> c.nicename.Some?
    ensures PostTagNames(cats).Ok? ==> |PostTagNames(cats).value| == |PostTagCategories(cats)|
    ensures PostTagNames(cats).Ok? ==> forall i :: 0 <= i < |PostTagNames(cats).value| ==>
      PostTagNames(cats).value[i] == PostTagCategories(cats)[i].nicename.value
  {
    if cats != [] {
      PostTagNamesYield(cats[1..]);
      if cats[0].domain != PostTagDomain {
        PostTagSkip(cats);
      } else {
        PostTagTake(cats);
        AllNamedCons(cats[0], PostTagCategories(cats[1..]));
        if cats[0].nicename.Some? && PostTagNames(cats[1..]).Ok? {
          NamesCons(cats[0], PostTagCategories(cats[1..]), PostTagNames(cats[1..]).value);
        }
      }
    }
  }

  // Used by PostTagNamesYield.
  lemma PostTagSkip(cats: seq<Category>)
    requires cats != [] && cats[0].domain != PostTagDomain
    ensures PostTagCategories(cats) == PostTagCategories(cats[1..])
    ensures PostTagNames(cats) == PostTagNames(cats[1..])
  {
    assert [] + PostTagCategories(cats[1..]) == PostTagCategories(cats[1..]);
  }

  // Used by PostTagNamesYield.
  lemma PostTagTake(cats: seq<Category>)
    requires cats != [] && cats[0].domain == PostTagDomain
    ensures PostTagCategories(cats) == [cats[0]] + PostTagCategories(cats[1..])
    ensures PostTagNames(cats).Ok? <==> cats[0].nicename.Some? && PostTagNames(cats[1..]).Ok?
    ensures PostTagNames(cats).Ok? ==> PostTagNames(cats).value == [cats[0].nicename.value] + PostTagNames(cats[1..]).value
  {
  }

  // Used by PostTagNamesYield.
  lemma AllNamedCons(c: Category, rest: seq<Category>)
    ensures (forall x :: x in [c] + rest ==> x.nicename.Some?) <==> c.nicename.Some? && forall x :: x in rest ==> x.nicename.Some?
  {
    if c.nicename.Some? && forall x :: x in rest ==> x.nicename.Some? {
      forall x | x in [c] + rest
        ensures x.nicename.Some?
      {
        assert x == c || x in rest;
      }
    }
  }

  // Used by PostTagNamesYield.
  lemma NamesCons(c: Category, rest: seq<Category>, names: seq<string>)
    requires c.nicename.Some? && |names| == |rest|
    requires forall i :: 0 <= i < |rest| ==> rest[i].nicename.Some?
    requires forall i :: 0 <= i < |names| ==> names[i] == rest[i].nicename.value
    ensures |[c.nicename.value] + names| == |[c] + rest|
    ensures forall i :: 0 <= i < |[c.nicename.value] + names| ==> ([c.nicename.value] + names)[i] == ([c] + rest)[i].nicename.value
  {
    forall i | 0 < i <= |names|
      ensures ([c.nicename.value] + names)[i] == ([c] + rest)[i].nicename.value
    {
      assert ([c] + rest)[i] == rest[i - 1];
    }
  }

  /** tag_parser: `{'tags': [...]}`. */
  function TagParser(el: Element): (r: Result<Record, Error>)
    ensures r.Ok? <==> PostTagNames(el.categories).Ok?
    ensures r.Ok? ==> r.value == map["tags" := StrList(PostTagNames(el.categories).value)]
  {
    match PostTagNames(el.categories)
    case Err(e) => Err(e)
    case Ok(names) => Ok(map["tags" := StrList(names)])
  }

  /** The index of the first postmeta entry with the given key, or the length. */
  function FirstMetaIndex(metas: seq<PostMeta>, key: string): (i: nat)
    ensures i <= |metas|
    ensures i < |metas| ==> metas[i].key == key
    ensures forall j :: 0 <= j < i ==> metas[j].key != key
  {
    if metas == [] || metas[0].key == key then 0 else 1 + FirstMetaIndex(metas[1..], key)
  }

  /** parse_metadata: the value of the first postmeta entry with the key, when
      that value is non-empty; `None` stands for the RuntimeError it raises
      otherwise. */
  function ParseMetadata(el: Element, key: string): (r: Option<string>)
    ensures r.Some? ==> r.value != "" && PostMeta(key, r.value) in el.postmeta
    ensures r.Some? ==> r.value == el.postmeta[FirstMetaIndex(el.postmeta, key)].value
    ensures r.None? <==> (forall m :: m in el.postmeta ==> m.key != key)
                         || el.postmeta[FirstMetaIndex(el.postmeta, key)].value == ""
  {
    var i := FirstMetaIndex(el.postmeta, key);
    if i < |el.postmeta| && el.postmeta[i].value != "" then Some(el.postmeta[i].value) else None
  }

  /** The parser thumbnail_parser(attachments) returns. */
  function ThumbnailParser(attachments: map<string, string>, el: Element): (r: Result<Record, Error>)
    ensures ParseMetadata(el, ThumbnailId).None? ==> r == Ok(map[])
    ensures ParseMetadata(el, ThumbnailId).Some? ==>
      var id := ParseMetadata(el, ThumbnailId).value;
      if id in attachments then r == Ok(map["thumbnail" := Str(attachments[id])])
      else r == Err(UnknownAttachment(id))
  {
    match ParseMetadata(el, ThumbnailId)
    case None => Ok(map[])
    case Some(id) =>
      if id in attachments then Ok(map["thumbnail" := Str(attachments[id])])
      else Err(UnknownAttachment(id))
  }

  /** The extractors that can be handed to `posts`: the two of this module,
      and any other function from an element to a record or an exception. */
  datatype Extractor =
    | TagExtractor
    | ThumbnailExtractor(attachments: map<string, string>)
    | Custom(extract: Element -> Result<Record, Error>)

  function Apply(x: Extractor, el: Element): Result<Record, Error> {
    match x
    case TagExtractor => TagParser(el)
    case ThumbnailExtractor(attachments) => ThumbnailParser(attachments, el)
    case Custom(extract) => extract(el)
  }

  // ---------------------------------------------------------------------------
  // parse_post

  const RequiredPostFields := [Title, PostName, PostDateGmt, ContentEncoded]

  /** The position in RequiredPostFields of the first field the element lacks,
      or 4 when it has them all. */
  function FirstMissing(el: Element): (i: nat)
    ensures i <= |RequiredPostFields|
    ensures forall j :: 0 <= j < i ==> Has(el, RequiredPostFields[j])
    ensures i < |RequiredPostFields| ==> !Has(el, RequiredPostFields[i])
  {
    if !Has(el, Title) then 0
    else if !Has(el, PostName) then 1
    else if !Has(el, PostDateGmt) then 2
    else if !Has(el, ContentEncoded) then 3
    else 4
  }

  /** The defaults of parse_post: four required fields read in order (the first
      missing one is reported) and an empty-string `tags`. */
  function Defaults(el: Element): (r: Result<Record, Error>)
    ensures r.Ok? <==> forall t :: t in RequiredPostFields ==> Has(el, t)
    ensures r.Ok? ==> r.value.Keys == {"title", "slug", "pubDate", "content", "tags"}
    ensures r.Ok? ==> && r.value["title"] == Str(Text(el, Title))
                      && r.value["slug"] == Str(Text(el, PostName))
                      && r.value["pubDate"] == Str(Text(el, PostDateGmt))
                      && r.value["content"] == Str(Text(el, ContentEncoded))
                      && r.value["tags"] == Str("")
    ensures r.Err? ==> r.error == MissingChild(RequiredPostFields[FirstMissing(el)], el.tag)
  {
    match TextOf(el, Title)
    case Err(e) => Err(e)
    case Ok(title) =>
      match TextOf(el, PostName)
      case Err(e) => Err(e)
      case Ok(slug) =>
        match TextOf(el, PostDateGmt)
        case Err(e) => Err(e)
        case Ok(pubDate) =>
          match TextOf(el, ContentEncoded)
          case Err(e) => Err(e)
          case Ok(content) =>
            Ok(map["title" := Str(title), "slug" := Str(slug), "pubDate" := Str(pubDate),
                   "content" := Str(content), "tags" := Str("")])
  }

  /** The results of the extractors, in order; the first exception wins. */
  function Outputs(el: Element, parsers: seq<Extractor>): (r: Result<seq<Record>, Error>)
    ensures r.Ok? ==> |r.value| == |parsers|
  {
    if |parsers| == 0 then Ok([])
    else match Apply(parsers[0], el)
      case Err(e) => Err(e)
      case Ok(d) =>
        match Outputs(el, parsers[1..])
        case Err(e) => Err(e)
        case Ok(ds) => Ok([d] + ds)
  }

  /** The `reduce` of parse_post: `{**d, **parser(element)}` for each parser in turn. */
  function MergeAll(el: Element, parsers: seq<Extractor>, acc: Record): Result<Record, Error> {
    if |parsers| == 0 then Ok(acc)
    else match Apply(parsers[0], el)
      case Err(e) => Err(e)
      case Ok(d) => MergeAll(el, parsers[1..], acc + d)
  }

  function ParsePost(el: Element, parsers: seq<Extractor>): Result<Record, Error> {
    match Defaults(el)
    case Err(e) => Err(e)
    case Ok(d) => MergeAll(el, parsers, d)
  }

  /** The value of key `k` in the last output that has it. */
  function LastValue(outs: seq<Record>, k: string): Option<Value> {
    if outs == [] then None
    else
      var later := LastValue(outs[1..], k);
      if later.Some? then later else if k in outs[0] then Some(outs[0][k]) else None
  }

  lemma {:induction false} MergeAllOverride(el: Element, parsers: seq<Extractor>, acc: Record)
    ensures MergeAll(el, parsers, acc).Ok? <==> Outputs(el, parsers).Ok?
    ensures MergeAll(el, parsers, acc).Ok? ==>
      var r, outs := MergeAll(el, parsers, acc).value, Outputs(el, parsers).value;
      forall k :: && (k in r <==> k in acc || LastValue(outs, k).Some?)
                  && (k in r ==> r[k] == if LastValue(outs, k).Some? then LastValue(outs, k).value else acc[k])
    decreases |parsers|
  {
    if parsers != [] {
      match Apply(parsers[0], el)
      case Err(e) =>
      case Ok(d) =>
        MergeAllOverride(el, parsers[1..], acc + d);
    }
  }

  /** When the `reduce` raises, the exception is that of the first extractor
      that raises; the ones before it all returned. */
  lemma {:induction false} MergeAllFirstError(el: Element, parsers: seq<Extractor>, acc: Record)
    requires MergeAll(el, parsers, acc).Err?
    ensures exists i :: && 0 <= i < |parsers|
                        && Apply(parsers[i], el) == Err(MergeAll(el, parsers, acc).error)
                        && forall j :: 0 <= j < i ==> Apply(parsers[j], el).Ok?
    decreases |parsers|
  {
    match Apply(parsers[0], el)
    case Err(e) =>
      assert Apply(parsers[0], el) == Err(MergeAll(el, parsers, acc).error);
    case Ok(d) =>
      MergeAllFirstError(el, parsers[1..], acc + d);
      var i :| && 0 <= i < |parsers[1..]|
               && Apply(parsers[1..][i], el) == Err(MergeAll(el, parsers[1..], acc + d).error)
               && forall j :: 0 <= j < i ==> Apply(parsers[1..][j], el).Ok?;
      assert Apply(parsers[i + 1], el) == Err(MergeAll(el, parsers, acc).error);
      assert forall j :: 1 <= j < i + 1 ==> Apply(parsers[j], el) == Apply(parsers[1..][j - 1], el);
  }

  /** parse_post merges the extractors' fields over the defaults, left to right:
      a key takes its value from the last extractor that produced it, otherwise
      from the defaults; the post fails exactly when a required field is missing
      or an extractor raises, and then with the first missing field or the
      exception of the first extractor that raises. */
  lemma ParsePostOverride(el: Element, parsers: seq<Extractor>)
    ensures ParsePost(el, parsers).Ok? <==> Defaults(el).Ok? && Outputs(el, parsers).Ok?
    ensures ParsePost(el, parsers).Ok? ==>
      var r, d, outs := ParsePost(el, parsers).value, Defaults(el).value, Outputs(el, parsers).value;
      forall k :: && (k in r <==> k in d || LastValue(outs, k).Some?)
                  && (k in r ==> r[k] == if LastValue(outs, k).Some? then LastValue(outs, k).value else d[k])
    ensures Defaults(el).Err? ==> ParsePost(el, parsers) == Err(Defaults(el).error)
    ensures Defaults(el).Ok? && ParsePost(el, parsers).Err? ==>
      exists i :: && 0 <= i < |parsers|
                  && Apply(parsers[i], el) == Err(ParsePost(el, parsers).error)
                  && forall j :: 0 <= j < i ==> Apply(parsers[j], el).Ok?
  {
    if Defaults(el).Ok? {
      MergeAllOverride(el, parsers, Defaults(el).value);
      if ParsePost(el, parsers).Err? {
        MergeAllFirstError(el, parsers, Defaults(el).value);
      }
    }
  }

  /** With no extractors the record is the defaults; with the tag extractor
      alone, `tags` becomes the list of post_tag nicenames. */
  lemma ParsePostDefaults(el: Element)
    ensures ParsePost(el, []) == Defaults(el)
    ensures Defaults(el).Ok? && PostTagNames(el.categories).Ok? ==>
      ParsePost(el, [TagExtractor]) == Ok(Defaults(el).value["tags" := StrList(PostTagNames(el.categories).value)])
  {
    assert [TagExtractor][1..] == [];
    if Defaults(el).Ok? && PostTagNames(el.categories).Ok? {
      var d, tags := Defaults(el).value, StrList(PostTagNames(el.categories).value);
      assert d + map["tags" := tags] == d["tags" := tags];
      assert Apply(TagExtractor, el) == Ok(map["tags" := tags]);
      assert MergeAll(el, [TagExtractor], d) == MergeAll(el, [], d + map["tags" := tags]);
    }
  }

  // ---------------------------------------------------------------------------
  // items_of_type

  predicate IsItem(el: Element) {
    el.tag == ItemTag
  }

  /** An item whose post type cannot be read: text_of raises on it. */
  predicate Malformed(el: Element) {
    IsItem(el) && !Has(el, PostType)
  }

  predicate IsOfType(el: Element, postType: string) {
    IsItem(el) && Has(el, PostType) && Text(el, PostType) == postType
  }

  /** The items of the given post type, in document order. */
  function OfType(doc: seq<Element>, postType: string): (r: seq<Element>)
    ensures |r| <= |doc|
    ensures forall el :: el in r <==> el in doc && IsOfType(el, postType)
  {
    if doc == [] then []
    else (if IsOfType(doc[0], postType) then [doc[0]] else []) + OfType(doc[1..], postType)
  }

  // Used by PublishedSplit.
  lemma {:induction false} OfTypeAppend(a: seq<Element>, b: seq<Element>, postType: string)
    ensures OfType(a + b, postType) == OfType(a, postType) + OfType(b, postType)
  {
    if a == [] {
      assert a + b == b;
    } else {
      assert (a + b)[1..] == a[1..] + b;
      OfTypeAppend(a[1..], b, postType);
    }
  }

  /** The index of the first malformed item, or the length of the export. */
  function FirstMalformed(doc: seq<Element>): (k: nat)
    ensures k <= |doc|
    ensures forall i :: 0 <= i < k ==> !Malformed(doc[i])
    ensures k < |doc| ==> Malformed(doc[k])
  {
    if doc == [] || Malformed(doc[0]) then 0 else 1 + FirstMalformed(doc[1..])
  }

  /** The generator items_of_type: one pass over the export, yielding each item
      of the given post type; an item without a post type raises. */
  function ItemsOfTypeStream(doc: seq<Element>, postType: string): Stream<Element> {
    if doc == [] then Stream([], None)
    else if !IsItem(doc[0]) then ItemsOfTypeStream(doc[1..], postType)
    else match TextOf(doc[0], PostType)
      case Err(e) => Stream([], Some(e))
      case Ok(t) =>
        var rest := ItemsOfTypeStream(doc[1..], postType);
        if t == postType then Prepend([doc[0]], rest) else rest
  }

  /** items_of_type yields exactly the items of the requested type that come
      before the first item without a post type, in document order, and then
      stops with the error naming `wp:post_type`, if there is such an item. */
  lemma {:induction false} ItemsOfTypeYields(doc: seq<Element>, postType: string)
    ensures ItemsOfTypeStream(doc, postType).yielded == OfType(doc[..FirstMalformed(doc)], postType)
    ensures ItemsOfTypeStream(doc, postType).failure ==
      if FirstMalformed(doc) < |doc| then Some(MissingChild(PostType, ItemTag)) else None
  {
    if doc != [] {
      ItemsOfTypeYields(doc[1..], postType);
      if !Malformed(doc[0]) {
        assert doc[..FirstMalformed(doc)][1..] == doc[1..][..FirstMalformed(doc[1..])];
      }
    }
  }

  method ItemsOfType(doc: seq<Element>, postType: string) returns (items: seq<Element>, failure: Option<Error>)
    ensures Stream(items, failure) == ItemsOfTypeStream(doc, postType)
  {
    items, failure := [], None;
    var i := 0;
    while i < |doc|
      invariant i <= |doc|
      invariant ItemsOfTypeStream(doc, postType) == Prepend(items, ItemsOfTypeStream(doc[i..], postType))
    {
      var el := doc[i];
      assert doc[i..][1..] == doc[i + 1..];
      if el.tag == ItemTag {
        var t := TextOf(el, PostType);
        if t.Err? {
          failure := Some(t.error);
          return;
        }
        if t.value == postType {
          items := items + [el];
        }
      }
      i := i + 1;
    }
  }

  // ---------------------------------------------------------------------------
  // posts

  predicate IsPublished(el: Element) {
    Has(el, Status) && Text(el, Status) == "publish"
  }

  function PublishedOnly(items: seq<Element>): (r: seq<Element>)
    ensures |r| <= |items|
    ensures forall el :: el in r <==> el in items && IsPublished(el)
  {
    if items == [] then []
    else (if IsPublished(items[0]) then [items[0]] else []) + PublishedOnly(items[1..])
  }

  // Used by PublishedSplit.
  lemma {:induction false} PublishedOnlyAppend(a: seq<Element>, b: seq<Element>)
    ensures PublishedOnly(a + b) == PublishedOnly(a) + PublishedOnly(b)
  {
    if a == [] {
      assert a + b == b;
    } else {
      assert (a + b)[1..] == a[1..] + b;
      PublishedOnlyAppend(a[1..], b);
    }
  }

  /** The published posts of the export, in document order. */
  function PublishedPosts(doc: seq<Element>): (r: seq<Element>)
    ensures forall el :: el in r <==> el in doc && IsOfType(el, "post") && IsPublished(el)
  {
    PublishedOnly(OfType(doc, "post"))
  }

  /** The loop body of posts over the items items_of_type yields. */
  function ProcessPosts(items: seq<Element>, parsers: seq<Extractor>): Stream<Record> {
    if items == [] then Stream([], None)
    else match TextOf(items[0], Status)
      case Err(e) => Stream([], Some(e))
      case Ok(status) =>
        if status != "publish" then ProcessPosts(items[1..], parsers)
        else match ParsePost(items[0], parsers)
          case Err(e) => Stream([], Some(e))
          case Ok(r) => Prepend([r], ProcessPosts(items[1..], parsers))
  }

  /** The generator posts: the records of the published posts; it stops at the
      first exception, whether raised by items_of_type or by the post itself. */
  function PostStream(doc: seq<Element>, parsers: seq<Extractor>): Stream<Record> {
    var s := ItemsOfTypeStream(doc, "post");
    var r := ProcessPosts(s.yielded, parsers);
    if r.failure.Some? then r else Stream(r.yielded, s.failure)
  }

  // Used by PostsArePublished.
  lemma {:induction false} ProcessPostsYields(items: seq<Element>, parsers: seq<Extractor>)
    ensures var s, pub := ProcessPosts(items, parsers), PublishedOnly(items);
      && |s.yielded| <= |pub|
      && (forall i :: 0 <= i < |s.yielded| ==> ParsePost(pub[i], parsers) == Ok(s.yielded[i]))
      && (s.failure.None? ==> |s.yielded| == |pub|)
  {
    if items != [] {
      ProcessPostsYields(items[1..], parsers);
      var el := items[0];
      if Has(el, Status) && Text(el, Status) == "publish" && ParsePost(el, parsers).Ok? {
        var rest := ProcessPosts(items[1..], parsers);
        assert ProcessPosts(items, parsers) == Stream([ParsePost(el, parsers).value] + rest.yielded, rest.failure);
        assert PublishedOnly(items) == [el] + PublishedOnly(items[1..]);
        ParsedCons(ParsePost(el, parsers).value, rest.yielded, el, PublishedOnly(items[1..]), parsers);
      } else if Has(el, Status) && Text(el, Status) != "publish" {
        assert ProcessPosts(items, parsers) == ProcessPosts(items[1..], parsers);
        assert PublishedOnly(items) == PublishedOnly(items[1..]);
      } else {
        assert ProcessPosts(items, parsers).yielded == [];
        assert ProcessPosts(items, parsers).failure.Some?;
      }
    }
  }

  // Used by ProcessPostsYields.
  lemma ParsedCons(r: Record, ys: seq<Record>, el: Element, pub: seq<Element>, parsers: seq<Extractor>)
    requires ParsePost(el, parsers) == Ok(r)
    requires |ys| <= |pub| && forall i :: 0 <= i < |ys| ==> ParsePost(pub[i], parsers) == Ok(ys[i])
    ensures |[r] + ys| <= |[el] + pub|
    ensures forall i :: 0 <= i < |[r] + ys| ==> ParsePost(([el] + pub)[i], parsers) == Ok(([r] + ys)[i])
  {
    forall i | 0 <= i < |[r] + ys|
      ensures ParsePost(([el] + pub)[i], parsers) == Ok(([r] + ys)[i])
    {
      if i > 0 {
        assert ([el] + pub)[i] == pub[i - 1];
        assert ([r] + ys)[i] == ys[i - 1];
      }
    }
  }

  /** posts yields the records of a prefix of the published posts, in document
      order, and all of them when it does not fail: attachments, pages, drafts
      and private posts never appear. */
  lemma PostsArePublished(doc: seq<Element>, parsers: seq<Extractor>)
    ensures var s, pub := PostStream(doc, parsers), PublishedPosts(doc);
      && |s.yielded| <= |pub|
      && (forall i :: 0 <= i < |s.yielded| ==> ParsePost(pub[i], parsers) == Ok(s.yielded[i]))
      && (s.failure.None? ==> |s.yielded| == |pub|)
  {
    var k := FirstMalformed(doc);
    ItemsOfTypeYields(doc, "post");
    PublishedSplit(doc, k);
    ProcessPostsYields(OfType(doc[..k], "post"), parsers);
    var s := ProcessPosts(OfType(doc[..k], "post"), parsers);
    YieldedPrefix(s.yielded, PublishedOnly(OfType(doc[..k], "post")), PublishedOnly(OfType(doc[k..], "post")), parsers);
    assert k == |doc| ==> doc[k..] == [];
  }

  // Used by PostsArePublished.
  lemma PublishedSplit(doc: seq<Element>, k: nat)
    requires k <= |doc|
    ensures PublishedPosts(doc) == PublishedOnly(OfType(doc[..k], "post")) + PublishedOnly(OfType(doc[k..], "post"))
  {
    assert doc == doc[..k] + doc[k..];
    OfTypeAppend(doc[..k], doc[k..], "post");
    PublishedOnlyAppend(OfType(doc[..k], "post"), OfType(doc[k..], "post"));
  }

  // Used by PostsArePublished.
  lemma YieldedPrefix(ys: seq<Record>, a: seq<Element>, b: seq<Element>, parsers: seq<Extractor>)
    requires |ys| <= |a|
    requires forall i :: 0 <= i < |ys| ==> ParsePost(a[i], parsers) == Ok(ys[i])
    ensures forall i :: 0 <= i < |ys| ==> ParsePost((a + b)[i], parsers) == Ok(ys[i])
  {
  }

  /** A published post without one of its required fields ends the scan: posts
      raises before it has yielded every published post. */
  lemma MissingFieldAbortsPosts(doc: seq<Element>, parsers: seq<Extractor>, i: nat)
    requires i < |doc| && IsOfType(doc[i], "post") && IsPublished(doc[i])
    requires exists t :: t in RequiredPostFields && !Has(doc[i], t)
    ensures PostStream(doc, parsers).failure.Some?
    ensures |PostStream(doc, parsers).yielded| < |PublishedPosts(doc)|
  {
    PostsArePublished(doc, parsers);
    var s, pub := PostStream(doc, parsers), PublishedPosts(doc);
    assert doc[i] in pub;
    var j :| 0 <= j < |pub| && pub[j] == doc[i];
    assert ParsePost(pub[j], parsers).Err?;
  }

  /** The loop of posts raises on a yielded item without a status, unless it has
      already raised on an earlier one. Used by MissingStatusAbortsPosts. */
  lemma {:induction false} UnstatedStopsProcessing(items: seq<Element>, parsers: seq<Extractor>, el: Element)
    requires el in items && !Has(el, Status)
    ensures ProcessPosts(items, parsers).failure.Some?
  {
    if items[0] != el {
      assert el in items[1..];
      UnstatedStopsProcessing(items[1..], parsers, el);
    }
  }

  /** A post without `wp:status` ends the scan: posts raises on it, or has
      already raised on an earlier item. */
  lemma MissingStatusAbortsPosts(doc: seq<Element>, parsers: seq<Extractor>, i: nat)
    requires i < |doc| && IsOfType(doc[i], "post") && !Has(doc[i], Status)
    ensures PostStream(doc, parsers).failure.Some?
  {
    var k := FirstMalformed(doc);
    ItemsOfTypeYields(doc, "post");
    if i < k {
      assert doc[i] in doc[..k];
      UnstatedStopsProcessing(OfType(doc[..k], "post"), parsers, doc[i]);
    }
  }

  /** An item without `wp:post_type` anywhere in the export ends the scan:
      items_of_type raises on it, unless posts has already raised. */
  lemma MissingTypeAbortsPosts(doc: seq<Element>, parsers: seq<Extractor>, i: nat)
    requires i < |doc| && Malformed(doc[i])
    ensures PostStream(doc, parsers).failure.Some?
  {
    ItemsOfTypeYields(doc, "post");
    assert FirstMalformed(doc) <= i;
  }

  /** The loop of posts runs to the end when every item has a status and every
      published one parses. Used by PostsSucceed. */
  lemma {:induction false} ProcessOk(items: seq<Element>, parsers: seq<Extractor>)
    requires forall el :: el in items ==> Has(el, Status)
    requires forall el :: el in PublishedOnly(items) ==> ParsePost(el, parsers).Ok?
    ensures ProcessPosts(items, parsers).failure.None?
  {
    if items != [] {
      assert forall el :: el in PublishedOnly(items[1..]) ==> el in PublishedOnly(items);
      ProcessOk(items[1..], parsers);
    }
  }

  /** A published post that does not parse ends the scan. Used by PostsSucceed. */
  lemma UnparsedAbortsPosts(doc: seq<Element>, parsers: seq<Extractor>, el: Element)
    requires el in PublishedPosts(doc) && ParsePost(el, parsers).Err?
    ensures PostStream(doc, parsers).failure.Some?
  {
    PostsArePublished(doc, parsers);
    var pub := PublishedPosts(doc);
    var j :| 0 <= j < |pub| && pub[j] == el;
    assert !(j < |PostStream(doc, parsers).yielded|);
  }

  /** Used by PostsSucceed. */
  lemma PostsRunToEnd(doc: seq<Element>, parsers: seq<Extractor>)
    requires FirstMalformed(doc) == |doc|
    requires ProcessPosts(OfType(doc, "post"), parsers).failure.None?
    ensures PostStream(doc, parsers).failure.None?
  {
    ItemsOfTypeYields(doc, "post");
    assert doc[..|doc|] == doc;
  }

  // Used by PostsSucceed.
  lemma ProcessOkOnPosts(doc: seq<Element>, parsers: seq<Extractor>)
    requires forall el :: el in OfType(doc, "post") ==> Has(el, Status)
    requires forall el :: el in PublishedPosts(doc) ==> ParsePost(el, parsers).Ok?
    ensures ProcessPosts(OfType(doc, "post"), parsers).failure.None?
  {
    ProcessOk(OfType(doc, "post"), parsers);
  }

  /** posts runs to the end exactly when no item lacks its post type, every
      post has a status and every published post parses; it then yields one
      record per published post. */
  lemma PostsSucceed(doc: seq<Element>, parsers: seq<Extractor>)
    ensures PostStream(doc, parsers).failure.None? <==>
      && FirstMalformed(doc) == |doc|
      && (forall el :: el in OfType(doc, "post") ==> Has(el, Status))
      && (forall el :: el in PublishedPosts(doc) ==> ParsePost(el, parsers).Ok?)
    ensures PostStream(doc, parsers).failure.None? ==>
      |PostStream(doc, parsers).yielded| == |PublishedPosts(doc)|
  {
    PostsArePublished(doc, parsers);
    if FirstMalformed(doc) < |doc| {
      MissingTypeAbortsPosts(doc, parsers, FirstMalformed(doc));
    } else if el :| el in OfType(doc, "post") && !Has(el, Status) {
      var i :| 0 <= i < |doc| && doc[i] == el;
      MissingStatusAbortsPosts(doc, parsers, i);
    } else if el :| el in PublishedPosts(doc) && !ParsePost(el, parsers).Ok? {
      UnparsedAbortsPosts(doc, parsers, el);
    } else {
      ProcessOkOnPosts(doc, parsers);
      PostsRunToEnd(doc, parsers);
    }
  }

  method Posts(doc: seq<Element>, parsers: seq<Extractor>) returns (records: seq<Record>, failure: Option<Error>)
    ensures Stream(records, failure) == PostStream(doc, parsers)
  {
    var items, itemsFailure := ItemsOfType(doc, "post");
    records, failure := [], None;
    var i := 0;
    while i < |items|
      invariant i <= |items|
      invariant ProcessPosts(items, parsers) == Prepend(records, ProcessPosts(items[i..], parsers))
    {
      assert items[i..][1..] == items[i + 1..];
      var status := TextOf(items[i], Status);
      if status.Err? {
        failure := Some(status.error);
        return;
      }
      if status.value == "publish" {
        var r := ParsePost(items[i], parsers);
        if r.Err? {
          failure := Some(r.error);
          return;
        }
        records := records + [r.value];
      }
      i := i + 1;
    }
    failure := itemsFailure;
  }

  // ---------------------------------------------------------------------------
  // attachments_by_id

  /** The loop of attachments_by_id over the attachments, by prefix: each item
      sets `urls[post_id] = attachment_url`, reading post_id first. */
  function Register(items: seq<Element>): Result<map<string, string>, Error>
    decreases |items|
  {
    if items == [] then Ok(map[])
    else
      match Register(items[..|items| - 1])
      case Err(e) => Err(e)
      case Ok(urls) =>
        var last := items[|items| - 1];
        match TextOf(last, PostId)
        case Err(e) => Err(e)
        case Ok(id) =>
          match TextOf(last, AttachmentUrl)
          case Err(e) => Err(e)
          case Ok(url) => Ok(urls[id := url])
  }

  predicate Registrable(el: Element) {
    Has(el, PostId) && Has(el, AttachmentUrl)
  }

  /** The post ids of the given items. */
  function IdsOf(items: seq<Element>): set<string> {
    set i | 0 <= i < |items| && Has(items[i], PostId) :: Text(items[i], PostId)
  }

  /** The registry is built exactly when every attachment has both fields. */
  lemma {:induction false} RegisterOk(items: seq<Element>)
    ensures Register(items).Ok? <==> forall i :: 0 <= i < |items| ==> Registrable(items[i])
    decreases |items|
  {
    if items != [] {
      var n := |items| - 1;
      RegisterOk(items[..n]);
      assert forall i :: 0 <= i < n ==> items[..n][i] == items[i];
    }
  }

  /** The keys of the registry are the attachments' post ids. */
  lemma {:induction false} RegisterKeys(items: seq<Element>)
    requires Register(items).Ok?
    ensures Register(items).value.Keys == IdsOf(items)
    decreases |items|
  {
    if items != [] {
      var n := |items| - 1;
      var front := items[..n];
      RegisterKeys(front);
      assert forall i :: 0 <= i < n ==> front[i] == items[i];
      assert IdsOf(items) == IdsOf(front) + {Text(items[n], PostId)};
    }
  }

  /** Each id maps to the url of the last attachment carrying it. */
  lemma {:induction false} RegisterLastWins(items: seq<Element>, i: nat)
    requires Register(items).Ok? && i < |items| && Has(items[i], PostId)
    requires forall j :: i < j < |items| ==> Has(items[j], PostId) && Text(items[j], PostId) != Text(items[i], PostId)
    ensures Has(items[i], AttachmentUrl)
    ensures Text(items[i], PostId) in Register(items).value
    ensures Register(items).value[Text(items[i], PostId)] == Text(items[i], AttachmentUrl)
    decreases |items|
  {
    var n := |items| - 1;
    var front := items[..n];
    if i < n {
      assert front[i] == items[i];
      assert forall j :: i < j < n ==> front[j] == items[j];
      RegisterLastWins(front, i);
    }
  }

  // Used by AttachmentsById.
  lemma {:induction false} RegisterErrPersists(items: seq<Element>, k: nat)
    requires k <= |items| && Register(items[..k]).Err?
    ensures Register(items) == Register(items[..k])
    decreases |items| - k
  {
    if k < |items| {
      assert items[..k + 1][..k] == items[..k];
      RegisterErrPersists(items, k + 1);
    } else {
      assert items[..k] == items;
    }
  }

  /** attachments_by_id: the registry of the attachments; an exception anywhere
      in the scan, from items_of_type or from an attachment, aborts it. */
  function Registry(doc: seq<Element>): Result<map<string, string>, Error> {
    var s := ItemsOfTypeStream(doc, "attachment");
    match Register(s.yielded)
    case Err(e) => Err(e)
    case Ok(urls) => if s.failure.Some? then Err(s.failure.value) else Ok(urls)
  }

  /** The registry covers exactly the attachment items of the export, keyed by
      post id, the later item winning on a repeated id; it is built exactly when
      no item lacks its post type and no attachment lacks its id or url. */
  lemma RegistryCoversAttachments(doc: seq<Element>)
    ensures var atts := OfType(doc, "attachment");
      Registry(doc).Ok? <==> FirstMalformed(doc) == |doc| && forall i :: 0 <= i < |atts| ==> Registrable(atts[i])
    ensures Registry(doc).Ok? ==> Registry(doc).value.Keys == IdsOf(OfType(doc, "attachment"))
  {
    ItemsOfTypeYields(doc, "attachment");
    var k := FirstMalformed(doc);
    if k == |doc| {
      assert doc[..k] == doc;
    }
    var items := ItemsOfTypeStream(doc, "attachment").yielded;
    RegisterOk(items);
    if Register(items).Ok? {
      RegisterKeys(items);
    }
  }

  /** On a repeated post id the later attachment wins. */
  lemma RegistryLastWins(doc: seq<Element>, i: nat)
    requires Registry(doc).Ok?
    requires var atts := OfType(doc, "attachment");
      && i < |atts| && Has(atts[i], PostId)
      && forall j :: i < j < |atts| ==> Has(atts[j], PostId) && Text(atts[j], PostId) != Text(atts[i], PostId)
    ensures var atts := OfType(doc, "attachment");
      && Has(atts[i], AttachmentUrl)
      && Text(atts[i], PostId) in Registry(doc).value
      && Registry(doc).value[Text(atts[i], PostId)] == Text(atts[i], AttachmentUrl)
  {
    RegistryCoversAttachments(doc);
    ItemsOfTypeYields(doc, "attachment");
    assert doc[..|doc|] == doc;
    RegisterLastWins(OfType(doc, "attachment"), i);
  }

  method AttachmentsById(doc: seq<Element>) returns (r: Result<map<string, string>, Error>)
    ensures r == Registry(doc)
  {
    var items, failure := ItemsOfType(doc, "attachment");
    var urls: map<string, string> := map[];
    var i := 0;
    while i < |items|
      invariant i <= |items|
      invariant Register(items[..i]) == Ok(urls)
    {
      assert items[..i + 1][..i] == items[..i];
      var theId := TextOf(items[i], PostId);
      if theId.Err? {
        RegisterErrPersists(items, i + 1);
        return Err(theId.error);
      }
      var url := TextOf(items[i], AttachmentUrl);
      if url.Err? {
        RegisterErrPersists(items, i + 1);
        return Err(url.error);
      }
      urls := urls[theId.value := url.value];
      i := i + 1;
    }
    assert items[..i] == items;
    if failure.Some? {
      return Err(failure.value);
    }
    return Ok(urls);
  }

  /** With the registry of the same export, the thumbnail extractor fails only
      on a thumbnail id that no attachment of the export carries. */
  lemma ThumbnailFromRegistry(doc: seq<Element>, el: Element)
    requires Registry(doc).Ok?
    ensures var atts := OfType(doc, "attachment");
      && (forall i :: 0 <= i < |atts| ==> Registrable(atts[i]))
      && (ThumbnailParser(Registry(doc).value, el).Err? <==>
            ParseMetadata(el, ThumbnailId).Some? && ParseMetadata(el, ThumbnailId).value !in IdsOf(atts))
  {
    RegistryCoversAttachments(doc);
  }
}
