/** A converted post: its title, URL slug, publication date, tag names and
    body text. */
module Pages {
  datatype Page = Page(title: string, slug: string, pubDate: string, tags: seq<string>, content: string)
}
