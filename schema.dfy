/** The records the store holds (shared/schema.ts, client/src/lib/types.ts).
    Dates are integer timestamps; `null`/`undefined` fields are `Option`s. */
module Schema {
  import opened Wrappers

  type Timestamp = int

  /** The frontmatter keys the loader reads, already typed: `slug` and
      `title` strings, `date` and `updated` timestamps, `sequence` an
      integer, `tags` a list of strings. `None` is an absent key. A falsy
      `slug`, `title` or `sequence` (the empty string, 0) is kept as parsed,
      and the loader applies JavaScript's `||` to it; a `date` or `updated`
      key holds a date, which is never falsy, so a falsy value there is
      represented as `None`. */
  datatype Frontmatter = Frontmatter(
    slug: Option<string>,
    title: Option<string>,
    date: Option<Timestamp>,
    updated: Option<Timestamp>,
    sequence: Option<int>,
    tags: Option<seq<string>>)

  /** The fields of an article without its id (`InsertArticle`). */
  datatype InsertArticle = InsertArticle(
    slug: string,
    title: string,
    content: string,
    html: string,
    collection: string,
    date: Timestamp,
    updatedAt: Option<Timestamp>,
    sequence: Option<int>,
    tags: seq<string>,
    frontmatter: Frontmatter)

  datatype InsertCollection = InsertCollection(name: string, slug: string, description: string)

  datatype ChapterArticle = ChapterArticle(slug: string, collection: string)

  datatype Chapter = Chapter(title: string, description: string, articles: seq<ChapterArticle>)

  /** A group descriptor may omit `name` when it gives a `slug`; the store
      keeps whatever the descriptor held. */
  datatype InsertGroup = InsertGroup(
    name: Option<string>,
    slug: string,
    description: string,
    chapters: seq<Chapter>)

  /** A stored record: the inserted fields plus the id the store assigned
      (`{ ...insert, id }`). */
  datatype Row<R> = Row(id: nat, fields: R)

  type Article = Row<InsertArticle>
  type Collection = Row<InsertCollection>
  type Group = Row<InsertGroup>

  /** An entry of the tag list: a read-time aggregate, never stored. */
  datatype Tag = Tag(name: string, count: nat, slug: string)
}
