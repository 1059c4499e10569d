/** The in-memory store (server/storage.ts, class MemStorage): three
    slug-keyed JavaScript Maps and three id counters. The `create*` methods
    never fail: a second record with the same slug replaces the first. */
module Storage {
  import opened Wrappers
  import opened Schema
  import opened JsMaps
  import opened JsArrays

  /** One table's invariant: the key order is consistent, every stored id is
      below the table's counter, and no two stored rows share an id. */
  ghost predicate RowsValid<R>(m: JsMap<Row<R>>, next: nat) {
    && m.Valid()
    && 1 <= next
    && (forall k | k in m.entries :: m.entries[k].id < next)
    && (forall k1, k2 | k1 in m.entries && k2 in m.entries && k1 != k2 ::
          m.entries[k1].id != m.entries[k2].id)
  }

  /** The slug under which `create*` stores a record. */
  function ArticleSlug(a: InsertArticle): string { a.slug }
  function CollectionSlug(c: InsertCollection): string { c.slug }
  function GroupSlug(g: InsertGroup): string { g.slug }

  /** A table after `create*` has been called on each of `recs` in turn,
      the counter starting at `next`. */
  function CreateAll<R>(m: JsMap<Row<R>>, next: nat, recs: seq<R>, slugOf: R -> string): JsMap<Row<R>>
    decreases |recs|
  {
    if recs == [] then m
    else CreateAll(m.Set(slugOf(recs[0]), Row(next, recs[0])), next + 1, recs[1..], slugOf)
  }

  /** The position of the last record of `recs` stored under `k`, or -1. */
  function LastIndex<R>(recs: seq<R>, slugOf: R -> string, k: string): (i: int)
    ensures -1 <= i < |recs|
    ensures i >= 0 ==> slugOf(recs[i]) == k
    ensures forall j :: i < j < |recs| ==> slugOf(recs[j]) != k
  {
    if recs == [] then -1
    else
      var later := LastIndex(recs[1..], slugOf, k);
      if later >= 0 then 1 + later
      else if slugOf(recs[0]) == k then 0
      else -1
  }

  /** Creating one more record extends the fold by one `set`. */
  lemma {:induction false} CreateAllSnoc<R>(m: JsMap<Row<R>>, next: nat, recs: seq<R>, x: R, slugOf: R -> string)
    ensures CreateAll(m, next, recs + [x], slugOf)
         == CreateAll(m, next, recs, slugOf).Set(slugOf(x), Row(next + |recs|, x))
    decreases |recs|
  {
    if recs != [] {
      var m' := m.Set(slugOf(recs[0]), Row(next, recs[0]));
      assert (recs + [x])[0] == recs[0];
      assert (recs + [x])[1..] == recs[1..] + [x];
      calc {
        CreateAll(m, next, recs + [x], slugOf);
        CreateAll(m', next + 1, recs[1..] + [x], slugOf);
        { CreateAllSnoc(m', next + 1, recs[1..], x, slugOf); }
        CreateAll(m', next + 1, recs[1..], slugOf).Set(slugOf(x), Row(next + |recs|, x));
      }
    }
  }

  /** Creating `a` and then `b` is creating `a + b`. */
  lemma {:induction false} CreateAllAppend<R>(m: JsMap<Row<R>>, next: nat, a: seq<R>, b: seq<R>, slugOf: R -> string)
    ensures CreateAll(m, next, a + b, slugOf) == CreateAll(CreateAll(m, next, a, slugOf), next + |a|, b, slugOf)
    decreases |a|
  {
    if a == [] {
      assert a + b == b;
    } else {
      assert (a + b)[0] == a[0] && (a + b)[1..] == a[1..] + b;
      CreateAllAppend(m.Set(slugOf(a[0]), Row(next, a[0])), next + 1, a[1..], b, slugOf);
    }
  }

  /** Storing a row with the counter's id keeps the table invariant with
      the counter advanced. */
  lemma InsertValid<R>(m: JsMap<Row<R>>, next: nat, k: string, v: R)
    requires RowsValid(m, next)
    ensures RowsValid(m.Set(k, Row(next, v)), next + 1)
  {
    var m' := m.Set(k, Row(next, v));
    forall k1, k2 | k1 in m'.entries && k2 in m'.entries && k1 != k2
      ensures m'.entries[k1].id != m'.entries[k2].id
    {
      assert m'.Get(k1).Some? && m'.Get(k2).Some?;
    }
    forall k' | k' in m'.entries ensures m'.entries[k'].id < next + 1 {
      assert m'.Get(k').Some?;
    }
  }

  /** Replacing a stored row by one with the same id keeps the invariant. */
  lemma ReplaceValid<R>(m: JsMap<Row<R>>, next: nat, k: string, v: Row<R>)
    requires RowsValid(m, next) && k in m.entries && v.id == m.entries[k].id
    ensures RowsValid(m.Set(k, v), next)
  {
    var m' := m.Set(k, v);
    forall k1, k2 | k1 in m'.entries && k2 in m'.entries && k1 != k2
      ensures m'.entries[k1].id != m'.entries[k2].id
    {
      assert m'.Get(k1).Some? && m'.Get(k2).Some?;
      assert m.Get(k1).Some? && m.Get(k2).Some?;
    }
    forall k' | k' in m'.entries ensures m'.entries[k'].id < next {
      assert m'.Get(k').Some? && m.Get(k').Some?;
    }
  }

  /** Deleting a key keeps the invariant. */
  lemma DeleteValid<R>(m: JsMap<Row<R>>, next: nat, k: string)
    requires RowsValid(m, next)
    ensures RowsValid(m.Delete(k), next)
  {
    var m' := m.Delete(k);
    forall k1, k2 | k1 in m'.entries && k2 in m'.entries && k1 != k2
      ensures m'.entries[k1].id != m'.entries[k2].id
    {
      assert m'.Get(k1) == m.Get(k1) && m'.Get(k2) == m.Get(k2);
    }
    forall k' | k' in m'.entries ensures m'.entries[k'].id < next {
      assert m'.Get(k') == m.Get(k');
    }
  }

  /** Creating keeps the table invariant; the counter advances by one per
      record, whether or not its slug was already present. */
  lemma {:induction false} CreateAllValid<R>(m: JsMap<Row<R>>, next: nat, recs: seq<R>, slugOf: R -> string)
    requires RowsValid(m, next)
    ensures RowsValid(CreateAll(m, next, recs, slugOf), next + |recs|)
    decreases |recs|
  {
    if recs != [] {
      var m' := m.Set(slugOf(recs[0]), Row(next, recs[0]));
      InsertValid(m, next, slugOf(recs[0]), recs[0]);
      CreateAllValid(m', next + 1, recs[1..], slugOf);
    }
  }

  /** Last write wins: each slug holds the last record created under it,
      with the id it was given; slugs no record used are untouched. */
  lemma {:induction false} CreateAllGet<R>(m: JsMap<Row<R>>, next: nat, recs: seq<R>, slugOf: R -> string, k: string)
    ensures var i := LastIndex(recs, slugOf, k);
            CreateAll(m, next, recs, slugOf).Get(k)
            == if i == -1 then m.Get(k) else Some(Row(next + i, recs[i]))
    decreases |recs|
  {
    if recs != [] {
      CreateAllGet(m.Set(slugOf(recs[0]), Row(next, recs[0])), next + 1, recs[1..], slugOf, k);
    }
  }

  /** Creating never moves a key: the old key order is a prefix of the new
      one (new slugs are appended in order of first creation). */
  lemma {:induction false} CreateAllKeys<R>(m: JsMap<Row<R>>, next: nat, recs: seq<R>, slugOf: R -> string)
    requires m.Valid()
    ensures var r := CreateAll(m, next, recs, slugOf);
            && r.Valid()
            && |m.keys| <= |r.keys|
            && r.keys[..|m.keys|] == m.keys
    decreases |recs|
  {
    if recs != [] {
      var m' := m.Set(slugOf(recs[0]), Row(next, recs[0]));
      CreateAllKeys(m', next + 1, recs[1..], slugOf);
      var r := CreateAll(m, next, recs, slugOf);
      assert r.keys[..|m.keys|] == m'.keys[..|m.keys|];
    }
  }

  /** Creating never removes a slug, and every created slug is present. */
  lemma {:induction false} CreateAllHasSlugs<R>(m: JsMap<Row<R>>, next: nat, recs: seq<R>, slugOf: R -> string)
    ensures var r := CreateAll(m, next, recs, slugOf);
            && m.entries.Keys <= r.entries.Keys
            && forall i | 0 <= i < |recs| :: slugOf(recs[i]) in r.entries
    decreases |recs|
  {
    if recs != [] {
      var m' := m.Set(slugOf(recs[0]), Row(next, recs[0]));
      CreateAllHasSlugs(m', next + 1, recs[1..], slugOf);
      var r := CreateAll(m, next, recs, slugOf);
      forall i | 0 <= i < |recs| ensures slugOf(recs[i]) in r.entries {
        if i > 0 {
          assert recs[i] == recs[1..][i - 1];
        }
      }
    }
  }

  /** Creating records whose slugs are all present already changes neither
      the key set nor the key order. */
  lemma {:induction false} CreateAllPresent<R>(m: JsMap<Row<R>>, next: nat, recs: seq<R>, slugOf: R -> string)
    requires forall i | 0 <= i < |recs| :: slugOf(recs[i]) in m.entries
    ensures var r := CreateAll(m, next, recs, slugOf);
            r.keys == m.keys && r.entries.Keys == m.entries.Keys
    decreases |recs|
  {
    if recs != [] {
      var m' := m.Set(slugOf(recs[0]), Row(next, recs[0]));
      forall i | 0 <= i < |recs[1..]| ensures slugOf(recs[1..][i]) in m'.entries {
        assert recs[1..][i] == recs[i + 1];
      }
      CreateAllPresent(m', next + 1, recs[1..], slugOf);
    }
  }

  /** Creating, a second time, records under the same slugs in the same
      order adds no key and moves none; when they are the very same records,
      each slug again holds the fields it held. */
  lemma CreateAllTwice<R>(m: JsMap<Row<R>>, next: nat, recs: seq<R>, next2: nat, recs2: seq<R>, slugOf: R -> string)
    requires |recs2| == |recs|
    requires forall i | 0 <= i < |recs| :: slugOf(recs2[i]) == slugOf(recs[i])
    ensures var once := CreateAll(m, next, recs, slugOf);
            var twice := CreateAll(once, next2, recs2, slugOf);
            && twice.keys == once.keys
            && twice.entries.Keys == once.entries.Keys
            && (recs2 == recs ==>
                  forall k | k in once.entries :: twice.entries[k].fields == once.entries[k].fields)
  {
    var once := CreateAll(m, next, recs, slugOf);
    var twice := CreateAll(once, next2, recs2, slugOf);
    CreateAllHasSlugs(m, next, recs, slugOf);
    CreateAllPresent(once, next2, recs2, slugOf);
    if recs2 == recs {
      forall k | k in once.entries ensures twice.entries[k].fields == once.entries[k].fields {
        CreateAllGet(m, next, recs, slugOf, k);
        CreateAllGet(once, next2, recs, slugOf, k);
      }
    }
  }

  /** A `Partial<InsertArticle>`: `None` marks a key absent from the patch. */
  datatype ArticlePatch = ArticlePatch(
    slug: Option<string>,
    title: Option<string>,
    content: Option<string>,
    html: Option<string>,
    collection: Option<string>,
    date: Option<Timestamp>,
    updatedAt: Option<Option<Timestamp>>,
    sequence: Option<Option<int>>,
    tags: Option<seq<string>>,
    frontmatter: Option<Frontmatter>)

  /** `{ ...existing, ...patch, updatedAt: now }`. */
  function Overlay(a: Article, p: ArticlePatch, now: Timestamp): Article {
    var f := a.fields;
    Row(a.id, InsertArticle(
      p.slug.GetOr(f.slug),
      p.title.GetOr(f.title),
      p.content.GetOr(f.content),
      p.html.GetOr(f.html),
      p.collection.GetOr(f.collection),
      p.date.GetOr(f.date),
      Some(now),
      p.sequence.GetOr(f.sequence),
      p.tags.GetOr(f.tags),
      p.frontmatter.GetOr(f.frontmatter)))
  }

  /** Applying the same patch twice at the same time changes nothing more,
      and an empty patch changes only `updatedAt`. */
  lemma OverlayIdempotent(a: Article, p: ArticlePatch, now: Timestamp)
    ensures Overlay(Overlay(a, p, now), p, now) == Overlay(a, p, now)
    ensures var empty := ArticlePatch(None, None, None, None, None, None, None, None, None, None);
            Overlay(a, empty, now) == Row(a.id, a.fields.(updatedAt := Some(now)))
  {
  }

  /** The order of `getArticles`: most recent date first. */
  function ByDateDesc(a: Article, b: Article): int {
    b.fields.date - a.fields.date
  }

  /** The order of `getArticlesByCollection`: by sequence when both have one,
      otherwise most recent date first. Not a total order on a mix of
      articles with and without a sequence. */
  function BySequenceThenDate(a: Article, b: Article): int {
    if a.fields.sequence.Some? && b.fields.sequence.Some? then
      a.fields.sequence.value - b.fields.sequence.value
    else
      b.fields.date - a.fields.date
  }

  /** Integer keys these comparators agree with: ascending `DateKey` is
      most recent first, ascending `SequenceKey` is ascending sequence. */
  function DateKey(a: Article): int { -a.fields.date }
  function SequenceKey(a: Article): int { a.fields.sequence.GetOr(0) }

  lemma ByDateDescAgrees(s: seq<Article>)
    ensures Agrees(s, ByDateDesc, DateKey)
  {
  }

  predicate InCollection(c: string, a: Article) { a.fields.collection == c }
  predicate HasTag(t: string, a: Article) { t in a.fields.tags }

  /** `getArticles` over the stored values: all of them, most recent first;
      articles with the same date keep their insertion order. */
  function ArticlesByDate(vals: seq<Article>): (r: seq<Article>)
    ensures multiset(r) == multiset(vals)
    ensures forall i, j :: 0 <= i < j < |r| ==> r[i].fields.date >= r[j].fields.date
    ensures StableBy(r, vals, DateKey)
  {
    ByDateDescAgrees(vals);
    SortOrdered(vals, ByDateDesc, DateKey);
    SortStable(vals, ByDateDesc, DateKey);
    Sort(vals, ByDateDesc)
  }

  /** `getArticlesByCollection` over the stored values: exactly the articles
      of collection `c`, in the order `CollectionOrder` describes. */
  function ArticlesOfCollection(vals: seq<Article>, c: string): (r: seq<Article>)
    ensures forall a | a in vals ::
              multiset(r)[a] == if a.fields.collection == c then multiset(vals)[a] else 0
    ensures forall a | a in r :: a.fields.collection == c && a in vals
  {
    var inC := a => InCollection(c, a);
    var members := Filter(vals, inC);
    FilterSpec(vals, inC);
    var r := Sort(members, BySequenceThenDate);
    SameElements(r, members);
    r
  }

  /** The collection order: when every article has a sequence they are in
      ascending sequence order; when none has, most recent first; either way
      ties keep their order in `members`. */
  lemma CollectionOrder(members: seq<Article>)
    ensures var r := Sort(members, BySequenceThenDate);
            (forall a | a in members :: a.fields.sequence.Some?) ==>
              && SortedBy(r, SequenceKey)
              && StableBy(r, members, SequenceKey)
    ensures var r := Sort(members, BySequenceThenDate);
            (forall a | a in members :: a.fields.sequence.None?) ==>
              && SortedBy(r, DateKey)
              && StableBy(r, members, DateKey)
  {
    var r := Sort(members, BySequenceThenDate);
    SameElements(r, members);
    if forall a | a in members :: a.fields.sequence.Some? {
      SequencesAgree(members);
      SortOrdered(members, BySequenceThenDate, SequenceKey);
      SortStable(members, BySequenceThenDate, SequenceKey);
    }
    if forall a | a in members :: a.fields.sequence.None? {
      DatesAgree(members);
      SortOrdered(members, BySequenceThenDate, DateKey);
      SortStable(members, BySequenceThenDate, DateKey);
    }
  }

  /** Two sequences with the same multiset hold the same elements. */
  lemma SameElements<T>(r: seq<T>, s: seq<T>)
    requires multiset(r) == multiset(s)
    ensures forall x :: x in r <==> x in s
  {
    forall x ensures x in r <==> x in s {
      assert x in r <==> x in multiset(r);
      assert x in s <==> x in multiset(s);
    }
  }

  /** Among articles that all have a sequence, the collection order is the
      sequence order. */
  lemma SequencesAgree(s: seq<Article>)
    requires forall a | a in s :: a.fields.sequence.Some?
    ensures Agrees(s, BySequenceThenDate, SequenceKey)
  {
  }

  /** Among articles without a sequence, the collection order is the date
      order, newest first. */
  lemma DatesAgree(s: seq<Article>)
    requires forall a | a in s :: a.fields.sequence.None?
    ensures Agrees(s, BySequenceThenDate, DateKey)
  {
  }

  /** `getArticlesByTag` over the stored values: exactly the articles whose
      tag list contains `t` (exact, case-sensitive match), most recent
      first. */
  function ArticlesWithTag(vals: seq<Article>, t: string): (r: seq<Article>)
    ensures forall a | a in vals ::
              multiset(r)[a] == if t in a.fields.tags then multiset(vals)[a] else 0
    ensures forall a | a in r :: t in a.fields.tags && a in vals
    ensures forall i, j :: 0 <= i < j < |r| ==> r[i].fields.date >= r[j].fields.date
  {
    var hasT := a => HasTag(t, a);
    var tagged := Filter(vals, hasT);
    FilterSpec(vals, hasT);
    ByDateDescAgrees(tagged);
    SortOrdered(tagged, ByDateDesc, DateKey);
    var r := Sort(tagged, ByDateDesc);
    SameElements(r, tagged);
    r
  }

  class MemStorage {
    var articles: JsMap<Article>
    var collections: JsMap<Collection>
    var groups: JsMap<Group>
    var articleId: nat
    var collectionId: nat
    var groupId: nat

    /** Each table's key order lists exactly its slugs, once each. */
    ghost predicate Valid()
      reads this
    {
      articles.Valid() && collections.Valid() && groups.Valid()
    }

    /** The id discipline: every counter is at least 1, every stored id is
        below its table's counter, and no two rows of a table share an id. */
    ghost predicate IdsValid()
      reads this
    {
      && RowsValid(articles, articleId)
      && RowsValid(collections, collectionId)
      && RowsValid(groups, groupId)
    }

    constructor()
      ensures Valid() && IdsValid()
      ensures articles == EmptyMap() && collections == EmptyMap() && groups == EmptyMap()
      ensures articleId == 1 && collectionId == 1 && groupId == 1
    {
      articles, collections, groups := EmptyMap(), EmptyMap(), EmptyMap();
      articleId, collectionId, groupId := 1, 1, 1;
    }

    /** `getArticles`. */
    function GetArticles(): seq<Article>
      reads this
      requires Valid()
    {
      ArticlesByDate(articles.Values())
    }

    /** `getArticlesByCollection(c)`. */
    function GetArticlesByCollection(c: string): seq<Article>
      reads this
      requires Valid()
    {
      ArticlesOfCollection(articles.Values(), c)
    }

    /** `getArticlesByTag(t)`. */
    function GetArticlesByTag(t: string): seq<Article>
      reads this
      requires Valid()
    {
      ArticlesWithTag(articles.Values(), t)
    }

    /** `articles.get(slug)`. */
    function GetArticle(slug: string): Option<Article>
      reads this
    {
      articles.Get(slug)
    }

    /** Stores `{ ...a, id }` under `a.slug`, replacing any article there; the
        id is the counter's value before the call, and the counter always
        advances by one. */
    method CreateArticle(a: InsertArticle) returns (r: Article)
      requires Valid()
      modifies this
      ensures Valid()
      ensures old(IdsValid()) ==> IdsValid()
      ensures r == Row(old(articleId), a) && articleId == old(articleId) + 1
      ensures articles == old(articles).Set(a.slug, r)
      ensures GetArticle(a.slug) == Some(r)
      ensures forall s :: s != a.slug ==> GetArticle(s) == old(GetArticle(s))
      ensures collections == old(collections) && groups == old(groups)
      ensures collectionId == old(collectionId) && groupId == old(groupId)
    {
      r := Row(articleId, a);
      if IdsValid() {
        InsertValid(articles, articleId, a.slug, a);
      }
      articles := articles.Set(a.slug, r);
      articleId := articleId + 1;
    }

    /** A missing slug yields undefined and changes nothing; otherwise the
        patch is laid over the stored article, `updatedAt` becomes `now`, and
        the result is stored under the ORIGINAL slug, even when the patch
        gives the article a different `slug` field. */
    method UpdateArticle(slug: string, patch: ArticlePatch, now: Timestamp) returns (r: Option<Article>)
      requires Valid()
      modifies this
      ensures Valid()
      ensures old(IdsValid()) ==> IdsValid()
      ensures old(GetArticle(slug)).None? ==> r.None? && articles == old(articles)
      ensures old(GetArticle(slug)).Some? ==>
                && r == Some(Overlay(old(GetArticle(slug)).value, patch, now))
                && articles == old(articles).Set(slug, r.value)
                && articles.keys == old(articles.keys)
      ensures forall s :: s != slug ==> GetArticle(s) == old(GetArticle(s))
      ensures collections == old(collections) && groups == old(groups)
      ensures articleId == old(articleId) && collectionId == old(collectionId) && groupId == old(groupId)
    {
      var existing := articles.Get(slug);
      if existing.None? {
        return None;
      }
      var updated := Overlay(existing.value, patch, now);
      if IdsValid() {
        ReplaceValid(articles, articleId, slug, updated);
      }
      articles := articles.Set(slug, updated);
      r := Some(updated);
    }

    /** `articles.delete(slug)`: true exactly when the slug was present;
        afterwards it is absent and every other entry is as it was. */
    method DeleteArticle(slug: string) returns (existed: bool)
      requires Valid()
      modifies this
      ensures Valid()
      ensures old(IdsValid()) ==> IdsValid()
      ensures existed == old(GetArticle(slug)).Some?
      ensures articles == old(articles).Delete(slug)
      ensures GetArticle(slug) == None
      ensures forall s :: s != slug ==> GetArticle(s) == old(GetArticle(s))
      ensures collections == old(collections) && groups == old(groups)
      ensures articleId == old(articleId) && collectionId == old(collectionId) && groupId == old(groupId)
    {
      existed := articles.Get(slug).Some?;
      if IdsValid() {
        DeleteValid(articles, articleId, slug);
      }
      articles := articles.Delete(slug);
    }

    /** `Array.from(collections.values())`: in first-insertion order. */
    function GetCollections(): seq<Collection>
      reads this
      requires Valid()
    {
      collections.Values()
    }

    function GetCollection(slug: string): Option<Collection>
      reads this
    {
      collections.Get(slug)
    }

    /** Stores `{ ...c, id }` under `c.slug`. A slug already present keeps its
        place in `getCollections`; a new one goes last. */
    method CreateCollection(c: InsertCollection) returns (r: Collection)
      requires Valid()
      modifies this
      ensures Valid()
      ensures old(IdsValid()) ==> IdsValid()
      ensures r == Row(old(collectionId), c) && collectionId == old(collectionId) + 1
      ensures collections == old(collections).Set(c.slug, r)
      ensures GetCollection(c.slug) == Some(r)
      ensures forall s :: s != c.slug ==> GetCollection(s) == old(GetCollection(s))
      ensures articles == old(articles) && groups == old(groups)
      ensures articleId == old(articleId) && groupId == old(groupId)
    {
      r := Row(collectionId, c);
      if IdsValid() {
        InsertValid(collections, collectionId, c.slug, c);
      }
      collections := collections.Set(c.slug, r);
      collectionId := collectionId + 1;
    }

    /** `Array.from(groups.values())`: in first-insertion order. */
    function GetGroups(): seq<Group>
      reads this
      requires Valid()
    {
      groups.Values()
    }

    function GetGroup(slug: string): Option<Group>
      reads this
    {
      groups.Get(slug)
    }

    /** Stores `{ ...g, id }` under `g.slug`, as `CreateCollection` does. */
    method CreateGroup(g: InsertGroup) returns (r: Group)
      requires Valid()
      modifies this
      ensures Valid()
      ensures old(IdsValid()) ==> IdsValid()
      ensures r == Row(old(groupId), g) && groupId == old(groupId) + 1
      ensures groups == old(groups).Set(g.slug, r)
      ensures GetGroup(g.slug) == Some(r)
      ensures forall s :: s != g.slug ==> GetGroup(s) == old(GetGroup(s))
      ensures articles == old(articles) && collections == old(collections)
      ensures articleId == old(articleId) && collectionId == old(collectionId)
    {
      r := Row(groupId, g);
      if IdsValid() {
        InsertValid(groups, groupId, g.slug, g);
      }
      groups := groups.Set(g.slug, r);
      groupId := groupId + 1;
    }
  }
}
