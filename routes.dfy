/** The read-side logic of the HTTP routes (server/routes.ts): the tag list
    of `/api/tags`, the found/404 answer of the single-item routes, and the
    startup decision to write the sample content before loading. */
module Routes {
  import opened Wrappers
  import opened Schema
  import opened JsMaps
  import opened JsArrays
  import opened Storage
  import opened Content

  // ---------------------------------------------------------------------
  // `/api/tags`

  /** Every tag entry of the articles: article by article, each article's
      list in order, repeats included. */
  function AllTags(articles: seq<Article>): seq<string> {
    if articles == [] then []
    else AllTags(articles[..|articles| - 1]) + articles[|articles| - 1].fields.tags
  }

  /** `tagCounts[tag] = (tagCounts[tag] || 0) + 1`, counting as intended:
      the object is taken as a dictionary with no inherited keys, whose
      string keys remember their first insertion. The plain object as
      written differs for the names Object.prototype defines; see
      `TallyAsWritten`. */
  function Bump(counts: JsMap<nat>, t: string): JsMap<nat> {
    counts.Set(t, counts.Get(t).GetOr(0) + 1)
  }

  /** The counts object after the nested `forEach` over the tag entries `ts`. */
  function Tally(ts: seq<string>): JsMap<nat> {
    if ts == [] then EmptyMap() else Bump(Tally(ts[..|ts| - 1]), ts[|ts| - 1])
  }

  /** The distinct elements of `ts`, in the order of their first occurrence. */
  function Dedup(ts: seq<string>): (d: seq<string>)
    ensures Distinct(d)
    ensures forall t :: t in d <==> t in ts
  {
    if ts == [] then []
    else
      var front := Dedup(ts[..|ts| - 1]);
      var x := ts[|ts| - 1];
      assert ts == ts[..|ts| - 1] + [x];
      DistinctSnoc(front, x);
      if x in front then front else front + [x]
  }

  predicate IsDigit(c: char) {
    '0' <= c <= '9'
  }

  function DigitValue(c: char): nat {
    if IsDigit(c) then c as int - '0' as int else 0
  }

  /** The number a string of decimal digits denotes. */
  function DecimalValue(s: string): nat {
    if s == [] then 0 else 10 * DecimalValue(s[..|s| - 1]) + DigitValue(s[|s| - 1])
  }

  /** An ECMAScript array index: the canonical decimal form (no sign, no
      leading zero) of an integer below 2^32 - 1. Object property keys of
      this form are the "integer-like" ones. */
  predicate IsArrayIndex(s: string) {
    && |s| > 0
    && (forall i | 0 <= i < |s| :: IsDigit(s[i]))
    && (s[0] != '0' || |s| == 1)
    && DecimalValue(s) < 0xFFFF_FFFF
  }

  predicate IsNamed(s: string) {
    !IsArrayIndex(s)
  }

  function IndexCmp(a: string, b: string): int {
    DecimalValue(a) - DecimalValue(b)
  }

  function IndexKey(a: string): int {
    DecimalValue(a)
  }

  /** The key order of `Object.entries`: array-index keys in ascending numeric
      order, then every other key in insertion order. */
  function EntryOrder(keys: seq<string>): seq<string> {
    Sort(Filter(keys, IsArrayIndex), IndexCmp) + Filter(keys, IsNamed)
  }

  /** `.map(([name, count]) => ({ name, count, slug: name }))`. */
  function TagsOf(counts: JsMap<nat>, names: seq<string>): seq<Tag> {
    seq(|names|, i requires 0 <= i < |names| => Tag(names[i], counts.Get(names[i]).GetOr(0), names[i]))
  }

  /** `(a, b) => b.count - a.count`. */
  function ByCountDesc(a: Tag, b: Tag): int {
    b.count - a.count
  }

  function CountKey(t: Tag): int {
    0 - t.count as int
  }

  /** The tag objects before the sort, in `Object.entries` order. */
  function TagEntries(articles: seq<Article>): seq<Tag> {
    var counts := Tally(AllTags(articles));
    TagsOf(counts, EntryOrder(counts.keys))
  }

  /** The body of `/api/tags` for the articles `getArticles` returned. */
  function TagList(articles: seq<Article>): seq<Tag> {
    Sort(TagEntries(articles), ByCountDesc)
  }

  lemma AllTagsSnoc(articles: seq<Article>, a: Article)
    ensures AllTags(articles + [a]) == AllTags(articles) + a.fields.tags
  {
    assert (articles + [a])[..|articles|] == articles;
  }

  lemma TallySnoc(ts: seq<string>, t: string)
    ensures Tally(ts + [t]) == Bump(Tally(ts), t)
  {
    assert (ts + [t])[..|ts|] == ts;
  }

  /** The nested `forEach` loops: one count per tag entry. */
  method CountTags(articles: seq<Article>) returns (counts: JsMap<nat>)
    ensures counts == Tally(AllTags(articles))
  {
    counts := EmptyMap();
    for i := 0 to |articles|
      invariant counts == Tally(AllTags(articles[..i]))
    {
      ghost var before := AllTags(articles[..i]);
      counts := CountArticleTags(counts, before, articles[i].fields.tags);
      AllTagsSnoc(articles[..i], articles[i]);
      assert articles[..i] + [articles[i]] == articles[..i + 1];
    }
    assert articles[..|articles|] == articles;
  }

  /** The inner `forEach`: one article's tags counted on top of the tags
      `before` it. */
  method CountArticleTags(counts0: JsMap<nat>, ghost before: seq<string>, tags: seq<string>)
    returns (counts: JsMap<nat>)
    requires counts0 == Tally(before)
    ensures counts == Tally(before + tags)
  {
    counts := counts0;
    assert before + tags[..0] == before;
    for j := 0 to |tags|
      invariant counts == Tally(before + tags[..j])
    {
      var t := tags[j];
      ghost var seen := before + tags[..j];
      TallySnoc(seen, t);
      assert seen + [t] == before + tags[..j + 1];
      counts := counts.Set(t, counts.Get(t).GetOr(0) + 1);
    }
    assert tags[..|tags|] == tags;
  }

  /** The handler: counts the tags of `getArticles`, turns the counts into
      tag objects and sorts them. */
  method GetTags(store: MemStorage) returns (tags: seq<Tag>)
    requires store.Valid()
    ensures tags == TagList(store.GetArticles())
  {
    var articles := store.GetArticles();
    var counts := CountTags(articles);
    var entries := TagsOf(counts, EntryOrder(counts.keys));
    tags := Sort(entries, ByCountDesc);
  }

  /** The counts object: its keys are the distinct tags in first-encounter
      order, and each holds the number of times its tag occurs. */
  lemma {:induction false} TallySpec(ts: seq<string>)
    ensures Tally(ts).Valid()
    ensures Tally(ts).keys == Dedup(ts)
    ensures forall t :: t in Tally(ts).entries <==> t in ts
    ensures forall t | t in Tally(ts).entries :: Tally(ts).entries[t] == multiset(ts)[t]
  {
    if ts != [] {
      var front := ts[..|ts| - 1];
      var x := ts[|ts| - 1];
      TallySpec(front);
      assert ts == front + [x];
      assert multiset(ts) == multiset(front) + multiset{x};
    }
  }

  /** `Object.entries` lists every key once. */
  lemma {:induction false} EntryOrderPerm(keys: seq<string>)
    ensures multiset(EntryOrder(keys)) == multiset(keys)
  {
    FilterSplit(keys);
  }

  lemma {:induction false} FilterSplit(keys: seq<string>)
    ensures multiset(Filter(keys, IsArrayIndex)) + multiset(Filter(keys, IsNamed)) == multiset(keys)
  {
    if keys != [] {
      FilterSplit(keys[1..]);
      assert keys == [keys[0]] + keys[1..];
    }
  }

  /** A sequence without repeats holds each element at most once. */
  lemma {:induction false} DistinctOnce<T>(s: seq<T>)
    requires Distinct(s)
    ensures forall x :: multiset(s)[x] <= 1
  {
    if s != [] {
      DistinctOnce(s[1..]);
      assert s == [s[0]] + s[1..];
      assert s[0] !in s[1..];
    }
  }

  /** ... and a sequence holding each element at most once has no repeats. */
  lemma {:induction false} OnceDistinct<T>(s: seq<T>)
    requires forall x :: multiset(s)[x] <= 1
    ensures Distinct(s)
  {
    if s != [] {
      assert s == [s[0]] + s[1..];
      forall x ensures multiset(s[1..])[x] <= 1 {
        assert multiset(s)[x] == multiset([s[0]])[x] + multiset(s[1..])[x];
      }
      OnceDistinct(s[1..]);
      assert multiset(s)[s[0]] == 1 + multiset(s[1..])[s[0]];
      assert s[0] !in multiset(s[1..]);
    }
  }

  /** The tag objects before the sort name each distinct tag once. */
  lemma EntriesDistinct(articles: seq<Article>)
    ensures Distinct(TagEntries(articles))
    ensures forall i, j | 0 <= i < j < |TagEntries(articles)| :: TagEntries(articles)[i].name != TagEntries(articles)[j].name
  {
    var counts := Tally(AllTags(articles));
    TallySpec(AllTags(articles));
    var names := EntryOrder(counts.keys);
    EntryOrderPerm(counts.keys);
    DistinctOnce(counts.keys);
    OnceDistinct(names);
    var entries := TagEntries(articles);
    forall i, j | 0 <= i < j < |entries| ensures entries[i].name != entries[j].name {
      DistinctApart(names, i, j);
    }
    ApartDistinct(entries);
  }

  /** Each tag object counts the occurrences of its tag over all the
      articles' tag lists (a repeat inside one article counts twice), and its
      slug is its name. */
  lemma TagCounts(articles: seq<Article>)
    ensures forall tag | tag in TagList(articles) ::
              && tag.slug == tag.name
              && tag.name in AllTags(articles)
              && tag.count == multiset(AllTags(articles))[tag.name]
  {
    var entries := TagEntries(articles);
    forall tag | tag in TagList(articles)
      ensures tag.slug == tag.name && tag.name in AllTags(articles)
      ensures tag.count == multiset(AllTags(articles))[tag.name]
    {
      assert tag in multiset(TagList(articles));
      assert tag in multiset(entries);
      var i :| 0 <= i < |entries| && entries[i] == tag;
      TagEntryAt(articles, i);
    }
  }

  /** One tag object before the sort. */
  lemma TagEntryAt(articles: seq<Article>, i: nat)
    requires i < |TagEntries(articles)|
    ensures var tag := TagEntries(articles)[i];
            && tag.slug == tag.name
            && tag.name in AllTags(articles)
            && tag.count == multiset(AllTags(articles))[tag.name]
  {
    var ts := AllTags(articles);
    var counts := Tally(ts);
    TallySpec(ts);
    EntryOrderPerm(counts.keys);
    var names := EntryOrder(counts.keys);
    assert names[i] in multiset(counts.keys);
    assert names[i] in counts.entries;
    assert TagEntries(articles)[i] == Tag(names[i], counts.entries[names[i]], names[i]);
  }

  /** Every tag that occurs appears in the list. */
  lemma TagsCover(articles: seq<Article>)
    ensures forall t | t in AllTags(articles) :: exists tag | tag in TagList(articles) :: tag.name == t
  {
    forall t | t in AllTags(articles) ensures exists tag | tag in TagList(articles) :: tag.name == t {
      TagCovered(articles, t);
    }
  }

  lemma TagCovered(articles: seq<Article>, t: string)
    requires t in AllTags(articles)
    ensures exists tag | tag in TagList(articles) :: tag.name == t
  {
    var ts := AllTags(articles);
    var counts := Tally(ts);
    var names := EntryOrder(counts.keys);
    NamesCover(ts, t);
    var i :| 0 <= i < |names| && names[i] == t;
    var entries := TagsOf(counts, names);
    TagsOfAt(counts, names, i);
    var tag := entries[i];
    assert entries == TagEntries(articles);
    assert tag in multiset(TagList(articles));
  }

  /** Every tag entry is among the names `Object.entries` lists. */
  lemma NamesCover(ts: seq<string>, t: string)
    requires t in ts
    ensures t in EntryOrder(Tally(ts).keys)
  {
    TallySpec(ts);
    assert t in Tally(ts).keys;
    EntryOrderPerm(Tally(ts).keys);
    assert t in multiset(EntryOrder(Tally(ts).keys));
  }

  lemma TagsOfAt(counts: JsMap<nat>, names: seq<string>, i: nat)
    requires i < |names|
    ensures |TagsOf(counts, names)| == |names|
    ensures TagsOf(counts, names)[i].name == names[i]
  {
  }

  /** No name appears twice in the list. */
  lemma TagsOnce(articles: seq<Article>)
    ensures forall i, j | 0 <= i < j < |TagList(articles)| :: TagList(articles)[i].name != TagList(articles)[j].name
  {
    var entries := TagEntries(articles);
    var r := TagList(articles);
    EntriesDistinct(articles);
    DistinctOnce(entries);
    OnceDistinct(r);
    forall i, j | 0 <= i < j < |r| ensures r[i].name != r[j].name {
      assert r[i] in multiset(entries) && r[j] in multiset(entries);
      var a :| 0 <= a < |entries| && entries[a] == r[i];
      var b :| 0 <= b < |entries| && entries[b] == r[j];
      DistinctApart(r, i, j);
      assert a != b;
    }
  }

  lemma CountsAgree(s: seq<Tag>)
    ensures Agrees(s, ByCountDesc, CountKey)
  {
  }

  /** The list is sorted by count, largest first. */
  lemma TagsSorted(articles: seq<Article>)
    ensures forall i, j | 0 <= i < j < |TagList(articles)| :: TagList(articles)[i].count >= TagList(articles)[j].count
  {
    CountsAgree(TagEntries(articles));
    SortOrdered(TagEntries(articles), ByCountDesc, CountKey);
  }

  // The sum of the counts

  function CountOf(t: Tag): nat {
    t.count
  }

  /** `s.reduce((sum, x) => sum + f(x), 0)`. */
  function Total<T>(s: seq<T>, f: T -> nat): nat {
    if s == [] then 0 else f(s[0]) + Total(s[1..], f)
  }

  lemma {:induction false} TotalAppend<T>(a: seq<T>, b: seq<T>, f: T -> nat)
    ensures Total(a + b, f) == Total(a, f) + Total(b, f)
  {
    if a == [] {
      assert a + b == b;
    } else {
      assert (a + b)[1..] == a[1..] + b;
      TotalAppend(a[1..], b, f);
    }
  }

  /** Taking the element at `i` out of `b`. */
  lemma TotalRemove<T>(b: seq<T>, i: nat, f: T -> nat)
    requires i < |b|
    ensures Total(b, f) == f(b[i]) + Total(b[..i] + b[i + 1..], f)
  {
    var x, front, back := b[i], b[..i], b[i + 1..];
    var xb := [x] + back;
    assert b == front + xb;
    TotalAppend(front, xb, f);
    assert xb[1..] == back;
    assert Total(xb, f) == f(x) + Total(back, f);
    TotalAppend(front, back, f);
  }

  lemma MultisetRemove<T>(b: seq<T>, i: nat)
    requires i < |b|
    ensures multiset(b[..i] + b[i + 1..]) == multiset(b) - multiset{b[i]}
  {
    var front, back := b[..i], b[i + 1..];
    assert b == front + [b[i]] + back;
  }

  /** A sum does not depend on the order of its terms. */
  lemma {:induction false} TotalPerm<T>(a: seq<T>, b: seq<T>, f: T -> nat)
    requires multiset(a) == multiset(b)
    ensures Total(a, f) == Total(b, f)
    decreases |a|
  {
    if a == [] {
      assert |b| == |multiset(b)| == 0;
    } else {
      var x := a[0];
      assert x in multiset(b);
      var i :| 0 <= i < |b| && b[i] == x;
      TotalRemove(b, i, f);
      MultisetRemove(b, i);
      assert a == [x] + a[1..];
      assert multiset(a[1..]) == multiset(a) - multiset{x};
      TotalPerm(a[1..], b[..i] + b[i + 1..], f);
    }
  }

  /** The count a tally holds for `t`, as a function of the tag. */
  function CountIn(counts: JsMap<nat>): string -> nat {
    t => counts.Get(t).GetOr(0)
  }

  function Multiplicity(ms: multiset<string>): string -> nat {
    t => ms[t]
  }

  lemma {:induction false} TotalTagsOf(counts: JsMap<nat>, names: seq<string>)
    ensures Total(TagsOf(counts, names), CountOf) == Total(names, CountIn(counts))
  {
    if names != [] {
      assert TagsOf(counts, names)[1..] == TagsOf(counts, names[1..]);
      TotalTagsOf(counts, names[1..]);
    }
  }

  lemma {:induction false} TotalSame(s: seq<string>, f: string -> nat, g: string -> nat)
    requires forall x | x in s :: f(x) == g(x)
    ensures Total(s, f) == Total(s, g)
  {
    if s != [] {
      TotalSame(s[1..], f, g);
    }
  }

  /** One more occurrence of `x` adds one to the sum over distinct names
      exactly when `x` is among them. */
  lemma {:induction false} TotalBump(names: seq<string>, ms: multiset<string>, x: string)
    requires Distinct(names)
    ensures Total(names, Multiplicity(ms + multiset{x}))
         == Total(names, Multiplicity(ms)) + (if x in names then 1 else 0)
  {
    if names != [] {
      var tail := names[1..];
      assert names[0] !in tail;
      TotalBump(tail, ms, x);
    }
  }

  /** Summing the occurrence counts over the distinct elements gives the
      number of elements. */
  lemma {:induction false} TotalDedup(ts: seq<string>)
    ensures Total(Dedup(ts), Multiplicity(multiset(ts))) == |ts|
  {
    if ts != [] {
      var front := ts[..|ts| - 1];
      var x := ts[|ts| - 1];
      assert ts == front + [x];
      TotalDedup(front);
      TotalBump(Dedup(front), multiset(front), x);
      if x !in front {
        TotalAppend(Dedup(front), [x], Multiplicity(multiset(ts)));
        assert x !in Dedup(front);
      }
    }
  }

  /** The counts add up to the number of tag entries over all articles. */
  lemma TagsTotal(articles: seq<Article>)
    ensures Total(TagList(articles), CountOf) == |AllTags(articles)|
  {
    var ts := AllTags(articles);
    var counts := Tally(ts);
    TallySpec(ts);
    var entries := TagEntries(articles);
    TotalPerm(TagList(articles), entries, CountOf);
    TotalTagsOf(counts, EntryOrder(counts.keys));
    EntryOrderPerm(counts.keys);
    TotalPerm(EntryOrder(counts.keys), counts.keys, CountIn(counts));
    TotalSame(counts.keys, CountIn(counts), Multiplicity(multiset(ts)));
    TotalDedup(ts);
  }

  // The order of equal counts

  /** `a` comes before `b` in `Object.entries` of the counts of `ts`:
      array-index names first, in ascending numeric order, then the other
      names in the order they were first encountered. */
  predicate EntryBefore(ts: seq<string>, a: string, b: string) {
    if IsArrayIndex(a) then !IsArrayIndex(b) || DecimalValue(a) <= DecimalValue(b)
    else !IsArrayIndex(b) && a in ts && b in ts && IndexOfKey(ts, a) < IndexOfKey(ts, b)
  }

  function NameBefore(ts: seq<string>): (string, string) -> bool {
    (a, b) => EntryBefore(ts, a, b)
  }

  function TagBefore(ts: seq<string>): (Tag, Tag) -> bool {
    (x: Tag, y: Tag) => EntryBefore(ts, x.name, y.name)
  }

  function FirstSeen(ts: seq<string>): (string, string) -> bool {
    (a, b) => a in ts && b in ts && IndexOfKey(ts, a) < IndexOfKey(ts, b)
  }

  lemma {:induction false} IndexOfKeySnoc(ts: seq<string>, x: string, y: string)
    requires y in ts
    ensures IndexOfKey(ts + [x], y) == IndexOfKey(ts, y)
  {
    assert (ts + [x])[0] == ts[0];
    if ts[0] != y {
      assert (ts + [x])[1..] == ts[1..] + [x];
      IndexOfKeySnoc(ts[1..], x, y);
    }
  }

  /** `Dedup` lists the names in the order of their first occurrence. */
  lemma {:induction false} DedupFirstSeen(ts: seq<string>)
    ensures Chain(Dedup(ts), FirstSeen(ts))
  {
    if ts != [] {
      var front := ts[..|ts| - 1];
      var x := ts[|ts| - 1];
      assert ts == front + [x];
      DedupFirstSeen(front);
      var df := Dedup(front);
      var d := Dedup(ts);
      assert d == if x in df then df else df + [x];
      forall i, j | 0 <= i < j < |d| ensures FirstSeen(ts)(d[i], d[j]) {
        var a, b := d[i], d[j];
        assert a == df[i] && a in front;
        if j < |df| {
          assert b == df[j] && b in front;
          assert FirstSeen(front)(a, b);
        } else {
          assert b == x && x !in front;
        }
        FirstSeenSnoc(front, x, a, b);
      }
    }
  }

  /** Two names in first-seen order stay in that order when one more name
      is seen, and a name seen for the first time comes after every earlier
      one. */
  lemma FirstSeenSnoc(front: seq<string>, x: string, a: string, b: string)
    requires a in front
    requires FirstSeen(front)(a, b) || (b == x && x !in front)
    ensures FirstSeen(front + [x])(a, b)
  {
    IndexOfKeySnoc(front, x, a);
    if b in front {
      IndexOfKeySnoc(front, x, b);
    } else {
      IndexOfKeyLast(front, x);
    }
  }

  /** A key first added last is found last. */
  lemma IndexOfKeyLast(ts: seq<string>, x: string)
    requires x !in ts
    ensures IndexOfKey(ts + [x], x) == |ts|
  {
    var s := ts + [x];
    assert s[|ts|] == x;
    forall k | 0 <= k < |ts| ensures s[k] != x {
      assert s[k] == ts[k];
    }
  }

  /** The array-index part of `Object.entries`: ascending numeric order. */
  lemma IndexPart(keys: seq<string>)
    ensures var a := Sort(Filter(keys, IsArrayIndex), IndexCmp);
            (forall x | x in a :: IsArrayIndex(x)) && SortedBy(a, IndexKey)
  {
    var f := Filter(keys, IsArrayIndex);
    FilterSpec(keys, IsArrayIndex);
    assert Agrees(f, IndexCmp, IndexKey);
    SortOrdered(f, IndexCmp, IndexKey);
    forall x | x in Sort(f, IndexCmp) ensures IsArrayIndex(x) {
      assert x in multiset(Sort(f, IndexCmp));
    }
  }

  /** The other part: first-encounter order. */
  lemma NamedPart(ts: seq<string>)
    ensures var b := Filter(Dedup(ts), IsNamed);
            (forall x | x in b :: !IsArrayIndex(x)) && Chain(b, FirstSeen(ts))
  {
    FilterSpec(Dedup(ts), IsNamed);
    DedupFirstSeen(ts);
    FilterChain(Dedup(ts), IsNamed, FirstSeen(ts));
  }

  /** `Object.entries` of the counts lists the names in `EntryBefore` order. */
  lemma EntryOrderChain(ts: seq<string>)
    ensures Chain(EntryOrder(Dedup(ts)), NameBefore(ts))
  {
    var keys := Dedup(ts);
    var a := Sort(Filter(keys, IsArrayIndex), IndexCmp);
    var b := Filter(keys, IsNamed);
    IndexPart(keys);
    NamedPart(ts);
    var names := a + b;
    forall i, j | 0 <= i < j < |names| ensures NameBefore(ts)(names[i], names[j]) {
      if j < |a| {
        assert names[i] == a[i] && names[j] == a[j];
        assert a[i] in a;
      } else if i < |a| {
        assert names[i] == a[i] && names[j] == b[j - |a|];
        assert a[i] in a && b[j - |a|] in b;
      } else {
        assert names[i] == b[i - |a|] && names[j] == b[j - |a|];
        assert FirstSeen(ts)(b[i - |a|], b[j - |a|]);
        assert b[i - |a|] in b && b[j - |a|] in b;
      }
    }
  }

  /** Tags with equal counts keep the `Object.entries` order of the counts
      object, because the sort is stable: array-index names first, by numeric
      value, then the rest by first encounter in `getArticles` order. */
  lemma TagTies(articles: seq<Article>)
    ensures forall i, j | 0 <= i < j < |TagList(articles)| && TagList(articles)[i].count == TagList(articles)[j].count ::
              EntryBefore(AllTags(articles), TagList(articles)[i].name, TagList(articles)[j].name)
  {
    var ts := AllTags(articles);
    var counts := Tally(ts);
    TallySpec(ts);
    EntryOrderChain(ts);
    var names := EntryOrder(counts.keys);
    var entries := TagEntries(articles);
    assert ChainWithin(entries, CountKey, TagBefore(ts)) by {
      forall i, j | 0 <= i < j < |entries| ensures TagBefore(ts)(entries[i], entries[j]) {
        assert NameBefore(ts)(names[i], names[j]);
      }
    }
    CountsAgree(entries);
    SortWithin(entries, ByCountDesc, CountKey, TagBefore(ts));
    var r := TagList(articles);
    forall i, j | 0 <= i < j < |r| && r[i].count == r[j].count ensures EntryBefore(ts, r[i].name, r[j].name) {
      assert TagBefore(ts)(r[i], r[j]);
    }
  }

  lemma ExampleEntries(a1: Article, a2: Article, x: string, y: string)
    requires a1.fields.tags == [x, y] && a2.fields.tags == [x]
    ensures AllTags([a1, a2]) == [x, y, x]
  {
    AllTagsSnoc([], a1);
    AllTagsSnoc([a1], a2);
    assert [] + [a1] == [a1] && [a1] + [a2] == [a1, a2];
  }

  lemma ExampleTally1(x: string)
    ensures Tally([x]) == JsMap([x], map[x := 1])
  {
    assert [x][..0] == [];
  }

  lemma ExampleTally2(x: string, y: string)
    requires x != y
    ensures Tally([x, y]) == JsMap([x, y], map[x := 1, y := 1])
  {
    assert [x, y][..1] == [x];
    ExampleTally1(x);
  }

  lemma ExampleTally(x: string, y: string)
    requires x != y
    ensures Tally([x, y, x]) == JsMap([x, y], map[x := 2, y := 1])
  {
    assert [x, y, x][..2] == [x, y];
    ExampleTally2(x, y);
  }

  lemma ExampleOrder(x: string, y: string)
    requires !IsArrayIndex(x) && !IsArrayIndex(y)
    ensures EntryOrder([x, y]) == [x, y]
  {
    assert [x, y][1..] == [y] && [y][1..] == [];
    assert Filter([y], IsArrayIndex) == [];
    assert Filter([x, y], IsArrayIndex) == [];
    assert Filter([y], IsNamed) == [y];
    assert Filter([x, y], IsNamed) == [x, y];
  }

  /** Tag lists `[x, y]` and `[x]` (two different names that are not array
      indices, such as "a" and "b") give `x` twice, then `y` once. */
  lemma TagExample(a1: Article, a2: Article, x: string, y: string)
    requires x != y && !IsArrayIndex(x) && !IsArrayIndex(y)
    requires a1.fields.tags == [x, y] && a2.fields.tags == [x]
    ensures TagList([a1, a2]) == [Tag(x, 2, x), Tag(y, 1, y)]
  {
    ExampleEntries(a1, a2, x, y);
    ExampleTally(x, y);
    ExampleOrder(x, y);
    var counts := JsMap([x, y], map[x := 2, y := 1]);
    var entries := [Tag(x, 2, x), Tag(y, 1, y)];
    assert TagsOf(counts, [x, y]) == entries;
    assert TagEntries([a1, a2]) == entries;
    assert Sort(entries, ByCountDesc) == entries by {
      assert entries[1..] == [Tag(y, 1, y)];
      assert Sort([Tag(y, 1, y)], ByCountDesc) == [Tag(y, 1, y)];
    }
  }

  // ---------------------------------------------------------------------
  // The counts object as written: a plain object literal `{}`

  /** A value read from or stored in the counts object. A key the object
      does not own reads the property it inherits from Object.prototype,
      if any: a built-in function, or the prototype itself for
      `__proto__`. */
  datatype Value = Undefined | Num(n: int) | Text(s: string) | Builtin(name: string) | Prototype

  /** The methods every plain object inherits from Object.prototype. */
  const InheritedMethods: set<string> := {
    "constructor", "hasOwnProperty", "isPrototypeOf", "propertyIsEnumerable",
    "toLocaleString", "toString", "valueOf",
    "__defineGetter__", "__defineSetter__", "__lookupGetter__", "__lookupSetter__"}

  /** True when a plain object inherits a property called `t`. */
  predicate Inherited(t: string) {
    t in InheritedMethods || t == "__proto__"
  }

  /** `tagCounts[t]` on the plain object whose own properties are `own`.
      The inherited `constructor` is the function `Object`. */
  function Read(own: JsMap<Value>, t: string): Value {
    if t in own.entries then own.entries[t]
    else if t == "__proto__" then Prototype
    else if t == "constructor" then Builtin("Object")
    else if t in InheritedMethods then Builtin(t)
    else Undefined
  }

  /** `(v || 0) + 1`: a number is incremented; any other truthy value is
      converted to a string and "1" is appended to it. */
  function PlusOne(v: Value): Value {
    match v
    case Undefined => Num(1)
    case Num(n) => Num(n + 1)
    case Text(s) => if s == "" then Num(1) else Text(s + "1")
    case Builtin(name) => Text("function " + name + "() { [native code] }1")
    case Prototype => Text("[object Object]1")
  }

  /** `tagCounts[t] = (tagCounts[t] || 0) + 1` as written. Assigning a
      string to `__proto__` is silently ignored, so no own property is
      made for it. */
  function BumpAsWritten(own: JsMap<Value>, t: string): JsMap<Value> {
    if t == "__proto__" then own else own.Set(t, PlusOne(Read(own, t)))
  }

  /** The counts object as written after the nested `forEach` over `ts`. */
  function TallyAsWritten(ts: seq<string>): JsMap<Value> {
    if ts == [] then EmptyMap() else BumpAsWritten(TallyAsWritten(ts[..|ts| - 1]), ts[|ts| - 1])
  }

  /** The counts of a tally as object property values. */
  function Numbers(counts: JsMap<nat>): JsMap<Value> {
    JsMap(counts.keys, map k | k in counts.entries :: Num(counts.entries[k]))
  }

  /** For tag names Object.prototype does not define, the plain object
      counts exactly as `Tally` does. */
  lemma {:induction false} TallyAsWrittenAgrees(ts: seq<string>)
    requires forall i | 0 <= i < |ts| :: !Inherited(ts[i])
    ensures TallyAsWritten(ts) == Numbers(Tally(ts))
  {
    if ts != [] {
      var front := ts[..|ts| - 1];
      TallyAsWrittenAgrees(front);
      BumpAgrees(Tally(front), ts[|ts| - 1]);
    }
  }

  /** One count, on a tag name Object.prototype does not define. */
  lemma BumpAgrees(counts: JsMap<nat>, t: string)
    requires !Inherited(t)
    ensures BumpAsWritten(Numbers(counts), t) == Numbers(Bump(counts, t))
  {
    var c := counts.Get(t).GetOr(0) + 1;
    assert Read(Numbers(counts), t) == if t in counts.entries then Num(counts.entries[t]) else Undefined;
    assert Numbers(counts).Set(t, Num(c)).entries == Numbers(counts.Set(t, c)).entries;
  }

  /** The discrepancy: an article tagged "constructor" is counted as a
      string where one count of 1 is meant. */
  lemma ConstructorMiscounted()
    ensures TallyAsWritten(["constructor"]).Get("constructor")
         == Some(Text("function Object() { [native code] }1"))
    ensures Tally(["constructor"]).Get("constructor") == Some(1)
  {
    var e: JsMap<Value> := EmptyMap();
    assert ["constructor"][..0] == [];
    assert Read(e, "constructor") == Builtin("Object");
    assert "function " + "Object" + "() { [native code] }1" == "function Object() { [native code] }1";
  }

  /** ... and a tag "__proto__" is not counted at all. */
  lemma ProtoUncounted()
    ensures TallyAsWritten(["__proto__"]).keys == []
    ensures Tally(["__proto__"]).keys == ["__proto__"]
  {
    assert ["__proto__"][..0] == [];
  }

  // ---------------------------------------------------------------------
  // Single-item routes

  /** A route's answer: the record as JSON, or 404 with a message. */
  datatype Response<T> = Ok(body: T) | NotFound(message: string)

  /** `if (!record) return res.status(404).json({ message: what + " not found" })`,
      else `res.json(record)`. */
  function Respond<T>(found: Option<T>, what: string): (r: Response<T>)
    ensures r.NotFound? <==> found.None?
    ensures r.Ok? ==> r.body == found.value
    ensures r.NotFound? ==> r.message == what + " not found"
  {
    match found
    case None => NotFound(what + " not found")
    case Some(v) => Ok(v)
  }

  /** `GET /api/articles/:slug`. */
  function ArticleRoute(store: MemStorage, slug: string): (r: Response<Article>)
    reads store
    ensures r.NotFound? <==> slug !in store.articles.entries
    ensures r.Ok? ==> r.body == store.articles.entries[slug]
    ensures r.NotFound? ==> r.message == "Article not found"
  {
    Respond(store.GetArticle(slug), "Article")
  }

  /** `GET /api/collections/:slug`. */
  function CollectionRoute(store: MemStorage, slug: string): (r: Response<Collection>)
    reads store
    ensures r.NotFound? <==> slug !in store.collections.entries
    ensures r.Ok? ==> r.body == store.collections.entries[slug]
    ensures r.NotFound? ==> r.message == "Collection not found"
  {
    Respond(store.GetCollection(slug), "Collection")
  }

  /** `GET /api/groups/:slug`. */
  function GroupRoute(store: MemStorage, slug: string): (r: Response<Group>)
    reads store
    ensures r.NotFound? <==> slug !in store.groups.entries
    ensures r.Ok? ==> r.body == store.groups.entries[slug]
    ensures r.NotFound? ==> r.message == "Group not found"
  {
    Respond(store.GetGroup(slug), "Group")
  }

  // ---------------------------------------------------------------------
  // Startup

  /** The tree `loadContent` reads at startup, or `None` when it never runs.
      `root` is the content directory's listing after `ensureDir` (a missing
      directory is created empty; `None` when `ensureDir` or `readdir`
      throws); `samples` is the listing after `createSampleContent` (`None`
      when writing the samples throws). Both failures are caught by the same
      `try`, which skips `loadContent`. */
  function StartupTree(root: Tree, samples: Tree): (t: Option<Tree>)
    ensures t.Some? <==> root.Some? && (root.value == [] ==> samples.Some?)
    ensures t.Some? && root.value != [] ==> t.value == root
    ensures t.Some? && root.value == [] ==> t.value == samples
  {
    if root.None? then None
    else if root.value == [] then (if samples.None? then None else Some(samples))
    else Some(root)
  }

  /** The startup sequence: samples are written only into an empty content
      directory, and always before `loadContent` runs. */
  method Startup(store: MemStorage, root: Tree, samples: Tree,
                 parse: string -> Option<Parsed>, parseJson: string -> Option<GroupData>, now: Timestamp)
    requires store.Valid()
    modifies store
    ensures store.Valid()
    ensures old(store.IdsValid()) ==> store.IdsValid()
    ensures StartupTree(root, samples).None? ==> unchanged(store)
    ensures StartupTree(root, samples).Some? ==>
              var t := StartupTree(root, samples).value;
              && store.collections
                 == CreateAll(old(store.collections), old(store.collectionId), CollectionsFound(t), CollectionSlug)
              && store.articles
                 == CreateAll(old(store.articles), old(store.articleId), ArticlesFound(t, parse, now), ArticleSlug)
              && store.groups
                 == CreateAll(old(store.groups), old(store.groupId), GroupsFound(t, parseJson), GroupSlug)
  {
    if root.None? {
      return;
    }
    var tree := root;
    if |root.value| == 0 {
      if samples.None? {
        return;
      }
      tree := samples;
    }
    LoadContent(store, tree, parse, parseJson, now);
  }
}
