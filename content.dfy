/** The content loader (server/utils/content.ts): three phases that walk the
    content directory and insert what they find into the store.

    The directory tree is an abstract value: the root's listing, each entry
    with what `fs.stat` says of it, a directory's own listing, a file's text.
    A `None` marks the place where the file-system call throws. The
    frontmatter parser and `JSON.parse` are function parameters (`None`: the
    library throws), and the load time is a parameter too.

    Each phase is one `try` around its whole loop: the first exception ends
    the phase, and whatever was inserted before it stays. The per-insert
    `try`s around `create*` never fire, because `create*` never throws. */
module Content {
  import opened Wrappers
  import opened Strings
  import opened Schema
  import opened JsMaps
  import opened Storage
  import opened Markdown
  import opened Seqs

  /** An entry of a directory listing. */
  datatype Node = Node(name: string, kind: Kind)

  datatype Kind =
    | Unstattable                       // `fs.stat` throws
    | Plain(text: Option<string>)       // not a directory; None: `fs.readFile` throws
    | Dir(children: Option<seq<Node>>)  // a directory; None: `fs.readdir` throws

  /** The content root's listing; `None`: `fs.readdir` of the root throws. */
  type Tree = Option<seq<Node>>

  /** `fs.readFile(path, 'utf-8')`: only a readable file has text. */
  function ReadFile(n: Node): Option<string> {
    if n.kind.Plain? then n.kind.text else None
  }

  /** What `parseMarkdown` returns (the excerpt is computed but not used). */
  datatype Parsed = Parsed(frontmatter: Frontmatter, content: string, html: string)

  /** The keys of a group descriptor the loader reads. */
  datatype GroupData = GroupData(
    name: Option<string>,
    slug: Option<string>,
    description: Option<string>,
    chapters: Option<seq<Chapter>>)

  /** A string field is truthy in JavaScript when present and non-empty. */
  predicate Truthy(s: Option<string>) {
    s.Some? && s.value != ""
  }

  // ---------------------------------------------------------------------
  // Record derivation

  /** `word.charAt(0).toUpperCase() + word.slice(1)`. */
  function Capitalize(w: string): string {
    if w == "" then "" else [UpperChar(w[0])] + w[1..]
  }

  function CapitalizeAll(words: seq<string>): seq<string> {
    seq(|words|, i requires 0 <= i < |words| => Capitalize(words[i]))
  }

  /** `dir.split('-').map(capitalize).join(' ')`. */
  function CollectionName(dir: string): string {
    Join(CapitalizeAll(Split(dir, '-')), ' ')
  }

  /** Character by character: a hyphen becomes a space, and a character that
      starts a word (at the start, or right after a hyphen) is upper-cased. */
  function TitleCase(s: string, atWordStart: bool): (r: string)
    ensures |r| == |s|
  {
    if s == [] then []
    else if s[0] == '-' then [' '] + TitleCase(s[1..], true)
    else [if atWordStart then UpperChar(s[0]) else s[0]] + TitleCase(s[1..], false)
  }

  /** The words with the first capitalised only when it starts a word. */
  function CapWords(words: seq<string>, atWordStart: bool): seq<string> {
    if words == [] then []
    else [if atWordStart then Capitalize(words[0]) else words[0]] + CapitalizeAll(words[1..])
  }

  lemma CapWordsAll(words: seq<string>)
    ensures CapWords(words, true) == CapitalizeAll(words)
  {
    if words != [] {
      assert CapWords(words, true) == [Capitalize(words[0])] + CapitalizeAll(words[1..]);
    }
  }

  lemma {:induction false} CapWordsTitleCase(s: string, atWordStart: bool)
    ensures Join(CapWords(Split(s, '-'), atWordStart), ' ') == TitleCase(s, atWordStart)
  {
    if s != [] {
      var rest := Split(s[1..], '-');
      if s[0] == '-' {
        CapWordsTitleCase(s[1..], true);
        CapWordsAll(rest);
        var ws := CapWords(Split(s, '-'), atWordStart);
        assert ws == [""] + CapitalizeAll(rest);
        assert ws[1..] == CapWords(rest, true);
      } else {
        CapWordsTitleCase(s[1..], false);
        var c := if atWordStart then UpperChar(s[0]) else s[0];
        assert CapWords(Split(s, '-'), atWordStart) == [[c] + rest[0]] + CapitalizeAll(rest[1..]);
        JoinConsFirst(c, rest[0], CapitalizeAll(rest[1..]), ' ');
        assert [rest[0]] + CapitalizeAll(rest[1..]) == CapWords(rest, false);
      }
    }
  }

  /** The collection name is the directory name title-cased: as long, every
      hyphen turned into a space, every word's first character upper-cased. */
  lemma CollectionNameSpec(dir: string)
    ensures CollectionName(dir) == TitleCase(dir, true)
    ensures |CollectionName(dir)| == |dir|
  {
    CapWordsTitleCase(dir, true);
    CapWordsAll(Split(dir, '-'));
  }

  /** Inside a word, characters are copied as they are. */
  lemma {:induction false} TitleCaseInWord(w: string, rest: string)
    requires '-' !in w
    ensures TitleCase(w + rest, false) == w + TitleCase(rest, false)
  {
    if w != [] {
      assert w[0] in w;
      assert (w + rest)[0] == w[0] && (w + rest)[1..] == w[1..] + rest;
      calc {
        TitleCase(w + rest, false);
        [w[0]] + TitleCase(w[1..] + rest, false);
        { TitleCaseInWord(w[1..], rest); }
        [w[0]] + (w[1..] + TitleCase(rest, false));
        { assert [w[0]] + w[1..] == w; }
        w + TitleCase(rest, false);
      }
    } else {
      assert w + rest == rest;
    }
  }

  /** Two hyphen-joined words become the capitalised words joined by a
      space, e.g. `"getting-started"` becomes `"Getting Started"`. */
  lemma TitleCaseTwoWords(w1: string, w2: string)
    requires w1 != [] && w2 != [] && '-' !in w1 && '-' !in w2
    ensures CollectionName(w1 + "-" + w2) == Capitalize(w1) + " " + Capitalize(w2)
  {
    var s := w1 + "-" + w2;
    CollectionNameSpec(s);
    var c, w1t, tail := w1[0], w1[1..], "-" + w2;
    var t := w1t + tail;
    AppendAssoc(w1, "-", w2);
    assert w1 == [c] + w1t;
    AppendAssoc([c], w1t, tail);
    assert s == [c] + t;
    assert c != '-' by {
      assert w1[0] in w1;
    }
    TitleCaseCons(c, t, true);
    TitleCaseInWord(w1t, tail);
    TitleCaseSecondWord(w2);
    var u, c2 := [UpperChar(c)], Capitalize(w2);
    assert TitleCase(s, true) == u + (w1t + (" " + c2));
    assert Capitalize(w1) == u + w1t;
    AppendAssoc(u, w1t, " " + c2);
    AppendAssoc(u + w1t, " ", c2);
  }

  lemma TitleCaseCons(c: char, t: string, atWordStart: bool)
    ensures TitleCase([c] + t, atWordStart)
         == if c == '-' then [' '] + TitleCase(t, true)
            else [if atWordStart then UpperChar(c) else c] + TitleCase(t, false)
  {
    var s := [c] + t;
    assert s[0] == c && s[1..] == t;
  }

  /** The hyphen before the second word becomes a space, and the word is
      capitalised. */
  lemma TitleCaseSecondWord(w: string)
    requires w != [] && '-' !in w
    ensures TitleCase("-" + w, false) == " " + Capitalize(w)
  {
    var s := "-" + w;
    assert s[0] == '-' && s[1..] == w;
    assert w[0] != '-' by {
      assert w[0] in w;
    }
    assert TitleCase(w, true) == [UpperChar(w[0])] + TitleCase(w[1..], false);
    TitleCaseInWord(w[1..], "");
    assert w[1..] + "" == w[1..];
  }

  /** The collection registered for a directory. */
  function CollectionFor(dir: string): InsertCollection {
    InsertCollection(CollectionName(dir), dir, dir + " collection")
  }

  /** `file.replace('.md', '')`: the FIRST occurrence of ".md" is removed,
      wherever it is. */
  function Stem(file: string): string {
    ReplaceFirst(file, ".md", "")
  }

  /** The article built from file `file` of directory `dir`. */
  function ArticleFor(dir: string, file: string, p: Parsed, now: Timestamp): InsertArticle {
    var fm := p.frontmatter;
    var slug := if Truthy(fm.slug) then fm.slug.value else Slugify(Stem(file));
    InsertArticle(
      slug,
      if Truthy(fm.title) then fm.title.value else slug,
      p.content,
      p.html,
      dir,
      fm.date.GetOr(now),
      fm.updated,
      if fm.sequence == Some(0) then None else fm.sequence,
      fm.tags.GetOr([]),
      fm)
  }

  /** The group built from a parsed descriptor; `None` when `slugify` is
      called on a missing name and throws. */
  function GroupFor(d: GroupData): Option<InsertGroup> {
    if !Truthy(d.slug) && d.name.None? then None
    else
      var slug := if Truthy(d.slug) then d.slug.value else Slugify(d.name.value);
      Some(InsertGroup(d.name, slug, d.description.GetOr(""), d.chapters.GetOr([])))
  }

  // ---------------------------------------------------------------------
  // Scanning a listing

  /** The records a loop produced, and whether it was ended by an exception. */
  datatype Scan<R> = Scan(records: seq<R>, failed: bool)

  /** The loop over `xs` when `step` handles one element: records accumulate
      until the first step that throws; that step's own records (made before
      it threw) are kept and the rest of `xs` is not visited. */
  function ScanAll<X, R>(xs: seq<X>, step: X -> Scan<R>): Scan<R> {
    if xs == [] then Scan([], false)
    else
      var h := step(xs[0]);
      if h.failed then h
      else
        var t := ScanAll(xs[1..], step);
        Scan(h.records + t.records, t.failed)
  }

  /** Scanning a concatenation scans the first part, then, unless it threw,
      the second. */
  lemma {:induction false} ScanAllAppend<X, R>(a: seq<X>, b: seq<X>, step: X -> Scan<R>)
    ensures var sa := ScanAll(a, step);
            var sb := ScanAll(b, step);
            ScanAll(a + b, step) == if sa.failed then sa else Scan(sa.records + sb.records, sb.failed)
  {
    if a == [] {
      assert a + b == b;
    } else {
      assert (a + b)[0] == a[0];
      assert (a + b)[1..] == a[1..] + b;
      ScanAllAppend(a[1..], b, step);
    }
  }

  /** One more element. */
  lemma ScanAllSnoc<X, R>(xs: seq<X>, x: X, step: X -> Scan<R>)
    ensures var s := ScanAll(xs, step);
            var h := step(x);
            ScanAll(xs + [x], step) == if s.failed then s else Scan(s.records + h.records, h.failed)
  {
    ScanAllAppend(xs, [x], step);
    var h := step(x);
    assert [x][1..] == [];
    assert h.records + [] == h.records;
  }

  /** The scan of one more element of `xs`. */
  lemma ScanNext<X, R>(xs: seq<X>, i: nat, step: X -> Scan<R>)
    requires i < |xs|
    ensures var s := ScanAll(xs[..i], step);
            var h := step(xs[i]);
            ScanAll(xs[..i + 1], step) == if s.failed then s else Scan(s.records + h.records, h.failed)
  {
    ScanAllSnoc(xs[..i], xs[i], step);
    TakeSnoc(xs, i);
  }

  /** The catch scope: when the step at `k` throws, the loop's outcome is
      the records before it plus that step's own, and it is marked failed;
      nothing after `k` is visited. */
  lemma ScanAllStops<X, R>(xs: seq<X>, k: nat, step: X -> Scan<R>)
    requires k < |xs|
    requires !ScanAll(xs[..k], step).failed && step(xs[k]).failed
    ensures ScanAll(xs, step) == Scan(ScanAll(xs[..k], step).records + step(xs[k]).records, true)
  {
    ScanAllSnoc(xs[..k], xs[k], step);
    TakeSnoc(xs, k);
    ScanAllAppend(xs[..k + 1], xs[k + 1..], step);
    TakeDrop(xs, k + 1);
  }

  /** Every record comes from the step of some element. */
  lemma {:induction false} ScanAllFrom<X, R>(xs: seq<X>, step: X -> Scan<R>, r: R)
    requires r in ScanAll(xs, step).records
    ensures exists x :: x in xs && r in step(x).records
  {
    if xs != [] {
      var h := step(xs[0]);
      if !h.failed && r !in h.records {
        ScanAllFrom(xs[1..], step, r);
        var x :| x in xs[1..] && r in step(x).records;
        assert x in xs;
      }
    }
  }

  /** `a` and `b` list records under the same slugs, position by position. */
  ghost predicate SameSlugs<R>(a: seq<R>, b: seq<R>, slugOf: R -> string) {
    |a| == |b| && forall i | 0 <= i < |a| :: slugOf(a[i]) == slugOf(b[i])
  }

  lemma SameSlugsAppend<R>(a1: seq<R>, a2: seq<R>, b1: seq<R>, b2: seq<R>, slugOf: R -> string)
    requires SameSlugs(a1, b1, slugOf) && SameSlugs(a2, b2, slugOf)
    ensures SameSlugs(a1 + a2, b1 + b2, slugOf)
  {
    forall i | 0 <= i < |a1 + a2| ensures slugOf((a1 + a2)[i]) == slugOf((b1 + b2)[i]) {
      if i >= |a1| {
        assert (a1 + a2)[i] == a2[i - |a1|] && (b1 + b2)[i] == b2[i - |b1|];
      }
    }
  }

  /** Two steps that throw at the same elements and produce records under
      the same slugs give scans that do too. */
  lemma {:induction false} ScanAllSameSlugs<X, R>(xs: seq<X>, s1: X -> Scan<R>, s2: X -> Scan<R>, slugOf: R -> string)
    requires forall x | x in xs :: s1(x).failed == s2(x).failed && SameSlugs(s1(x).records, s2(x).records, slugOf)
    ensures ScanAll(xs, s1).failed == ScanAll(xs, s2).failed
    ensures SameSlugs(ScanAll(xs, s1).records, ScanAll(xs, s2).records, slugOf)
  {
    if xs != [] {
      assert xs[0] in xs;
      if !s1(xs[0]).failed {
        forall x | x in xs[1..] ensures s1(x).failed == s2(x).failed && SameSlugs(s1(x).records, s2(x).records, slugOf) {
          assert x in xs;
        }
        ScanAllSameSlugs(xs[1..], s1, s2, slugOf);
        SameSlugsAppend(s1(xs[0]).records, ScanAll(xs[1..], s1).records,
                        s2(xs[0]).records, ScanAll(xs[1..], s2).records, slugOf);
      }
    }
  }

  // ---------------------------------------------------------------------
  // The three phases as scans

  /** ensureCollections, one root entry: a stat failure throws, a
      non-directory is skipped, a directory is registered. */
  function CollectionStep(n: Node): Scan<InsertCollection> {
    match n.kind
    case Unstattable => Scan([], true)
    case Plain(_) => Scan([], false)
    case Dir(_) => Scan([CollectionFor(n.name)], false)
  }

  /** The collections `ensureCollections` creates, in order. */
  function CollectionsFound(root: Tree): seq<InsertCollection> {
    if root.None? then [] else ScanAll(root.value, CollectionStep).records
  }

  /** How `loadArticles` turns a parsed ".md" file of a directory into the
      record it creates. The scans and loops of that phase take it as a
      parameter; the loader itself uses `BuildAt(now)`. */
  type ArticleBuilder = (string, string, Parsed) -> InsertArticle

  /** `ArticleFor` at the load time `now`. */
  function BuildAt(now: Timestamp): ArticleBuilder {
    (dir, file, p) => ArticleFor(dir, file, p, now)
  }

  /** loadArticles, one file of directory `dir`: a name not ending in ".md"
      is skipped; a file that cannot be read or parsed throws. */
  function FileArticle(parse: string -> Option<Parsed>, build: ArticleBuilder, dir: string, n: Node): Scan<InsertArticle> {
    if !EndsWith(n.name, ".md") then Scan([], false)
    else if ReadFile(n).None? then Scan([], true)
    else
      var p := parse(ReadFile(n).value);
      if p.None? then Scan([], true)
      else Scan([build(dir, n.name, p.value)], false)
  }

  function FileStep(parse: string -> Option<Parsed>, build: ArticleBuilder, dir: string): Node -> Scan<InsertArticle> {
    n => FileArticle(parse, build, dir, n)
  }

  /** loadArticles, one root entry: a stat failure or an unreadable
      directory throws, a non-directory is skipped, a directory's files are
      scanned in order. */
  function EntryArticles(parse: string -> Option<Parsed>, build: ArticleBuilder, n: Node): Scan<InsertArticle> {
    match n.kind
    case Unstattable => Scan([], true)
    case Plain(_) => Scan([], false)
    case Dir(children) =>
      if children.None? then Scan([], true)
      else ScanAll(children.value, FileStep(parse, build, n.name))
  }

  function ArticleStep(parse: string -> Option<Parsed>, build: ArticleBuilder): Node -> Scan<InsertArticle> {
    n => EntryArticles(parse, build, n)
  }

  /** The articles `loadArticles` creates with `build`, in order. */
  function ArticlesBuilt(root: Tree, parse: string -> Option<Parsed>, build: ArticleBuilder): seq<InsertArticle> {
    if root.None? then [] else ScanAll(root.value, ArticleStep(parse, build)).records
  }

  /** The articles `loadArticles` creates at load time `now`, in order. */
  function ArticlesFound(root: Tree, parse: string -> Option<Parsed>, now: Timestamp): seq<InsertArticle> {
    ArticlesBuilt(root, parse, BuildAt(now))
  }

  /** What loadGroups finds at `<root>/groups`. */
  datatype GroupsDir = Absent | Unreadable | Listing(files: seq<Node>)

  /** The first entry of a listing with the given name. */
  function Lookup(entries: seq<Node>, name: string): (r: Option<Node>)
    ensures r.Some? ==> r.value in entries && r.value.name == name
    ensures r.None? ==> forall n | n in entries :: n.name != name
  {
    if entries == [] then None
    else if entries[0].name == name then Some(entries[0])
    else Lookup(entries[1..], name)
  }

  /** `fs.pathExists` then `fs.readdir` on the groups directory. */
  function FindGroupsDir(root: Tree): GroupsDir {
    if root.None? then Absent
    else
      var n := Lookup(root.value, "groups");
      if n.None? then Absent
      else if n.value.kind.Dir? && n.value.kind.children.Some? then Listing(n.value.kind.children.value)
      else Unreadable
  }

  /** loadGroups, one file: a name not ending in ".json" is skipped; a file
      that cannot be read or parsed, or that needs `slugify` of a missing
      name, throws. */
  function GroupFile(parseJson: string -> Option<GroupData>, n: Node): Scan<InsertGroup> {
    if !EndsWith(n.name, ".json") then Scan([], false)
    else if ReadFile(n).None? then Scan([], true)
    else
      var d := parseJson(ReadFile(n).value);
      if d.None? then Scan([], true)
      else
        var g := GroupFor(d.value);
        if g.None? then Scan([], true) else Scan([g.value], false)
  }

  function GroupStep(parseJson: string -> Option<GroupData>): Node -> Scan<InsertGroup> {
    n => GroupFile(parseJson, n)
  }

  /** The groups `loadGroups` creates, in order. */
  function GroupsFound(root: Tree, parseJson: string -> Option<GroupData>): seq<InsertGroup> {
    match FindGroupsDir(root)
    case Listing(files) => ScanAll(files, GroupStep(parseJson)).records
    case _ => []
  }

  // ---------------------------------------------------------------------
  // What each phase creates

  /** The index of the first entry `fs.stat` fails on, or the length. */
  function Reached(entries: seq<Node>): (k: nat)
    ensures k <= |entries|
    ensures forall i | 0 <= i < k :: !entries[i].kind.Unstattable?
    ensures k < |entries| ==> entries[k].kind.Unstattable?
  {
    if entries == [] || entries[0].kind.Unstattable? then 0
    else 1 + Reached(entries[1..])
  }

  /** Reference definition: one collection per directory, in listing order. */
  function CollectionsOfDirs(entries: seq<Node>): seq<InsertCollection> {
    if entries == [] then []
    else (if entries[0].kind.Dir? then [CollectionFor(entries[0].name)] else [])
         + CollectionsOfDirs(entries[1..])
  }

  /** ensureCollections registers one collection per directory entry, in
      listing order, skipping non-directories, up to the first entry whose
      `fs.stat` throws; nothing at or after that entry is registered. */
  lemma {:induction false} CollectionsFoundSpec(entries: seq<Node>)
    ensures CollectionsFound(Some(entries)) == CollectionsOfDirs(entries[..Reached(entries)])
  {
    if entries != [] {
      var k := Reached(entries);
      var h := CollectionStep(entries[0]);
      if entries[0].kind.Unstattable? {
        assert h == Scan([], true);
        assert entries[..k] == [];
      } else {
        var rest := entries[1..];
        assert k == 1 + Reached(rest);
        CollectionsFoundSpec(rest);
        assert h.records == if entries[0].kind.Dir? then [CollectionFor(entries[0].name)] else [];
        assert ScanAll(entries, CollectionStep).records == h.records + ScanAll(rest, CollectionStep).records;
        var prefix := entries[..k];
        assert prefix[0] == entries[0] && prefix[1..] == rest[..k - 1];
        assert CollectionsOfDirs(prefix) == h.records + CollectionsOfDirs(rest[..k - 1]);
      }
    }
  }

  /** A file name whose first ".md" is at `|a|` loses exactly that ".md":
      `"intro.md"` gives `"intro"`, but `"v1.md-notes.md"` gives
      `"v1-notes.md"`. */
  lemma StemCutsFirst(a: string, b: string)
    requires forall j :: !OccursAt(a, ".md", j)
    ensures Stem(a + ".md" + b) == a + b
  {
    var s := a + ".md" + b;
    assert OccursAt(s, ".md", |a|) by {
      assert s[|a|..|a| + 3] == ".md";
    }
    forall j | 0 <= j < |a| ensures !OccursAt(s, ".md", j) {
      if j + 3 <= |a| {
        assert s[j..j + 3] == a[j..j + 3];
        assert !OccursAt(a, ".md", j);
      } else if j + 2 == |a| {
        assert s[j + 2] == '.';
      } else {
        assert s[j + 1] == '.';
      }
    }
    var i := IndexOf(s, ".md", 0);
    assert i == |a|;
    assert s[..i] == a && s[i + 3..] == b;
  }

  /** The `||` defaults of an article: the slug is the frontmatter's when
      truthy and otherwise a slugified file name (so it has slug shape); the
      title falls back to the slug; the collection is the directory; a
      missing date is the load time, a missing `updated` leaves `updatedAt`
      unset, missing tags are `[]`; a sequence of 0 becomes null and any
      other sequence is kept. */
  lemma ArticleForSpec(dir: string, file: string, p: Parsed, now: Timestamp)
    ensures var r := ArticleFor(dir, file, p, now);
            var fm := p.frontmatter;
            && r.collection == dir
            && (Truthy(fm.slug) ==> r.slug == fm.slug.value)
            && (!Truthy(fm.slug) ==> r.slug == Slugify(Stem(file)) && IsSlug(r.slug))
            && (Truthy(fm.title) ==> r.title == fm.title.value)
            && (!Truthy(fm.title) ==> r.title == r.slug)
            && (fm.date.None? ==> r.date == now)
            && (fm.date.Some? ==> r.date == fm.date.value)
            && (fm.updated.None? ==> r.updatedAt.None?)
            && (fm.updated.Some? ==> r.updatedAt == fm.updated)
            && (fm.tags.None? ==> r.tags == [])
            && (fm.tags.Some? ==> r.tags == fm.tags.value)
            && r.sequence != Some(0)
            && (fm.sequence != Some(0) ==> r.sequence == fm.sequence)
  {
    if !Truthy(p.frontmatter.slug) {
      SlugifyIsSlug(Stem(file));
    }
  }

  /** A group descriptor fails exactly when it has neither a truthy slug nor
      a name; otherwise the slug is the descriptor's or a slugified name,
      the description is taken verbatim or defaults to "", and so are the
      chapters, which default to `[]`. */
  lemma GroupForSpec(d: GroupData)
    ensures GroupFor(d).None? <==> !Truthy(d.slug) && d.name.None?
    ensures GroupFor(d).Some? ==>
              var g := GroupFor(d).value;
              && g.name == d.name
              && (Truthy(d.slug) ==> g.slug == d.slug.value)
              && (!Truthy(d.slug) ==> g.slug == Slugify(d.name.value) && IsSlug(g.slug))
              && (d.description.None? ==> g.description == "")
              && (d.description.Some? ==> g.description == d.description.value)
              && (d.chapters.Some? ==> g.chapters == d.chapters.value)
              && (d.chapters.None? ==> g.chapters == [])
  {
    if !Truthy(d.slug) && d.name.Some? {
      SlugifyIsSlug(d.name.value);
    }
  }

  /** A readable, parseable ".md" file of the directory, and its article. */
  ghost predicate ArticleFile(parse: string -> Option<Parsed>, now: Timestamp, n: Node, f: Node, a: InsertArticle) {
    && n.kind.Dir? && n.kind.children.Some? && f in n.kind.children.value
    && EndsWith(f.name, ".md") && ReadFile(f).Some?
    && parse(ReadFile(f).value).Some?
    && a == ArticleFor(n.name, f.name, parse(ReadFile(f).value).value, now)
  }

  lemma EntryArticlesFrom(parse: string -> Option<Parsed>, now: Timestamp, n: Node, a: InsertArticle)
    requires a in EntryArticles(parse, BuildAt(now), n).records
    ensures exists f :: ArticleFile(parse, now, n, f, a)
  {
    assert n.kind.Dir? && n.kind.children.Some?;
    var files := n.kind.children.value;
    ScanAllFrom(files, FileStep(parse, BuildAt(now), n.name), a);
    var f :| f in files && a in FileStep(parse, BuildAt(now), n.name)(f).records;
    FileArticleFrom(parse, now, n.name, f, a);
    assert ArticleFile(parse, now, n, f, a);
  }

  lemma FileArticleFrom(parse: string -> Option<Parsed>, now: Timestamp, dir: string, f: Node, a: InsertArticle)
    requires a in FileArticle(parse, BuildAt(now), dir, f).records
    ensures EndsWith(f.name, ".md") && ReadFile(f).Some? && parse(ReadFile(f).value).Some?
    ensures a == ArticleFor(dir, f.name, parse(ReadFile(f).value).value, now)
  {
  }

  /** Every article comes from a readable, parseable ".md" file directly
      inside a directory of the root, and belongs to that directory. */
  lemma ArticlesFoundFrom(root: Tree, parse: string -> Option<Parsed>, now: Timestamp, a: InsertArticle)
    requires a in ArticlesFound(root, parse, now)
    ensures exists n, f :: n in root.value && ArticleFile(parse, now, n, f, a) && a.collection == n.name
  {
    ScanAllFrom(root.value, ArticleStep(parse, BuildAt(now)), a);
    var n :| n in root.value && a in EntryArticles(parse, BuildAt(now), n).records;
    EntryArticlesFrom(parse, now, n, a);
  }

  /** With no groups directory there are no groups; otherwise every group
      comes from a readable, parseable ".json" file in it. */
  lemma GroupsFoundFrom(root: Tree, parseJson: string -> Option<GroupData>)
    ensures FindGroupsDir(root).Absent? ==> GroupsFound(root, parseJson) == []
    ensures root.Some? && (forall n | n in root.value :: n.name != "groups") ==> GroupsFound(root, parseJson) == []
    ensures forall g | g in GroupsFound(root, parseJson) ::
              exists f :: && f in FindGroupsDir(root).files
                          && EndsWith(f.name, ".json") && ReadFile(f).Some?
                          && parseJson(ReadFile(f).value).Some?
                          && GroupFor(parseJson(ReadFile(f).value).value) == Some(g)
  {
    forall g | g in GroupsFound(root, parseJson)
      ensures exists f :: && f in FindGroupsDir(root).files
                          && EndsWith(f.name, ".json") && ReadFile(f).Some?
                          && parseJson(ReadFile(f).value).Some?
                          && GroupFor(parseJson(ReadFile(f).value).value) == Some(g)
    {
      var files := FindGroupsDir(root).files;
      ScanAllFrom(files, GroupStep(parseJson), g);
      var f :| f in files && g in GroupStep(parseJson)(f).records;
      GroupFileFrom(parseJson, f, g);
    }
  }

  lemma GroupFileFrom(parseJson: string -> Option<GroupData>, f: Node, g: InsertGroup)
    requires g in GroupFile(parseJson, f).records
    ensures EndsWith(f.name, ".json") && ReadFile(f).Some? && parseJson(ReadFile(f).value).Some?
    ensures GroupFor(parseJson(ReadFile(f).value).value) == Some(g)
  {
  }

  /** Loading at two different times finds articles under the same slugs in
      the same order: only the defaulted dates differ. */
  lemma ArticlesFoundSlugs(root: Tree, parse: string -> Option<Parsed>, now: Timestamp, now2: Timestamp)
    ensures SameSlugs(ArticlesFound(root, parse, now), ArticlesFound(root, parse, now2), ArticleSlug)
  {
    if root.Some? {
      forall n | n in root.value
        ensures && EntryArticles(parse, BuildAt(now), n).failed == EntryArticles(parse, BuildAt(now2), n).failed
                && SameSlugs(EntryArticles(parse, BuildAt(now), n).records, EntryArticles(parse, BuildAt(now2), n).records, ArticleSlug)
      {
        if n.kind.Dir? && n.kind.children.Some? {
          ScanAllSameSlugs(n.kind.children.value, FileStep(parse, BuildAt(now), n.name), FileStep(parse, BuildAt(now2), n.name), ArticleSlug);
        }
      }
      ScanAllSameSlugs(root.value, ArticleStep(parse, BuildAt(now)), ArticleStep(parse, BuildAt(now2)), ArticleSlug);
    }
  }

  /** Loading the same tree a second time, into the tables the first load
      left, adds no slug and moves none in any table; collections and groups
      hold the same fields again. Duplicate slugs within one load are not
      doubled either: each table is keyed by slug. */
  lemma ReloadKeepsKeys(
    c: JsMap<Collection>, cn: nat, cn2: nat,
    a: JsMap<Article>, an: nat, an2: nat,
    g: JsMap<Group>, gn: nat, gn2: nat,
    root: Tree, parse: string -> Option<Parsed>, parseJson: string -> Option<GroupData>,
    now: Timestamp, now2: Timestamp)
    ensures var cs := CollectionsFound(root);
            var c1 := CreateAll(c, cn, cs, CollectionSlug);
            var c2 := CreateAll(c1, cn2, cs, CollectionSlug);
            && c2.keys == c1.keys && c2.entries.Keys == c1.entries.Keys
            && forall k | k in c1.entries :: c2.entries[k].fields == c1.entries[k].fields
    ensures var a1 := CreateAll(a, an, ArticlesFound(root, parse, now), ArticleSlug);
            var a2 := CreateAll(a1, an2, ArticlesFound(root, parse, now2), ArticleSlug);
            a2.keys == a1.keys && a2.entries.Keys == a1.entries.Keys
    ensures var gs := GroupsFound(root, parseJson);
            var g1 := CreateAll(g, gn, gs, GroupSlug);
            var g2 := CreateAll(g1, gn2, gs, GroupSlug);
            && g2.keys == g1.keys && g2.entries.Keys == g1.entries.Keys
            && forall k | k in g1.entries :: g2.entries[k].fields == g1.entries[k].fields
  {
    CreateAllTwice(c, cn, CollectionsFound(root), cn2, CollectionsFound(root), CollectionSlug);
    ArticlesFoundSlugs(root, parse, now, now2);
    CreateAllTwice(a, an, ArticlesFound(root, parse, now), an2, ArticlesFound(root, parse, now2), ArticleSlug);
    CreateAllTwice(g, gn, GroupsFound(root, parseJson), gn2, GroupsFound(root, parseJson), GroupSlug);
  }

  // ---------------------------------------------------------------------
  // The phases as loops over the store

  /** The fold over `done + [x]`, once the fold over `done` is known. */
  lemma CreateAllStep<R>(m0: JsMap<Row<R>>, id0: nat, done: seq<R>, x: R, slugOf: R -> string,
                         before: JsMap<Row<R>>, after: JsMap<Row<R>>)
    requires before == CreateAll(m0, id0, done, slugOf)
    requires after == before.Set(slugOf(x), Row(id0 + |done|, x))
    ensures after == CreateAll(m0, id0, done + [x], slugOf)
  {
    CreateAllSnoc(m0, id0, done, x, slugOf);
  }

  /** `storage.createCollection(c)` seen as one more step of a phase: the
      table goes from the fold over `done` to the fold over `done + [c]`. */
  method CreateNextCollection(store: MemStorage, ghost m0: JsMap<Collection>, ghost id0: nat,
                              ghost done: seq<InsertCollection>, c: InsertCollection)
    requires store.Valid()
    requires store.collections == CreateAll(m0, id0, done, CollectionSlug)
    requires store.collectionId == id0 + |done|
    modifies store
    ensures store.Valid()
    ensures store.collections == CreateAll(m0, id0, done + [c], CollectionSlug)
    ensures store.collectionId == id0 + |done + [c]|
    ensures store.articles == old(store.articles) && store.groups == old(store.groups)
    ensures store.articleId == old(store.articleId) && store.groupId == old(store.groupId)
  {
    ghost var before := store.collections;
    var created := store.CreateCollection(c);
    CreateAllStep(m0, id0, done, c, CollectionSlug, before, store.collections);
  }

  /** `storage.createArticle(a)` as one more step of a phase. */
  method CreateNextArticle(store: MemStorage, ghost m0: JsMap<Article>, ghost id0: nat,
                           ghost done: seq<InsertArticle>, a: InsertArticle)
    requires store.Valid()
    requires store.articles == CreateAll(m0, id0, done, ArticleSlug)
    requires store.articleId == id0 + |done|
    modifies store
    ensures store.Valid()
    ensures store.articles == CreateAll(m0, id0, done + [a], ArticleSlug)
    ensures store.articleId == id0 + |done + [a]|
    ensures store.collections == old(store.collections) && store.groups == old(store.groups)
    ensures store.collectionId == old(store.collectionId) && store.groupId == old(store.groupId)
  {
    ghost var before := store.articles;
    var created := store.CreateArticle(a);
    CreateAllStep(m0, id0, done, a, ArticleSlug, before, store.articles);
  }

  /** `storage.createGroup(g)` as one more step of a phase. */
  method CreateNextGroup(store: MemStorage, ghost m0: JsMap<Group>, ghost id0: nat,
                         ghost done: seq<InsertGroup>, g: InsertGroup)
    requires store.Valid()
    requires store.groups == CreateAll(m0, id0, done, GroupSlug)
    requires store.groupId == id0 + |done|
    modifies store
    ensures store.Valid()
    ensures store.groups == CreateAll(m0, id0, done + [g], GroupSlug)
    ensures store.groupId == id0 + |done + [g]|
    ensures store.articles == old(store.articles) && store.collections == old(store.collections)
    ensures store.articleId == old(store.articleId) && store.collectionId == old(store.collectionId)
  {
    ghost var before := store.groups;
    var created := store.CreateGroup(g);
    CreateAllStep(m0, id0, done, g, GroupSlug, before, store.groups);
  }

  /** The loop's view of the scan: the first `n` elements of `xs`, one
      more per iteration. */
  function ScanUpTo<X, R>(xs: seq<X>, n: nat, step: X -> Scan<R>): Scan<R>
    requires n <= |xs|
  {
    if n == 0 then Scan([], false)
    else
      var t := ScanUpTo(xs, n - 1, step);
      if t.failed then t
      else
        var h := step(xs[n - 1]);
        Scan(t.records + h.records, h.failed)
  }

  /** The loop's view agrees with the scan of the prefix. */
  lemma {:induction false} ScanUpToAll<X, R>(xs: seq<X>, n: nat, step: X -> Scan<R>)
    requires n <= |xs|
    ensures ScanUpTo(xs, n, step) == ScanAll(xs[..n], step)
  {
    if n == 0 {
      assert xs[..0] == [];
    } else {
      ScanUpToAll(xs, n - 1, step);
      ScanNext(xs, n - 1, step);
    }
  }

  /** The scan of a prefix one element longer, when the shorter one did not
      throw. */
  lemma ScanStep<X, R>(xs: seq<X>, i: nat, step: X -> Scan<R>, done: seq<R>, h: Scan<R>)
    requires i < |xs| && ScanUpTo(xs, i, step) == Scan(done, false) && step(xs[i]) == h
    ensures ScanUpTo(xs, i + 1, step) == Scan(done + h.records, h.failed)
  {
  }

  /** The scan of the whole sequence when the step at `i` throws. */
  lemma ScanStop<X, R>(xs: seq<X>, i: nat, step: X -> Scan<R>, done: seq<R>)
    requires i < |xs| && ScanUpTo(xs, i, step) == Scan(done, false) && step(xs[i]).failed
    ensures ScanAll(xs, step) == Scan(done + step(xs[i]).records, true)
  {
    ScanUpToAll(xs, i, step);
    ScanAllStops(xs, i, step);
  }

  /** The scan of the whole sequence when no step threw. */
  lemma ScanDone<X, R>(xs: seq<X>, step: X -> Scan<R>, done: seq<R>)
    requires ScanUpTo(xs, |xs|, step) == Scan(done, false)
    ensures ScanAll(xs, step) == Scan(done, false)
  {
    ScanUpToAll(xs, |xs|, step);
    assert xs[..|xs|] == xs;
  }

  /** One root entry of `ensureCollections`: an entry `fs.stat` fails on
      throws, a directory becomes one more collection of the phase, which
      has created `done` so far, and anything else is skipped. */
  method EnsureCollection(store: MemStorage, ghost m0: JsMap<Collection>, ghost id0: nat,
                          ghost done: seq<InsertCollection>, n: Node)
    returns (failed: bool)
    requires store.Valid()
    requires store.collections == CreateAll(m0, id0, done, CollectionSlug)
    requires store.collectionId == id0 + |done|
    modifies store
    ensures store.Valid()
    ensures var h := CollectionStep(n);
            && failed == h.failed
            && store.collections == CreateAll(m0, id0, done + h.records, CollectionSlug)
            && store.collectionId == id0 + |done + h.records|
    ensures store.articles == old(store.articles) && store.groups == old(store.groups)
    ensures store.articleId == old(store.articleId) && store.groupId == old(store.groupId)
  {
    if n.kind.Unstattable? {
      assert done + [] == done;
      return true;
    }
    if n.kind.Dir? {
      CreateNextCollection(store, m0, id0, done, CollectionFor(n.name));
    } else {
      assert done + [] == done;
    }
    return false;
  }

  /** `ensureCollections`: registers the collections of `root` in order;
      only the collection table and its counter change. */
  method EnsureCollections(store: MemStorage, root: Tree)
    requires store.Valid()
    modifies store
    ensures store.Valid()
    ensures store.collections
         == CreateAll(old(store.collections), old(store.collectionId), CollectionsFound(root), CollectionSlug)
    ensures store.collectionId == old(store.collectionId) + |CollectionsFound(root)|
    ensures store.articles == old(store.articles) && store.groups == old(store.groups)
    ensures store.articleId == old(store.articleId) && store.groupId == old(store.groupId)
  {
    if root.None? {
      return;
    }
    var entries := root.value;
    ghost var m0, id0 := store.collections, store.collectionId;
    ghost var done: seq<InsertCollection> := [];
    var i := 0;
    while i < |entries|
      invariant 0 <= i <= |entries|
      invariant ScanUpTo(entries, i, CollectionStep) == Scan(done, false)
      invariant store.Valid()
      invariant store.collections == CreateAll(m0, id0, done, CollectionSlug)
      invariant store.collectionId == id0 + |done|
      invariant store.articles == old(store.articles) && store.groups == old(store.groups)
      invariant store.articleId == old(store.articleId) && store.groupId == old(store.groupId)
    {
      ghost var h := CollectionStep(entries[i]);
      var failed := EnsureCollection(store, m0, id0, done, entries[i]);
      if failed {
        ScanStop(entries, i, CollectionStep, done);
        assert CollectionsFound(root) == done + h.records;
        return;
      }
      ScanStep(entries, i, CollectionStep, done, h);
      done := done + h.records;
      i := i + 1;
    }
    ScanDone(entries, CollectionStep, done);
    assert CollectionsFound(root) == done;
  }

  /** One file of `loadArticles`' inner loop: a ".md" file that reads and
      parses becomes one more article of the phase, which has created
      `done` so far; the result says whether the file threw. */
  method LoadFile(store: MemStorage, ghost m0: JsMap<Article>, ghost id0: nat, ghost done: seq<InsertArticle>,
                  dir: string, f: Node, parse: string -> Option<Parsed>, build: ArticleBuilder)
    returns (failed: bool)
    requires store.Valid()
    requires store.articles == CreateAll(m0, id0, done, ArticleSlug)
    requires store.articleId == id0 + |done|
    modifies store
    ensures store.Valid()
    ensures var h := FileArticle(parse, build, dir, f);
            && failed == h.failed
            && store.articles == CreateAll(m0, id0, done + h.records, ArticleSlug)
            && store.articleId == id0 + |done + h.records|
    ensures store.collections == old(store.collections) && store.groups == old(store.groups)
    ensures store.collectionId == old(store.collectionId) && store.groupId == old(store.groupId)
  {
    if !EndsWith(f.name, ".md") {
      assert done + [] == done;
      return false;
    }
    var text := ReadFile(f);
    var p := if text.None? then None else parse(text.value);
    if p.None? {
      assert done + [] == done;
      return true;
    }
    var a := build(dir, f.name, p.value);
    CreateNextArticle(store, m0, id0, done, a);
    return false;
  }

  /** The inner loop of `loadArticles`: the files of one directory, in
      order, on top of the articles `done` the phase has created so far.
      The result says whether a file threw, which ends the phase. */
  method LoadDirectory(store: MemStorage, ghost m0: JsMap<Article>, ghost id0: nat, ghost done: seq<InsertArticle>,
                       dir: string, files: seq<Node>, parse: string -> Option<Parsed>, build: ArticleBuilder)
    returns (failed: bool, ghost found: seq<InsertArticle>)
    requires store.Valid()
    requires store.articles == CreateAll(m0, id0, done, ArticleSlug)
    requires store.articleId == id0 + |done|
    modifies store
    ensures store.Valid()
    ensures ScanAll(files, FileStep(parse, build, dir)) == Scan(found, failed)
    ensures store.articles == CreateAll(m0, id0, done + found, ArticleSlug)
    ensures store.articleId == id0 + |done + found|
    ensures store.collections == old(store.collections) && store.groups == old(store.groups)
    ensures store.collectionId == old(store.collectionId) && store.groupId == old(store.groupId)
  {
    var step := FileStep(parse, build, dir);
    found := [];
    assert done + found == done;
    var j := 0;
    while j < |files|
      invariant 0 <= j <= |files|
      invariant ScanUpTo(files, j, step) == Scan(found, false)
      invariant store.Valid()
      invariant store.articles == CreateAll(m0, id0, done + found, ArticleSlug)
      invariant store.articleId == id0 + |done + found|
      invariant store.collections == old(store.collections) && store.groups == old(store.groups)
      invariant store.collectionId == old(store.collectionId) && store.groupId == old(store.groupId)
    {
      ghost var h := FileArticle(parse, build, dir, files[j]);
      assert step(files[j]) == h;
      failed := LoadFile(store, m0, id0, done + found, dir, files[j], parse, build);
      AppendAssoc(done, found, h.records);
      if failed {
        ScanStop(files, j, step, found);
        return failed, found + h.records;
      }
      ScanStep(files, j, step, found, h);
      found := found + h.records;
      j := j + 1;
    }
    ScanDone(files, step, found);
    return false, found;
  }

  /** One root entry of `loadArticles`: an entry `fs.stat` fails on, or a
      directory that cannot be listed, throws; a non-directory is skipped;
      a directory's files are loaded in order. */
  method LoadEntry(store: MemStorage, ghost m0: JsMap<Article>, ghost id0: nat, ghost done: seq<InsertArticle>,
                   n: Node, parse: string -> Option<Parsed>, build: ArticleBuilder)
    returns (failed: bool)
    requires store.Valid()
    requires store.articles == CreateAll(m0, id0, done, ArticleSlug)
    requires store.articleId == id0 + |done|
    modifies store
    ensures store.Valid()
    ensures var h := EntryArticles(parse, build, n);
            && failed == h.failed
            && store.articles == CreateAll(m0, id0, done + h.records, ArticleSlug)
            && store.articleId == id0 + |done + h.records|
    ensures store.collections == old(store.collections) && store.groups == old(store.groups)
    ensures store.collectionId == old(store.collectionId) && store.groupId == old(store.groupId)
  {
    if n.kind.Unstattable? || (n.kind.Dir? && n.kind.children.None?) {
      assert done + [] == done;
      return true;
    }
    if n.kind.Dir? {
      var files := n.kind.children.value;
      assert EntryArticles(parse, build, n) == ScanAll(files, FileStep(parse, build, n.name));
      ghost var found;
      failed, found := LoadDirectory(store, m0, id0, done, n.name, files, parse, build);
    } else {
      assert done + [] == done;
      failed := false;
    }
  }

  /** `loadArticles`: creates the articles of `root` in order; only the
      article table and its counter change. */
  method LoadArticles(store: MemStorage, root: Tree, parse: string -> Option<Parsed>, build: ArticleBuilder)
    requires store.Valid()
    modifies store
    ensures store.Valid()
    ensures store.articles
         == CreateAll(old(store.articles), old(store.articleId), ArticlesBuilt(root, parse, build), ArticleSlug)
    ensures store.articleId == old(store.articleId) + |ArticlesBuilt(root, parse, build)|
    ensures store.collections == old(store.collections) && store.groups == old(store.groups)
    ensures store.collectionId == old(store.collectionId) && store.groupId == old(store.groupId)
  {
    if root.None? {
      return;
    }
    var entries := root.value;
    var step := ArticleStep(parse, build);
    ghost var m0, id0 := store.articles, store.articleId;
    ghost var done: seq<InsertArticle> := [];
    assert CreateAll(m0, id0, done, ArticleSlug) == m0;
    var i := 0;
    while i < |entries|
      invariant 0 <= i <= |entries|
      invariant ScanUpTo(entries, i, step) == Scan(done, false)
      invariant store.Valid()
      invariant store.articles == CreateAll(m0, id0, done, ArticleSlug)
      invariant store.articleId == id0 + |done|
      invariant store.collections == old(store.collections) && store.groups == old(store.groups)
      invariant store.collectionId == old(store.collectionId) && store.groupId == old(store.groupId)
    {
      ghost var h := EntryArticles(parse, build, entries[i]);
      assert step(entries[i]) == h;
      var failed := LoadEntry(store, m0, id0, done, entries[i], parse, build);
      if failed {
        ScanStop(entries, i, step, done);
        assert ArticlesBuilt(root, parse, build) == done + h.records;
        return;
      }
      ScanStep(entries, i, step, done, h);
      done := done + h.records;
      i := i + 1;
    }
    ScanDone(entries, step, done);
    assert ArticlesBuilt(root, parse, build) == done;
  }

  /** One file of `loadGroups`' loop: a ".json" file that reads, parses
      and names its group becomes one more group of the phase, which has
      created `done` so far; the result says whether the file threw. */
  method LoadGroupFile(store: MemStorage, ghost m0: JsMap<Group>, ghost id0: nat, ghost done: seq<InsertGroup>,
                       f: Node, parseJson: string -> Option<GroupData>)
    returns (failed: bool)
    requires store.Valid()
    requires store.groups == CreateAll(m0, id0, done, GroupSlug)
    requires store.groupId == id0 + |done|
    modifies store
    ensures store.Valid()
    ensures var h := GroupFile(parseJson, f);
            && failed == h.failed
            && store.groups == CreateAll(m0, id0, done + h.records, GroupSlug)
            && store.groupId == id0 + |done + h.records|
    ensures store.articles == old(store.articles) && store.collections == old(store.collections)
    ensures store.articleId == old(store.articleId) && store.collectionId == old(store.collectionId)
  {
    if !EndsWith(f.name, ".json") {
      assert done + [] == done;
      return false;
    }
    var text := ReadFile(f);
    var data := if text.None? then None else parseJson(text.value);
    var g := if data.None? then None else GroupFor(data.value);
    if g.None? {
      assert done + [] == done;
      return true;
    }
    CreateNextGroup(store, m0, id0, done, g.value);
    return false;
  }

  /** `loadGroups`: creates the groups of `<root>/groups` in order; only the
      group table and its counter change. */
  method LoadGroups(store: MemStorage, root: Tree, parseJson: string -> Option<GroupData>)
    requires store.Valid()
    modifies store
    ensures store.Valid()
    ensures store.groups
         == CreateAll(old(store.groups), old(store.groupId), GroupsFound(root, parseJson), GroupSlug)
    ensures store.groupId == old(store.groupId) + |GroupsFound(root, parseJson)|
    ensures store.articles == old(store.articles) && store.collections == old(store.collections)
    ensures store.articleId == old(store.articleId) && store.collectionId == old(store.collectionId)
  {
    var dir := FindGroupsDir(root);
    if !dir.Listing? {
      return;
    }
    var files := dir.files;
    var step := GroupStep(parseJson);
    assert GroupsFound(root, parseJson) == ScanAll(files, step).records;
    ghost var m0, id0 := store.groups, store.groupId;
    ghost var done: seq<InsertGroup> := [];
    var i := 0;
    while i < |files|
      invariant 0 <= i <= |files|
      invariant ScanUpTo(files, i, step) == Scan(done, false)
      invariant store.Valid()
      invariant store.groups == CreateAll(m0, id0, done, GroupSlug)
      invariant store.groupId == id0 + |done|
      invariant store.articles == old(store.articles) && store.collections == old(store.collections)
      invariant store.articleId == old(store.articleId) && store.collectionId == old(store.collectionId)
    {
      ghost var h := GroupFile(parseJson, files[i]);
      assert step(files[i]) == h;
      var failed := LoadGroupFile(store, m0, id0, done, files[i], parseJson);
      if failed {
        ScanStop(files, i, step, done);
        assert GroupsFound(root, parseJson) == done + h.records;
        return;
      }
      ScanStep(files, i, step, done, h);
      done := done + h.records;
      i := i + 1;
    }
    ScanDone(files, step, done);
    assert GroupsFound(root, parseJson) == done;
  }

  /** `loadContent`: the three phases, in this order. Each phase catches its
      own errors, so one that stops early never keeps the next from running;
      ids stay consecutive and distinct in every table. */
  method LoadContent(store: MemStorage, root: Tree, parse: string -> Option<Parsed>,
                     parseJson: string -> Option<GroupData>, now: Timestamp)
    requires store.Valid()
    modifies store
    ensures store.Valid()
    ensures old(store.IdsValid()) ==> store.IdsValid()
    ensures store.collections
         == CreateAll(old(store.collections), old(store.collectionId), CollectionsFound(root), CollectionSlug)
    ensures store.articles
         == CreateAll(old(store.articles), old(store.articleId), ArticlesFound(root, parse, now), ArticleSlug)
    ensures store.groups
         == CreateAll(old(store.groups), old(store.groupId), GroupsFound(root, parseJson), GroupSlug)
    ensures store.collectionId == old(store.collectionId) + |CollectionsFound(root)|
    ensures store.articleId == old(store.articleId) + |ArticlesFound(root, parse, now)|
    ensures store.groupId == old(store.groupId) + |GroupsFound(root, parseJson)|
  {
    EnsureCollections(store, root);
    LoadArticles(store, root, parse, BuildAt(now));
    LoadGroups(store, root, parseJson);
    if old(store.IdsValid()) {
      CreateAllValid(old(store.collections), old(store.collectionId), CollectionsFound(root), CollectionSlug);
      CreateAllValid(old(store.articles), old(store.articleId), ArticlesFound(root, parse, now), ArticleSlug);
      CreateAllValid(old(store.groups), old(store.groupId), GroupsFound(root, parseJson), GroupSlug);
    }
  }
}
