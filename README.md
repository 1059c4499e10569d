# Content pipeline of a static-publishing site, in Dafny

This project models the server side of a small publishing site. The site
reads Markdown articles, collection directories and JSON group descriptors
from a content directory into an in-memory store, and serves them through a
JSON API. The model covers five pieces of that pipeline:

- **The store** (`Storage`, class `MemStorage`). It holds three slug-keyed
  JavaScript `Map`s (articles, collections, groups) and three id counters.
  A `Map` is modelled as a key sequence in first-insertion order plus a
  dictionary (`JsMaps.JsMap`). `create*`, `updateArticle` and
  `deleteArticle` are methods that reassign the fields. The `get*` queries
  are functions over the stored values. `Array.prototype.sort` is modelled
  as a stable insertion sort with a JavaScript-style comparator
  (`JsArrays.Sort`).
- **The slug normaliser and the excerpt rule** (`Markdown`). `slugify` is
  modelled as its chain of string replacements. The excerpt is the first
  paragraph with `#`, `*` and backquotes removed.
- **The content loader** (`Content`). The directory tree is an abstract
  value: a listing of named entries, each one a directory with its own
  listing, a readable or unreadable file, or an entry `fs.stat` fails on.
  The three phases (`ensureCollections`, `loadArticles`, `loadGroups`) are
  loops over the store. Each loop is proved equal to a reference
  definition: a left fold `CreateAll` of `create*` over the records that a
  pure scan (`ScanAll`) finds. The scan stops at the first entry that
  throws, which is how the phase-level `try` behaves. The per-record `try`
  blocks never fire, because `create*` never throws.
- **The read side of the HTTP routes** (`Routes`):
  - the `/api/tags` aggregation, as a loop that counts tags and its
    specification `TagList`;
  - the found/404 answer of the three single-item routes;
  - the startup rule that writes sample content only into an empty
    content directory.
- **The image scanner** (`Images`). The two global regular expressions of
  `extractImagesFromMarkdown` are modelled by a matcher that follows their
  lazy quantifiers. The `while (exec)` loops are modelled by a method
  proved against the sequence of successive matches. The supported-format
  check uses a model of Node's `path.extname` (`Paths`).

Collaborators are parameters of the operations that use them:

- `parseMarkdown`'s frontmatter, content and html, and `JSON.parse`, are
  functions of the file text. `None` means the library throws, or that a
  property read on its result throws.
- The load time `now` is a parameter. Dates are integer timestamps. A
  frontmatter `date` or `updated` key is either absent or a timestamp; a
  falsy value there is represented as absent.
- `createSampleContent` is represented by the listing it leaves behind.

The loops of the loader carry ghost parameters: the table and counter at
the start of the phase (`m0`, `id0`) and the records created so far
(`done`). These only state what the loop has done so far; the source
passes nothing of the kind.

The source files are cited by path relative to the repository root.

## Model

| member | source | states |
|---|---|---|
| Storage.MemStorage.constructor | server/storage.ts:37-44 | the three tables start empty and valid, and every id counter starts at 1 |
| Storage.MemStorage.CreateArticle | server/storage.ts:75-82 | the new article is `{ ...a, id }` with id equal to the counter before the call; the counter advances by exactly 1 even when the slug exists; the slug now holds the new article (last write wins); every other slug, the other tables and the other counters are unchanged; the id discipline (distinct ids below the counter) is kept |
| Storage.MemStorage.UpdateArticle | server/storage.ts:84-96 | a missing slug gives undefined and leaves the table as it was; a present one is overlaid with the patch, its `updatedAt` becomes `now`, and it is stored under the original slug even when the patch changes the `slug` field; the key order is unchanged; the other slugs, tables and counters are unchanged; ids keep their discipline |
| Storage.MemStorage.DeleteArticle | server/storage.ts:98-100 | returns true exactly when the slug was present; afterwards `getArticle` of it is undefined and every other slug reads as before |
| Storage.MemStorage.CreateCollection | server/storage.ts:111-118 | as for articles: the id is the old counter, the counter advances by 1, the slug holds the new row, and nothing else changes |
| Storage.MemStorage.CreateGroup | server/storage.ts:129-136 | as for collections, on the group table and its counter |
| Storage.ArticlesByDate | server/storage.ts:47-50 | `getArticles` returns every stored article exactly as often as it is stored (same multiset), with dates non-increasing; articles with equal dates keep their insertion order (stable) |
| Storage.ArticlesOfCollection | server/storage.ts:52-63 | `getArticlesByCollection(c)` returns exactly the stored articles whose collection is `c`, each as often as it is stored |
| Storage.CollectionOrder | server/storage.ts:55-62 | when every article of the collection has a sequence, the result is in non-decreasing sequence order; when none has one, dates are non-increasing; either way ties keep their stored order |
| Storage.ArticlesWithTag | server/storage.ts:65-69 | `getArticlesByTag(t)` returns exactly the articles whose tag list contains `t` (exact match), each as often as it is stored, with dates non-increasing |
| Storage.OverlayIdempotent | server/storage.ts:88-92 | applying the same patch twice at the same time equals applying it once; an empty patch changes only `updatedAt` |
| Storage.CreateAllValid | server/storage.ts:76-80 | any series of `create*` calls keeps ids distinct and below the counter; the counter advances by one per call, duplicates included |
| Storage.CreateAllGet | server/storage.ts:80 | after a series of creates, each slug holds the last record created under it, with the id it was given; slugs not used are untouched |
| Storage.CreateAllKeys | server/storage.ts:75-82 | creating never moves a key: the old key order is a prefix of the new one |
| Storage.CreateAllHasSlugs | server/storage.ts:80 | creating never removes a slug, and every created slug is present afterwards |
| Storage.CreateAllPresent | server/storage.ts:75-82 | creating records whose slugs are already present changes neither the key set nor the key order |
| Storage.CreateAllTwice | server/storage.ts:80 | creating again, slug for slug, what was created adds and moves no key; the very same records leave every slug with the fields it had |
| Storage.CreateAllSnoc | server/storage.ts:75-82 | one more create extends the series by one `set` with the next id |
| Storage.CreateAllAppend | server/storage.ts:75-82 | creating `a` then `b` is creating `a + b`, with the counter carried over |
| Storage.InsertValid | server/storage.ts:76-80 | storing a row with the counter's id keeps the id discipline once the counter advances |
| Storage.ReplaceValid | server/storage.ts:88-94 | replacing a row by one with the same id keeps the id discipline |
| Storage.DeleteValid | server/storage.ts:98-100 | deleting a key keeps the id discipline |
| Storage.LastIndex | server/storage.ts:80 | gives the last position whose record has slug `k`, or -1 when there is none |
| Storage.SameElements | server/storage.ts:48-68 | a sorted result holds the same elements as its input |
| Storage.ByDateDescAgrees | server/storage.ts:49 | `b.date - a.date` orders articles most recent first |
| Storage.SequencesAgree | server/storage.ts:55-58 | among articles that all have a sequence, the comparator orders by ascending sequence |
| Storage.DatesAgree | server/storage.ts:55-62 | among articles without a sequence, the comparator orders by date, most recent first |
| JsMaps.JsMap.Set | server/storage.ts:80 | `Map.set` replaces the value and keeps a present key's position, or appends a new key; the key order stays duplicate-free and in step with the dictionary |
| JsMaps.JsMap.Delete | server/storage.ts:99 | `Map.delete` removes exactly the key and keeps the map valid; deleting an absent key changes nothing |
| JsMaps.JsMap.Values | server/storage.ts:48 | `Array.from(map.values())` lists each key's value in key order |
| JsMaps.EmptyMap | server/storage.ts:38-40 | `new Map()` is valid, has no values, and every lookup gives undefined |
| JsMaps.SetValues | server/storage.ts:111-118 | setting a present key replaces its value in place in `values()`; setting a new key appends its value |
| JsMaps.DeleteValues | server/storage.ts:99 | deleting the key at position `i` removes exactly that value from `values()` and keeps the order of the rest |
| JsMaps.Without | server/storage.ts:99 | removing a key from the key order keeps every other key, keeps the order duplicate-free, and changes nothing when the key is absent |
| JsMaps.WithoutAt | server/storage.ts:99 | in a duplicate-free key order, removing the key at `i` cuts out exactly position `i` |
| JsMaps.IndexOfKey | server/storage.ts:80 | gives the position of a present key, with no earlier occurrence |
| JsMaps.DistinctApart | server/storage.ts:30-32 | a duplicate-free key order holds different keys at different positions |
| JsMaps.ApartDistinct | server/storage.ts:30-32 | conversely, different keys at all positions means duplicate-free |
| JsMaps.DistinctSnoc | server/storage.ts:80 | appending an absent key keeps the key order duplicate-free |
| JsArrays.InsertSorted | server/storage.ts:49 | one insertion step of the sort adds exactly the inserted element |
| JsArrays.Sort | server/storage.ts:49 | the sort returns a permutation of its input |
| JsArrays.SortOrdered | server/storage.ts:49-62 | when the comparator agrees with an integer key, the sort's result is ordered by that key |
| JsArrays.SortStable | server/storage.ts:49-62 | when the comparator agrees with an integer key, elements with equal keys keep their relative order |
| JsArrays.SortWithin | server/routes.ts:109 | the sort keeps any order among equal-key elements that the input respected |
| JsArrays.InsertSortedOrdered | server/storage.ts:49 | inserting into a key-sorted sequence keeps it sorted |
| JsArrays.InsertSortedStable | server/storage.ts:49 | inserting `x` in front of its equal-key elements keeps each key's elements in order |
| JsArrays.InsertSortedWithin | server/routes.ts:109 | insertion keeps an order among equal-key elements |
| JsArrays.FilterSpec | server/storage.ts:54-67 | `filter` keeps each element that satisfies the predicate as often as it occurs, and nothing else |
| JsArrays.FilterAll | server/storage.ts:54-67 | filtering with a predicate that every element satisfies changes nothing |
| JsArrays.FilterAppend | server/storage.ts:54-67 | filtering distributes over concatenation |
| JsArrays.FilterChain | server/routes.ts:102 | filtering keeps the relative order of the kept elements |
| JsArrays.SortedTail | server/storage.ts:49 | the tail of a sorted sequence is sorted and no smaller than its head |
| JsArrays.SortedCons | server/storage.ts:49 | putting an element no larger than a sorted sequence in front of it keeps it sorted |
| JsArrays.WithKeyCons | server/storage.ts:49 | the equal-key elements of `[x] + t` are `x` (if its key matches) followed by those of `t` |
| JsArrays.AgreesTail | server/storage.ts:49 | a comparator that agrees with a key on a sequence agrees on its tail |
| JsArrays.AgreesHead | server/storage.ts:49 | a comparator that agrees with a key on a sequence agrees between its head and any rearrangement of its tail |
| JsArrays.ChainWithinTail | server/routes.ts:109 | an order among equal-key elements holds on the tail |
| Markdown.SlugifyIsSlug | server/utils/markdown.ts:35-44 | every character `slugify` produces is in `[a-z0-9_-]`, and no two hyphens are adjacent |
| Markdown.SlugifyIdempotent | server/utils/markdown.ts:35-44 | `slugify(slugify(x)) == slugify(x)` for every string |
| Markdown.SlugifyFixesSlugs | server/utils/markdown.ts:35-44 | a string of slug shape is its own slug |
| Markdown.SlugifyEmpty | server/utils/markdown.ts:35-44 | `slugify("") == ""` |
| Markdown.SlugifySpaceRun | server/utils/markdown.ts:39-40 | a run of white space between two alphanumeric words becomes exactly one hyphen, e.g. "Hello   World" gives "hello-world" |
| Markdown.SlugifyAmpersand | server/utils/markdown.ts:41-43 | "w1 & w2" gives "w1-and-w2" in lower case, e.g. "Tom & Jerry" gives "tom-and-jerry" |
| Markdown.SlugifyLeadingAmpersand | server/utils/markdown.ts:41-43 | a leading `&` leaves a leading hyphen: "&b" gives "-and-b" |
| Markdown.SlugifyTrailingSymbol | server/utils/markdown.ts:40-43 | a trailing symbol leaves a trailing hyphen: "a !" gives "a-" |
| Markdown.TrimSpec | server/utils/markdown.ts:39 | `trim` removes exactly the white space at both ends: the result is the middle slice, neither starting nor ending with white space |
| Markdown.TrimChars | server/utils/markdown.ts:39 | trimming only removes characters |
| Markdown.SkipRunSpec | server/utils/markdown.ts:39-40 | skipping a run removes exactly the leading characters of the class |
| Markdown.TrimEndSpec | server/utils/markdown.ts:39 | removing trailing white space leaves a prefix that does not end in white space, and only white space was removed |
| Markdown.SquashRunsChars | server/utils/markdown.ts:40-43 | `replace(/R+/g, '-')` produces only hyphens and characters of the input outside the class |
| Markdown.SquashRunsSeparated | server/utils/markdown.ts:40-43 | after collapsing, no character of the class follows another |
| Markdown.SquashRunsFirst | server/utils/markdown.ts:40-43 | collapsing keeps a first character that is outside the class |
| Markdown.ExpandAmpersandsChars | server/utils/markdown.ts:41 | `replace(/&/g, '-and-')` produces only letters of "-and-" and input characters other than `&` |
| Markdown.LowerHasNoUpper | server/utils/markdown.ts:38 | `toLowerCase` leaves no ASCII capital |
| Markdown.KeptAreSlugChars | server/utils/markdown.ts:38-42 | after the removal step only `[a-z0-9_-]` remains |
| Markdown.SquashHyphensIsSlug | server/utils/markdown.ts:43 | collapsing the hyphen runs of slug characters gives a slug |
| Markdown.SquashRunsNone | server/utils/markdown.ts:40 | a string with no character of the class is unchanged by the collapse |
| Markdown.SquashRunsSingles | server/utils/markdown.ts:43 | a string with no two adjacent class characters is unchanged by the collapse |
| Markdown.ExpandAmpersandsNone | server/utils/markdown.ts:41 | a string without `&` is unchanged by the expansion |
| Markdown.ToLowerFixesSlug | server/utils/markdown.ts:38 | lower-casing leaves a slug unchanged |
| Markdown.TrimFixesSlug | server/utils/markdown.ts:39 | trimming leaves a slug unchanged |
| Markdown.SquashSpacesFixesSlug | server/utils/markdown.ts:40 | the white-space step leaves a slug unchanged |
| Markdown.ExpandAmpersandsFixesSlug | server/utils/markdown.ts:41 | the `&` step leaves a slug unchanged |
| Markdown.FilterFixesSlug | server/utils/markdown.ts:42 | the removal step leaves a slug unchanged |
| Markdown.SquashHyphensFixesSlug | server/utils/markdown.ts:43 | the hyphen step leaves a slug unchanged |
| Markdown.SquashRunsPlain | server/utils/markdown.ts:40-43 | a prefix with no class character passes through the collapse unchanged |
| Markdown.SquashRunsRun | server/utils/markdown.ts:40-43 | a non-empty run of the class followed by a non-class character becomes one hyphen |
| Markdown.SkipRunOver | server/utils/markdown.ts:40-43 | skipping a run of the class stops at the first character outside it |
| Markdown.ExpandAmpersandsAppend | server/utils/markdown.ts:41 | the `&` expansion distributes over concatenation |
| Markdown.TrimUntrimmed | server/utils/markdown.ts:39 | a string that neither starts nor ends with white space is unchanged by `trim` |
| Markdown.LowerWord | server/utils/markdown.ts:38 | lower-casing an alphanumeric word gives a lower-case word |
| Markdown.LowerWordPlain | server/utils/markdown.ts:40-41 | a lower-case word holds no white space, hyphen or `&` |
| Markdown.ToLowerAppend | server/utils/markdown.ts:38 | lower-casing distributes over concatenation |
| Markdown.ToLowerAroundSpaces | server/utils/markdown.ts:38 | lower-casing leaves the white space between two words alone |
| Markdown.TrimBetweenWords | server/utils/markdown.ts:39 | trimming leaves "word space word" alone |
| Markdown.SquashSpacesBetweenWords | server/utils/markdown.ts:40 | the white space between two words becomes one hyphen |
| Markdown.HyphenatedWordsAreSlug | server/utils/markdown.ts:42-43 | two lower-case words joined by one hyphen form a slug |
| Markdown.ToLowerAmpersand | server/utils/markdown.ts:38 | lower-casing leaves " & " between two words alone |
| Markdown.SquashSpacesAroundAmpersand | server/utils/markdown.ts:40 | the spaces around " & " become hyphens: "-&-" |
| Markdown.SquashSpacesAmpersandWord | server/utils/markdown.ts:40 | " & w" becomes "-&-w" |
| Markdown.SquashSpaceWord | server/utils/markdown.ts:40 | " w" becomes "-w" |
| Markdown.ExpandAmpersandBetween | server/utils/markdown.ts:41 | "l1-&-l2" becomes "l1--and--l2" |
| Markdown.FilterKeepsWords | server/utils/markdown.ts:42 | the removal step keeps a string of word characters and hyphens |
| Markdown.SquashHyphensAroundAnd | server/utils/markdown.ts:43 | "l1--and--l2" collapses to "l1-and-l2" |
| Markdown.SquashSpacesNone | server/utils/markdown.ts:40 | a string without white space passes the white-space step unchanged |
| Markdown.ExpandLeadingAmpersand | server/utils/markdown.ts:41 | a leading `&` becomes "-and-" |
| Markdown.AmpersandWordLowered | server/utils/markdown.ts:38-40 | "&w" passes lower-casing, trimming and the white-space step as "&" followed by the lower-cased word |
| Markdown.AndWordSlug | server/utils/markdown.ts:43 | "-and-" followed by a lower-case word is a slug |
| Markdown.SquashSpaceBeforeSymbol | server/utils/markdown.ts:40 | "l !" becomes "l-!" |
| Markdown.FilterDropsSymbol | server/utils/markdown.ts:42 | the removal step turns "l-!" into "l-" |
| Markdown.SymbolLowered | server/utils/markdown.ts:38-39 | lower-casing and trimming "w !" give the lower-cased word followed by " !" |
| Markdown.HyphenEndSlug | server/utils/markdown.ts:43 | a lower-case word followed by one hyphen is a slug |
| Markdown.FirstParagraphSpec | server/utils/markdown.ts:19 | `split('\n\n')[0]` is the prefix of the body before the first "\n\n", or the whole body when there is none |
| Markdown.ExcerptSpec | server/utils/markdown.ts:19 | the excerpt holds no `#`, `*` or backquote, and every other character of the first paragraph as often as it occurs there and in the same order: read left to right, each other character is appended and each mark skipped |
| Markdown.StripMarksSnoc | server/utils/markdown.ts:19 | removing the marks from `p + [c]` gives the marks removed from `p`, followed by `c` unless `c` is a mark |
| Markdown.ExcerptStopsAtBlankLine | server/utils/markdown.ts:19 | whatever follows the first blank-line separator is ignored |
| Markdown.ExcerptOfPlainBody | server/utils/markdown.ts:19 | a body with no blank line and no marks is its own excerpt |
| Markdown.NoBlankLineBefore | server/utils/markdown.ts:19 | in `a + "\n\n" + b`, with `a` free of "\n\n" and not ending in a line feed, the first separator is right after `a` |
| Markdown.IndexOfFirst | server/utils/markdown.ts:19 | `indexOf` finds the first occurrence |
| Strings.IndexOf | server/utils/markdown.ts:19 | `indexOf` gives the first occurrence at or after `from`, or -1 exactly when there is none |
| Strings.Split | server/utils/content.ts:37 | `split` never returns an empty array, and no piece holds the separator |
| Strings.JoinSplit | server/utils/content.ts:37-39 | splitting then joining with the same separator gives the string back |
| Strings.JoinConsFirst | server/utils/content.ts:39 | prepending a character to the first word prepends it to the join |
| Content.CollectionNameSpec | server/utils/content.ts:36-39 | the collection name is the directory name with each hyphen turned into a space and each word's first character upper-cased; it has the same length |
| Content.CapWordsTitleCase | server/utils/content.ts:36-39 | capitalising the hyphen-separated words and joining them with spaces equals the one-pass title-casing |
| Content.CapWordsAll | server/utils/content.ts:38 | capitalising at each word start capitalises every word |
| Content.TitleCase | server/utils/content.ts:36-39 | title-casing keeps the length |
| Content.TitleCaseTwoWords | server/utils/content.ts:36-39 | "w1-w2" gives "W1 W2" with each word capitalised, e.g. "getting-started" gives "Getting Started" |
| Content.TitleCaseInWord | server/utils/content.ts:38 | inside a word without hyphens, title-casing changes nothing |
| Content.TitleCaseSecondWord | server/utils/content.ts:37-39 | a hyphen followed by a word becomes a space followed by the capitalised word |
| Content.ArticleForSpec | server/utils/content.ts:83-100 | the article's collection is its directory; the slug is a truthy frontmatter slug, or else `slugify` of the file name without its first ".md" (so of slug shape); the title falls back to the slug; a present `date`, `updated` or tags list is taken as given; a missing date is the load time; a missing `updated` leaves `updatedAt` unset; missing tags are `[]`; a sequence of 0 becomes null and any other is kept |
| Content.StemCutsFirst | server/utils/content.ts:83 | `file.replace('.md', '')` removes only the first ".md", wherever it is |
| Content.GroupForSpec | server/utils/content.ts:136-141 | a descriptor fails exactly when it has neither a truthy slug nor a name; otherwise the name is kept, the slug is the descriptor's or a slugified name, the description is taken verbatim or defaults to "", and the chapters are taken verbatim or default to `[]` |
| Content.CollectionsFoundSpec | server/utils/content.ts:21-53 | `ensureCollections` registers one collection per directory entry (including `groups`), in listing order, skipping non-directories, up to the first entry `fs.stat` fails on |
| Content.ArticlesFoundFrom | server/utils/content.ts:64-100 | every article comes from a readable, parseable ".md" file directly inside a directory of the root, and its collection is that directory |
| Content.EntryArticlesFrom | server/utils/content.ts:72-100 | every article of one directory comes from one of its readable, parseable ".md" files |
| Content.FileArticleFrom | server/utils/content.ts:74-100 | a file yields an article only when its name ends in ".md" and it reads and parses; the article is the one derived from it |
| Content.GroupsFoundFrom | server/utils/content.ts:117-141 | no `groups` directory means no groups; otherwise every group comes from a readable, parseable ".json" file in it |
| Content.GroupFileFrom | server/utils/content.ts:127-141 | a file yields a group only when its name ends in ".json" and it reads, parses and names its group |
| Content.Lookup | server/utils/content.ts:119-122 | finds an entry with the given name, or reports that none has it |
| Content.ArticlesFoundSlugs | server/utils/content.ts:83-95 | loading at two different times finds articles under the same slugs in the same order |
| Content.ReloadKeepsKeys | server/utils/content.ts:12-16 | loading the same tree a second time into the tables the first load left adds no slug and moves none in any table; collections and groups keep their fields |
| Content.ScanAllAppend | server/utils/content.ts:22-52 | a phase over `a + b` handles `a`, then `b` unless `a` threw |
| Content.ScanAllSnoc | server/utils/content.ts:27-49 | a phase over one more entry adds that entry's records, unless it had already thrown |
| Content.ScanNext | server/utils/content.ts:27-49 | the scan of the prefix one entry longer |
| Content.ScanAllStops | server/utils/content.ts:22-52 | an exception at entry `k` ends the phase: the records before it, and its own, are kept, and nothing after it is visited |
| Content.ScanAllFrom | server/utils/content.ts:27-49 | every record comes from the step of some entry |
| Content.ScanAllSameSlugs | server/utils/content.ts:64-107 | two steps that throw alike and give records under the same slugs give whole scans that do too |
| Content.SameSlugsAppend | server/utils/content.ts:64-107 | listing records under the same slugs is preserved by concatenation |
| Content.ScanUpToAll | server/utils/content.ts:27-49 | the loop's running scan of the first `n` entries equals the scan of that prefix |
| Content.ScanStop | server/utils/content.ts:22-52 | an iteration that throws ends the phase with the records so far plus its own |
| Content.ScanDone | server/utils/content.ts:27-49 | a loop that ran to the end without an exception has scanned the whole listing |
| Content.Reached | server/utils/content.ts:29 | gives the index of the first entry `fs.stat` fails on, or the length |
| Content.CreateAllStep | server/utils/content.ts:45 | one more create continues the phase's series of creates |
| Content.CreateNextCollection | server/utils/content.ts:45 | `createCollection` as one more step of the phase: the table becomes the series with one more record, the counter advances by one, and nothing else changes |
| Content.CreateNextArticle | server/utils/content.ts:103 | `createArticle` as one more step of the phase, on the article table only |
| Content.CreateNextGroup | server/utils/content.ts:144 | `createGroup` as one more step of the phase, on the group table only |
| Content.EnsureCollection | server/utils/content.ts:28-48 | one root entry: a stat failure throws, a directory becomes one more collection, and anything else is skipped |
| Content.EnsureCollections | server/utils/content.ts:21-53 | the collection table becomes the series of creates over the collections the scan finds, the counter advances by their number, and the other tables and counters are unchanged |
| Content.LoadFile | server/utils/content.ts:74-106 | one file: a name not ending in ".md" is skipped, a read or parse failure throws, and otherwise the derived article is created |
| Content.LoadDirectory | server/utils/content.ts:72-107 | the inner loop: the files of one directory are loaded in order, and the result says whether one threw; the table is the series of creates over what was found |
| Content.LoadEntry | server/utils/content.ts:65-107 | one root entry: a stat failure or an unreadable directory throws, a non-directory is skipped, and a directory's files are loaded |
| Content.LoadArticles | server/utils/content.ts:58-112 | the article table becomes the series of creates over the articles the scan finds; only the article table and counter change |
| Content.LoadGroupFile | server/utils/content.ts:127-147 | one file: a name not ending in ".json" is skipped; a read or parse failure, or a missing slug and name, throws; otherwise the group is created |
| Content.LoadGroups | server/utils/content.ts:117-152 | the group table becomes the series of creates over the groups of `<root>/groups`; only the group table and counter change |
| Content.LoadContent | server/utils/content.ts:12-16 | collections, then articles, then groups; each phase's failure stops only that phase; each table is the series of creates over what its phase finds, and ids stay distinct and below their counters |
| Routes.CountTags | server/routes.ts:94-99 | the nested loops leave exactly the tally of all tag entries in article order |
| Routes.CountArticleTags | server/routes.ts:96-98 | the inner loop adds one article's tags to the tally of the tags before it |
| Routes.GetTags | server/routes.ts:89-115 | the handler returns the tag list specified by `TagList` for the articles `getArticles` returns |
| Routes.TallySpec | server/routes.ts:94-99 | the counts object's keys are the distinct tags in first-encounter order, and each count is the number of occurrences of its tag, repeats within one article included |
| Routes.TagCounts | server/routes.ts:94-106 | every tag object has `slug == name`, names a tag that occurs, and counts its occurrences |
| Routes.TagsOnce | server/routes.ts:102-106 | no tag name appears twice in the list |
| Routes.TagsCover | server/routes.ts:94-106 | every tag that occurs appears in the list |
| Routes.TagCovered | server/routes.ts:94-106 | one occurring tag appears in the list |
| Routes.TagsSorted | server/routes.ts:109 | the list is sorted by count, largest first |
| Routes.TagTies | server/routes.ts:91-109 | tags with equal counts keep the `Object.entries` order: integer-like names first in numeric order, then the others in first-encounter order over the articles in `getArticles` order |
| Routes.TagsTotal | server/routes.ts:94-99 | the counts add up to the number of tag entries over all articles |
| Routes.TagExample | server/routes.ts:89-115 | tag lists `[x, y]` and `[x]` give `{x, 2}` before `{y, 1}` |
| Routes.EntriesDistinct | server/routes.ts:102-106 | before the sort, the tag objects name each distinct tag once |
| Routes.TagEntryAt | server/routes.ts:102-106 | one tag object before the sort has `slug == name` and the count of its name |
| Routes.NamesCover | server/routes.ts:94-102 | every counted tag is among the names `Object.entries` lists |
| Routes.TagsOfAt | server/routes.ts:102-106 | the mapped array has one object per name, in order |
| Routes.Dedup | server/routes.ts:94-99 | the distinct tags hold no repeats and exactly the tags that occur |
| Routes.EntryOrderPerm | server/routes.ts:102 | `Object.entries` lists every key exactly once |
| Routes.FilterSplit | server/routes.ts:102 | integer-like and other keys together are all the keys |
| Routes.IndexPart | server/routes.ts:102 | the integer-like keys come in ascending numeric order |
| Routes.NamedPart | server/routes.ts:102 | the other keys come in first-encounter order |
| Routes.EntryOrderChain | server/routes.ts:102 | `Object.entries` of the counts lists the names in the `EntryBefore` order |
| Routes.DedupFirstSeen | server/routes.ts:94-99 | the distinct tags are in the order of their first occurrence |
| Routes.FirstSeenSnoc | server/routes.ts:94-99 | two tags in first-seen order stay so when one more tag is counted |
| Routes.IndexOfKeySnoc | server/routes.ts:94-99 | a tag's first position does not change when a tag is counted after it |
| Routes.IndexOfKeyLast | server/routes.ts:94-99 | a tag first counted last has the last position |
| Routes.CountsAgree | server/routes.ts:109 | `b.count - a.count` orders by descending count |
| Routes.TotalAppend | server/routes.ts:94-99 | a sum of counts distributes over concatenation |
| Routes.TotalRemove | server/routes.ts:94-99 | taking one element out of a sum subtracts its term |
| Routes.MultisetRemove | server/routes.ts:94-99 | cutting out position `i` removes exactly one copy of its element |
| Routes.TotalPerm | server/routes.ts:109 | the sum of counts does not depend on their order |
| Routes.TotalTagsOf | server/routes.ts:102-106 | the tag objects' counts sum to the counts of their names |
| Routes.TotalBump | server/routes.ts:94-99 | one more occurrence of a tag adds one to the sum over the distinct tags |
| Routes.TotalDedup | server/routes.ts:94-99 | summing the occurrence counts over the distinct tags gives the number of entries |
| Routes.ExampleEntries | server/routes.ts:95-96 | the tag entries of `[x, y]` and `[x]` are `[x, y, x]` |
| Routes.ExampleTally1 | server/routes.ts:97 | one tag counts to 1 |
| Routes.ExampleTally2 | server/routes.ts:97 | two different tags count to 1 each, in order |
| Routes.ExampleTally | server/routes.ts:97 | `[x, y, x]` counts `x` twice and `y` once, `x` first |
| Routes.ExampleOrder | server/routes.ts:102 | two names that are not integer-like keep their order |
| Routes.TallyAsWrittenAgrees | server/routes.ts:94-98 | for tag names Object.prototype does not define, the plain object counts exactly as intended |
| Routes.BumpAgrees | server/routes.ts:97 | one increment on such a name agrees with the intended count |
| Routes.ConstructorMiscounted | server/routes.ts:94-98 | as written, a tag "constructor" is counted as the string "function Object() { [native code] }1" where 1 is meant |
| Routes.ProtoUncounted | server/routes.ts:94-98 | as written, a tag "__proto__" is not counted at all |
| Routes.Respond | server/routes.ts:47-51 | the answer is 404 with "<what> not found" exactly when the lookup found nothing, and otherwise the record itself |
| Routes.ArticleRoute | server/routes.ts:47-51 | `GET /api/articles/:slug` is 404 "Article not found" exactly when no article has the slug, and otherwise returns the stored article unchanged |
| Routes.CollectionRoute | server/routes.ts:69-73 | `GET /api/collections/:slug` is 404 "Collection not found" exactly when the slug is absent, and otherwise returns the stored collection |
| Routes.GroupRoute | server/routes.ts:138-142 | `GET /api/groups/:slug` is 404 "Group not found" exactly when the slug is absent, and otherwise returns the stored group |
| Routes.StartupTree | server/routes.ts:19-33 | content is loaded exactly when the directory can be listed and, if it is empty, the samples could be written; an empty directory is loaded from the samples, any other from itself |
| Routes.Startup | server/routes.ts:24-30 | samples are used only for an empty content directory and always before `loadContent`; a failure before loading leaves the store unchanged; otherwise every table is the series of creates over what the load finds |
| Images.ExtractImages | server/utils/images/optimizer.ts:140-162 | the result is the kept markdown paths, then the kept HTML paths |
| Images.CollectKept | server/utils/images/optimizer.ts:148-159 | one `while (exec)` loop appends the kept groups of that pattern's successive matches |
| Images.ScanWith | server/utils/images/optimizer.ts:148-152 | the loop, for any sound matcher, appends the kept groups of the successive matches from position 0 |
| Images.ExtractWanted | server/utils/images/optimizer.ts:149-156 | every returned path is non-empty and does not start with "http" |
| Images.KeptWanted | server/utils/images/optimizer.ts:149-156 | every kept group passes the filter |
| Images.KeptFrom | server/utils/images/optimizer.ts:149-150 | every kept path is the group of some match |
| Images.MatchesGenuine | server/utils/images/optimizer.ts:148-155 | each match the loop sees is the pattern's match at its start |
| Images.MatchesNoneSkipped | server/utils/images/optimizer.ts:148-155 | each match is the leftmost one from where the previous one ended |
| Images.MatchesExhaustive | server/utils/images/optimizer.ts:148-155 | after the last match no position has one: the loop ends only when the text has no more |
| Images.MatchesDisjoint | server/utils/images/optimizer.ts:148-155 | the matches are in left-to-right order and do not overlap |
| Images.MatchesIncrease | server/utils/images/optimizer.ts:148-155 | any earlier match ends no later than any later match starts |
| Images.MatchesNone | server/utils/images/optimizer.ts:148-155 | a pattern that matches nowhere yields no match |
| Images.NoOpeners | server/utils/images/optimizer.ts:141-144 | text containing neither "![" nor "<img" yields no path |
| Images.Exec | server/utils/images/optimizer.ts:148-155 | `exec` returns a non-empty match at or after `lastIndex` |
| Images.ExecLeftmost | server/utils/images/optimizer.ts:148-155 | `exec` returns the leftmost match from `lastIndex`, and null only when there is none |
| Images.Matches | server/utils/images/optimizer.ts:148-155 | every match lies between the start position and the end of the text |
| Images.Lazy | server/utils/images/optimizer.ts:141-142 | a lazy `.*?` stops where its continuation occurs |
| Images.LazySpec | server/utils/images/optimizer.ts:141-142 | a lazy `.*?` takes the first place on the current line where its continuation matches, and fails only when there is none |
| Images.LazyFinds | server/utils/images/optimizer.ts:141-142 | the first place on the line where the continuation matches is the one taken |
| Images.Pattern | server/utils/images/optimizer.ts:141-142 | a match starts where it is tried and is non-empty |
| Images.MatchAt | server/utils/images/optimizer.ts:141-142 | either pattern's match starts where it is tried and is non-empty |
| Images.Matcher | server/utils/images/optimizer.ts:141-142 | both patterns are sound matchers |
| Images.Starts | server/utils/images/optimizer.ts:141-142 | a literal is found only where it fits in the text |
| Images.PatternShape | server/utils/images/optimizer.ts:141-142 | a match starts with its lead literal; its group follows the first opener on the line and runs up to the first closer, which ends the match |
| Images.PatternOnOneLine | server/utils/images/optimizer.ts:141-142 | a match lies on one line when its literals do |
| Images.PatternLines | server/utils/images/optimizer.ts:141-142 | the lead, the gap before the opener and the group of a match lie on one line |
| Images.PiecesOnOneLine | server/utils/images/optimizer.ts:141-142 | adjacent runs on one line make one run on one line |
| Images.OnOneLineJoin | server/utils/images/optimizer.ts:141-142 | two adjacent runs on one line make one run on one line |
| Images.MarkdownParts | server/utils/images/optimizer.ts:141 | a markdown match is "![", text, "](", the group, ")", with no ")" inside the group |
| Images.MarkdownShape | server/utils/images/optimizer.ts:141 | a markdown match starts with "![", and its path runs from the first "](" after it to the next ")" |
| Images.MarkdownOnOneLine | server/utils/images/optimizer.ts:141 | a markdown image reference never spans lines |
| Images.MarkdownGenuine | server/utils/images/optimizer.ts:141-148 | every match of the markdown loop is the markdown pattern's match at its start |
| Images.MarkdownPaths | server/utils/images/optimizer.ts:141-152 | markdown paths hold no ")" and no line terminator |
| Images.HtmlParts | server/utils/images/optimizer.ts:142 | an HTML match is "<img", text, `src="` or `src='`, the group, and a quote, with no quote inside the group |
| Images.HtmlShape | server/utils/images/optimizer.ts:142 | an HTML match starts with "<img", and its path runs from the first `src="` or `src='` to the next quote of either kind |
| Images.HtmlOnOneLine | server/utils/images/optimizer.ts:142 | an `<img` match never spans lines |
| Images.HtmlGenuine | server/utils/images/optimizer.ts:142-155 | every match of the HTML loop is the HTML pattern's match at its start |
| Images.HtmlPaths | server/utils/images/optimizer.ts:142-159 | HTML paths hold no quote of either kind and no line terminator |
| Images.GroupChars | server/utils/images/optimizer.ts:141-142 | a group that runs up to the first one-character closer holds no closer, and is followed by one |
| Images.AnyChar | server/utils/images/optimizer.ts:142 | a one-character literal occurs exactly where its character is |
| Images.MarkdownFinds | server/utils/images/optimizer.ts:141 | the markdown pattern matches a well-formed `![alt](path)` as a whole and captures exactly `path` |
| Images.ExtractOne | server/utils/images/optimizer.ts:140-162 | a text made of one `![alt](path)` with a local path and no "<" yields exactly `[path]` |
| Images.RefOpener | server/utils/images/optimizer.ts:141 | in `![alt](path)` the first "](" is the one after the alt text |
| Images.RefCloser | server/utils/images/optimizer.ts:141 | in `![alt](path)` the first ")" after the "](" is the last character |
| Images.RefNoImg | server/utils/images/optimizer.ts:142 | `![alt](path)` without "<" holds no "<img" |
| Images.SupportedOf | server/utils/images/optimizer.ts:79-83 | a file `stem.ext` is accepted exactly when ".ext", lower-cased, is one of .jpg .jpeg .png .webp .gif .avif |
| Images.SupportedAnyCase | server/utils/images/optimizer.ts:79-80 | the letter case of the extension does not matter |
| Images.LowerIdempotent | server/utils/images/optimizer.ts:79 | lower-casing twice is lower-casing once |
| Images.NoDotUnsupported | server/utils/images/optimizer.ts:79-83 | a path without "." is never accepted |
| Images.DotfileUnsupported | server/utils/images/optimizer.ts:79-83 | a dotfile such as `images/.png` is not accepted, since `path.extname` gives it no extension |
| Paths.ExtNameForm | server/utils/images/optimizer.ts:79 | an extension is "" or a "." followed by neither "." nor "/" |
| Paths.ExtNameOf | server/utils/images/optimizer.ts:79 | the extension of `dir/stem.ext` is ".ext" |
| Paths.NoDotNoExt | server/utils/images/optimizer.ts:79 | a path without "." has no extension |
| Paths.DotfileNoExt | server/utils/images/optimizer.ts:79 | a dotfile has no extension |
| Paths.ComponentNoSlash | server/utils/images/optimizer.ts:79 | the last path component holds no "/" |
| Paths.ComponentAfter | server/utils/images/optimizer.ts:79 | the last component of `dir/name` is `name` |
| Paths.FileName | server/utils/images/optimizer.ts:79 | in `stem.ext` the last "." is the one after the stem |
| Paths.Trimmed | server/utils/images/optimizer.ts:79 | trailing slashes are cut from a prefix, never more |
| Paths.TrimmedSpec | server/utils/images/optimizer.ts:79 | exactly the trailing slashes are cut |
| Paths.LastIndex | server/utils/images/optimizer.ts:79 | the last index of a character lies in range or is -1 |
| Paths.LastIndexSpec | server/utils/images/optimizer.ts:79 | the last index holds the character and none follows it |
| Paths.LastIndexIs | server/utils/images/optimizer.ts:79 | conversely, the position of the last occurrence is the last index |

Proof helpers without a row, because they only unfold a definition or
restate a step for other proofs: `Markdown.SlugifySteps`,
`Paths.ExtNameFrom`, `Content.TitleCaseCons`, `Content.ScanStep`,
`Routes.TallySnoc`, `Routes.AllTagsSnoc`, `Routes.TotalSame`,
`Routes.DistinctOnce`, `Routes.OnceDistinct`, `Images.KeptStep`,
`Images.RefIndices`, `Images.LiteralsOnOneLine`, `Images.NotAnyAt`, and the sequence lemmas of
`Seqs`.

## Left out

- YAML frontmatter parsing (gray-matter) and Markdown rendering (`marked`) are foreign libraries. They appear only as the `parse` function parameter, and the `excerpt` field `parseMarkdown` computes is not stored by the loader.
- File-system I/O (`readdir`, `stat`, `readFile`, `pathExists`, `ensureDir`) is replaced by the abstract tree, and `createSampleContent` by the listing it leaves. The order of a directory listing is taken as given by the tree.
- The clock is a parameter. Every article of one load gets the same `now`, whereas the source calls `new Date()` per file. `new Date(string)` parsing is not modelled: dates arrive as timestamps.
- Image processing (sharp, the md5 cache key, the cache lookup, `processMarkdownImages`, the Express middleware) is I/O around a library. Of `optimizeImage` only the supported-format check is modelled.
- Express routing, JSON serialisation and the generic 500 branches of the routes are not modelled. The methods of the store are `async` but never await, so they are modelled as synchronous.
- Case mapping covers ASCII letters only. `toLowerCase` and `toUpperCase` of other letters are left unchanged, whereas JavaScript maps them too. The white-space set of `trim` and `\s` is JavaScript's own.
- Storage.ArticlesOfCollection: when some articles of the collection have a sequence and some do not, the comparator is not a consistent order, and the engine's result order is not specified by the language. The model then promises only the filter and the multiset (`Storage.CollectionOrder` covers the two uniform cases).
- Routes.GetTags: sorts a value sequence with the stable `JsArrays.Sort`. The in-place `Array.prototype.sort` of the source and its aliasing are not modelled.
- Routes.TagList: is stated for the intended counting (`Routes.Tally`). The plain object as written differs for the tag names Object.prototype defines; see Findings. The sort of the as-written string counts (NaN comparisons) is not modelled.
- The schema declarations (drizzle, zod, `.unique()`) are not modelled; `MemStorage` does not enforce them. The client code under client/src is presentation and is not modelled.
- `createSampleContent`'s fixed sample files are not modelled, beyond the listing they leave.
- Frontmatter: the parse step is taken to return well-typed keys: `slug` and `title` strings, `date` and `updated` timestamps, `sequence` an integer, and `tags` a list of strings. The loader stores whatever the YAML holds. A string `tags: foo` would be stored as a string, matched by substring in `getArticlesByTag`, and would make `/api/tags` throw in `forEach` and answer 500. A numeric `slug` would become a number key that the string route parameter never reaches. A string `sequence` would make the comparator's subtraction NaN. None of these is modelled.

## Findings

| source | as written | input that shows it | evidently intended | confidence | as-written member | corrected member |
|---|---|---|---|---|---|---|
| server/routes.ts:94-98 | `tagCounts` is a plain object literal, so `tagCounts[tag] \|\| 0` reads names inherited from Object.prototype | an article tagged "constructor" gets the count "function Object() { [native code] }1" (a string), and a tag "__proto__" is dropped from the list | each tag counted as a number, 1 per occurrence | high; not executed | Routes.ConstructorMiscounted | Routes.TallySpec |
