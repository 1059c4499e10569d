/** The two pure pieces of the image optimizer
    (server/utils/images/optimizer.ts): `extractImagesFromMarkdown`, which
    scans markdown for `![alt](path)` and `<img ... src="path"` references
    with two global regular expressions, and the supported-format check. */
module Images {
  import opened Wrappers
  import opened Strings
  import opened Paths

  // ---------------------------------------------------------------------
  // Regular-expression matching

  /** The characters `.` does not match in a JavaScript regular expression. */
  predicate IsLineTerminator(c: char) {
    c == '\n' || c == '\r' || c == '\U{2028}' || c == '\U{2029}'
  }

  /** `t` is a run `.*` can match. */
  predicate OnOneLine(t: string) {
    forall i | 0 <= i < |t| :: !IsLineTerminator(t[i])
  }

  /** One of `pats` occurs in `s` at `i`. */
  predicate AnyAt(s: string, pats: seq<string>, i: nat) {
    exists k | 0 <= k < |pats| :: OccursAt(s, pats[k], i)
  }

  /** None of `pats` occurs where `AnyAt` fails. */
  lemma NotAnyAt(s: string, pats: seq<string>, i: nat, k: nat)
    requires !AnyAt(s, pats, i) && k < |pats|
    ensures !OccursAt(s, pats[k], i)
  {
  }

  /** `found` holds only where `w` more characters of a string of length
      `n` follow: it says where a literal of length `w` occurs. */
  ghost predicate Fits(n: nat, found: nat -> bool, w: nat) {
    forall i: nat | found(i) :: i + w <= n
  }

  /** Where one of `pats`, all of length `w`, occurs in `s`. */
  function Starts(s: string, pats: seq<string>, w: nat): (found: nat -> bool)
    requires forall k | 0 <= k < |pats| :: |pats[k]| == w
    ensures Fits(|s|, found, w)
  {
    (i: nat) => AnyAt(s, pats, i)
  }

  /** A lazy `.*?` started at `from` and followed by a literal of length
      `w` that occurs where `found` says: the first position where the
      continuation matches, as long as no line terminator has been
      crossed. */
  function Lazy(s: string, from: nat, found: nat -> bool, w: nat): (r: Option<nat>)
    requires from <= |s| && Fits(|s|, found, w)
    ensures r.Some? ==> from <= r.value && r.value + w <= |s| && found(r.value)
    decreases |s| - from
  {
    if found(from) then Some(from)
    else if from == |s| || IsLineTerminator(s[from]) then None
    else Lazy(s, from + 1, found, w)
  }

  /** `Lazy` stops at the first place the continuation can start on the
      current line, and finds nothing only when there is no such place. */
  lemma {:induction false} LazySpec(s: string, from: nat, found: nat -> bool, w: nat)
    requires from <= |s| && Fits(|s|, found, w)
    ensures var r := Lazy(s, from, found, w);
            && (r.Some? ==> OnOneLine(s[from..r.value]) && forall i | from <= i < r.value :: !found(i))
            && (r.None? ==> forall i | from <= i <= |s| && OnOneLine(s[from..i]) :: !found(i))
    decreases |s| - from
  {
    if !found(from) && from < |s| && !IsLineTerminator(s[from]) {
      LazySpec(s, from + 1, found, w);
      var r := Lazy(s, from, found, w);
      if r.Some? {
        assert s[from..r.value] == [s[from]] + s[from + 1..r.value];
      } else {
        forall i | from < i <= |s| && OnOneLine(s[from..i]) ensures !found(i) {
          assert s[from + 1..i] == s[from..i][1..];
        }
      }
    } else if !found(from) && from < |s| {
      forall i | from < i <= |s| ensures !OnOneLine(s[from..i]) {
        assert s[from..i][0] == s[from];
      }
    }
  }

  /** One match of a global regular expression: where it starts, where
      `lastIndex` moves to, and the captured group. */
  datatype Match = Match(start: nat, end: nat, group: string)

  datatype Syntax = Markdown | Html

  /** `](`: the end of the alt text and the start of the path. */
  const LinkOpeners: seq<string> := ["]("]
  const LinkClosers: seq<string> := [")"]
  /** `src=` and an opening quote of either kind. */
  const SrcOpeners: seq<string> := ["src=\"", "src='"]
  /** A closing quote of either kind (it need not match the opening one). */
  const Quotes: seq<string> := ["\"", "'"]

  /** The shape both regular expressions share, tried at `p`: the literal
      `lead`, a lazy `.*?`, a literal of length `w` where `opens` says, the
      group as a lazy `(.*?)`, and a one-character literal where `closes`
      says. The first place each continuation can start is taken; a later
      opener could not make a match that the first one misses, as the
      closer search from it would cover a subset of the same line. */
  function Pattern(s: string, p: nat, lead: string, opens: nat -> bool, w: nat, closes: nat -> bool): (r: Option<Match>)
    requires p <= |s| && Fits(|s|, opens, w) && Fits(|s|, closes, 1)
    ensures r.Some? ==> r.value.start == p && p < r.value.end <= |s|
  {
    if !OccursAt(s, lead, p) then None
    else
      match Lazy(s, p + |lead|, opens, w)
      case None => None
      case Some(j) =>
        match Lazy(s, j + w, closes, 1)
        case None => None
        case Some(e) => Some(Match(p, e + 1, s[j + w..e]))
  }

  /** `/!\[.*?\]\((.*?)\)/` tried at `p`: the group runs from the first `](`
      on the line to the next `)` on the line. */
  function MarkdownAt(s: string, p: nat): Option<Match>
    requires p <= |s|
  {
    Pattern(s, p, "![", Starts(s, LinkOpeners, 2), 2, Starts(s, LinkClosers, 1))
  }

  /** `/<img.*?src=["'](.*?)["']/` tried at `p`: the group runs from the
      first `src="` or `src='` on the line to the next quote of either kind
      on the line. */
  function HtmlAt(s: string, p: nat): Option<Match>
    requires p <= |s|
  {
    Pattern(s, p, "<img", Starts(s, SrcOpeners, 5), 5, Starts(s, Quotes, 1))
  }

  function MatchAt(s: string, syntax: Syntax, p: nat): (r: Option<Match>)
    requires p <= |s|
    ensures r.Some? ==> r.value.start == p && p < r.value.end <= |s|
  {
    match syntax
    case Markdown => MarkdownAt(s, p)
    case Html => HtmlAt(s, p)
  }

  /** A matcher for a string of length `n`: tried at `p`, it gives a
      non-empty match that starts at `p` and ends within the string. */
  ghost predicate Sound(n: nat, at: nat -> Option<Match>) {
    forall p: nat | p <= n :: at(p).Some? ==> at(p).value.start == p && p < at(p).value.end <= n
  }

  /** One of the two regular expressions, tried at each position of `s`. */
  function Matcher(s: string, syntax: Syntax): (at: nat -> Option<Match>)
    ensures Sound(|s|, at)
  {
    (p: nat) => if p <= |s| then MatchAt(s, syntax, p) else None
  }

  /** `regex.exec(s)` with `lastIndex == from`: the match at the first
      position from `from` on that has one. */
  function Exec(n: nat, at: nat -> Option<Match>, from: nat): (r: Option<Match>)
    requires from <= n && Sound(n, at)
    ensures r.Some? ==> from <= r.value.start && r.value.start < r.value.end <= n
    decreases n - from
  {
    if at(from).Some? then at(from)
    else if from == n then None
    else Exec(n, at, from + 1)
  }

  /** `exec` returns the leftmost match, and `null` only when no position
      from `from` on has one. */
  lemma {:induction false} ExecLeftmost(n: nat, at: nat -> Option<Match>, from: nat)
    requires from <= n && Sound(n, at)
    ensures var r := Exec(n, at, from);
            && (r.Some? ==> at(r.value.start) == r)
            && (r.Some? ==> forall p | from <= p < r.value.start :: at(p).None?)
            && (r.None? ==> forall p | from <= p <= n :: at(p).None?)
    decreases n - from
  {
    if at(from).None? && from < n {
      ExecLeftmost(n, at, from + 1);
    }
  }

  /** The successive matches of the `while ((match = regex.exec(s)) !== null)`
      loop, from `lastIndex == from` on. */
  function Matches(n: nat, at: nat -> Option<Match>, from: nat): (ms: seq<Match>)
    requires from <= n && Sound(n, at)
    ensures forall i | 0 <= i < |ms| :: from <= ms[i].start < ms[i].end <= n
    decreases n - from
  {
    match Exec(n, at, from)
    case None => []
    case Some(m) => [m] + Matches(n, at, m.end)
  }

  /** `match[1] && !match[1].startsWith('http')`. */
  predicate Wanted(path: string) {
    path != "" && !StartsWith(path, "http")
  }

  /** The groups of `ms` the loop pushes, in order. */
  function Kept(ms: seq<Match>): seq<string> {
    if ms == [] then []
    else (if Wanted(ms[0].group) then [ms[0].group] else []) + Kept(ms[1..])
  }

  /** The matches of one of the two regular expressions over `s`. */
  function AllMatches(s: string, syntax: Syntax): seq<Match> {
    Matches(|s|, Matcher(s, syntax), 0)
  }

  /** The result of `extractImagesFromMarkdown`. */
  function Extract(s: string): seq<string> {
    Kept(AllMatches(s, Markdown)) + Kept(AllMatches(s, Html))
  }

  /** One pass of the loop. */
  lemma KeptStep(n: nat, at: nat -> Option<Match>, from: nat)
    requires from <= n && Sound(n, at) && Exec(n, at, from).Some?
    ensures var m := Exec(n, at, from).value;
            Kept(Matches(n, at, from)) == (if Wanted(m.group) then [m.group] else []) + Kept(Matches(n, at, m.end))
  {
    var m := Exec(n, at, from).value;
    assert Matches(n, at, from) == [m] + Matches(n, at, m.end);
    assert ([m] + Matches(n, at, m.end))[1..] == Matches(n, at, m.end);
  }

  /** The `while ((match = regex.exec(content)) !== null)` loop, with the
      regular expression tried at a position given as `at`, appending the
      wanted groups to `images`. */
  method ScanWith(n: nat, at: nat -> Option<Match>, images0: seq<string>) returns (images: seq<string>)
    requires Sound(n, at)
    ensures images == images0 + Kept(Matches(n, at, 0))
  {
    images := images0;
    var lastIndex := 0;
    var m := Exec(n, at, lastIndex);
    while m.Some?
      invariant lastIndex <= n
      invariant m == Exec(n, at, lastIndex)
      invariant images + Kept(Matches(n, at, lastIndex)) == images0 + Kept(Matches(n, at, 0))
      decreases n - lastIndex
    {
      var path := m.value.group;
      KeptStep(n, at, lastIndex);
      ghost var rest := Kept(Matches(n, at, m.value.end));
      if path != "" && !StartsWith(path, "http") {
        assert (images + [path]) + rest == images + ([path] + rest);
        images := images + [path];
      } else {
        assert [] + rest == rest;
      }
      lastIndex := m.value.end;
      m := Exec(n, at, lastIndex);
    }
    assert Matches(n, at, lastIndex) == [];
  }

  /** The loop over one of the two regular expressions. */
  method CollectKept(content: string, syntax: Syntax, images0: seq<string>) returns (images: seq<string>)
    ensures images == images0 + Kept(AllMatches(content, syntax))
  {
    images := ScanWith(|content|, Matcher(content, syntax), images0);
  }

  /** `extractImagesFromMarkdown`: the markdown references, then the HTML
      ones. */
  method ExtractImages(content: string) returns (images: seq<string>)
    ensures images == Extract(content)
  {
    images := CollectKept(content, Markdown, []);
    images := CollectKept(content, Html, images);
  }

  // ---------------------------------------------------------------------
  // What the scan promises

  lemma {:induction false} KeptWanted(ms: seq<Match>)
    ensures forall p | p in Kept(ms) :: Wanted(p)
  {
    if ms != [] {
      KeptWanted(ms[1..]);
    }
  }

  /** Every path returned is non-empty and does not start with "http". */
  lemma ExtractWanted(s: string)
    ensures forall p | p in Extract(s) :: p != "" && !StartsWith(p, "http")
  {
    KeptWanted(AllMatches(s, Markdown));
    KeptWanted(AllMatches(s, Html));
  }

  /** Where the search for match `i` of `ms` started: `from`, or the end of
      the match before it. */
  function PrevEnd(ms: seq<Match>, from: nat, i: nat): nat
    requires i <= |ms|
  {
    if i == 0 then from else ms[i - 1].end
  }

  /** Every match of `ms` is the regular expression's match at its start. */
  ghost predicate Genuine(at: nat -> Option<Match>, ms: seq<Match>) {
    forall i | 0 <= i < |ms| :: at(ms[i].start) == Some(ms[i])
  }

  /** Each match of `ms` starts at or after the previous one's end (or
      `from`), and no position in between has a match. */
  ghost predicate NoneSkipped(at: nat -> Option<Match>, ms: seq<Match>, from: nat) {
    forall i | 0 <= i < |ms| :: PrevEnd(ms, from, i) <= ms[i].start &&
      forall p | PrevEnd(ms, from, i) <= p < ms[i].start :: at(p).None?
  }

  /** Each match the global loop sees is the regular expression's match at
      its start. */
  lemma {:induction false} MatchesGenuine(n: nat, at: nat -> Option<Match>, from: nat)
    requires from <= n && Sound(n, at)
    ensures Genuine(at, Matches(n, at, from))
    decreases n - from
  {
    ExecLeftmost(n, at, from);
    match Exec(n, at, from)
    case None =>
    case Some(m) =>
      MatchesGenuine(n, at, m.end);
      var ms := Matches(n, at, from);
      var rest := Matches(n, at, m.end);
      assert ms == [m] + rest;
      forall i | 0 < i < |ms| ensures at(ms[i].start) == Some(ms[i]) {
        assert ms[i] == rest[i - 1];
      }
  }

  /** The loop never skips a match: each one is the leftmost from where the
      previous one ended. */
  lemma {:induction false} MatchesNoneSkipped(n: nat, at: nat -> Option<Match>, from: nat)
    requires from <= n && Sound(n, at)
    ensures NoneSkipped(at, Matches(n, at, from), from)
    decreases n - from
  {
    ExecLeftmost(n, at, from);
    match Exec(n, at, from)
    case None =>
    case Some(m) =>
      MatchesNoneSkipped(n, at, m.end);
      var ms := Matches(n, at, from);
      var rest := Matches(n, at, m.end);
      assert ms == [m] + rest;
      forall i | 0 < i < |ms|
        ensures PrevEnd(ms, from, i) <= ms[i].start &&
          forall p | PrevEnd(ms, from, i) <= p < ms[i].start :: at(p).None?
      {
        assert ms[i] == rest[i - 1];
        assert PrevEnd(ms, from, i) == PrevEnd(rest, m.end, i - 1);
      }
  }

  /** After the last match (or from `from`, if there is none) no position
      has a match: the loop ends only when the string has no more. */
  lemma {:induction false} MatchesExhaustive(n: nat, at: nat -> Option<Match>, from: nat)
    requires from <= n && Sound(n, at)
    ensures forall p | PrevEnd(Matches(n, at, from), from, |Matches(n, at, from)|) <= p <= n :: at(p).None?
    decreases n - from
  {
    ExecLeftmost(n, at, from);
    match Exec(n, at, from)
    case None =>
    case Some(m) =>
      MatchesExhaustive(n, at, m.end);
      var ms := Matches(n, at, from);
      var rest := Matches(n, at, m.end);
      assert ms == [m] + rest;
      assert PrevEnd(ms, from, |ms|) == PrevEnd(rest, m.end, |rest|);
  }

  /** Consecutive matches do not overlap. */
  lemma MatchesDisjoint(n: nat, at: nat -> Option<Match>, from: nat)
    requires from <= n && Sound(n, at)
    ensures var ms := Matches(n, at, from);
            forall i, j | 0 <= i < j < |ms| :: ms[i].end <= ms[j].start
  {
    var ms := Matches(n, at, from);
    MatchesNoneSkipped(n, at, from);
    forall i, j | 0 <= i < j < |ms| ensures ms[i].end <= ms[j].start {
      assert forall k | 0 < k < |ms| :: ms[k - 1].end <= ms[k].start by {
        forall k | 0 < k < |ms| ensures ms[k - 1].end <= ms[k].start {
          assert PrevEnd(ms, from, k) <= ms[k].start;
        }
      }
      MatchesIncrease(ms, i, j);
    }
  }

  lemma {:induction false} MatchesIncrease(ms: seq<Match>, i: nat, j: nat)
    requires i < j < |ms|
    requires forall k | 0 <= k < |ms| :: ms[k].start < ms[k].end
    requires forall k | 0 < k < |ms| :: ms[k - 1].end <= ms[k].start
    ensures ms[i].end <= ms[j].start
    decreases j - i
  {
    if i + 1 < j {
      MatchesIncrease(ms, i + 1, j);
    }
  }

  // ---------------------------------------------------------------------
  // What each regular expression captures

  /** A match of `Pattern` starts with `lead`; its group follows the first
      opener after it and runs up to the first closer, which ends the
      match, and neither stretch crosses a line terminator. */
  lemma PatternShape(s: string, p: nat, lead: string, opens: nat -> bool, w: nat, closes: nat -> bool, m: Match)
    requires p <= |s| && Fits(|s|, opens, w) && Fits(|s|, closes, 1)
    requires Pattern(s, p, lead, opens, w, closes) == Some(m)
    ensures OccursAt(s, lead, p)
    ensures p + |lead| + w + |m.group| + 1 <= m.end
    ensures opens(m.end - 1 - |m.group| - w)
    ensures forall i | p + |lead| <= i < m.end - 1 - |m.group| - w :: !opens(i)
    ensures m.group == s[m.end - 1 - |m.group|..m.end - 1]
    ensures closes(m.end - 1)
    ensures forall i | m.end - 1 - |m.group| <= i < m.end - 1 :: !closes(i)
    ensures OnOneLine(s[p + |lead|..m.end - 1 - |m.group| - w]) && OnOneLine(m.group)
  {
    var j := Lazy(s, p + |lead|, opens, w).value;
    LazySpec(s, p + |lead|, opens, w);
    LazySpec(s, j + w, closes, 1);
  }

  /** A match of `Pattern` lies on one line when the literals it matched
      do. */
  lemma PatternOnOneLine(s: string, p: nat, lead: string, opens: nat -> bool, w: nat, closes: nat -> bool, m: Match)
    requires p <= |s| && Fits(|s|, opens, w) && Fits(|s|, closes, 1)
    requires Pattern(s, p, lead, opens, w, closes) == Some(m)
    requires OnOneLine(lead)
    requires p + |lead| + w + |m.group| + 1 <= m.end
    requires OnOneLine(s[m.end - 1 - |m.group| - w..m.end - 1 - |m.group|])
    requires !IsLineTerminator(s[m.end - 1])
    ensures OnOneLine(s[p..m.end])
  {
    var a, e := p + |lead|, m.end - 1;
    var k := e - |m.group|;
    var j := k - w;
    PatternLines(s, p, lead, opens, w, closes, m, a, j, k, e);
    PiecesOnOneLine(s, p, a, j, k, e);
  }

  /** The runs of a match of `Pattern` that `PatternShape` puts on one
      line, at named positions. */
  lemma PatternLines(s: string, p: nat, lead: string, opens: nat -> bool, w: nat, closes: nat -> bool, m: Match,
                     a: nat, j: nat, k: nat, e: nat)
    requires p <= |s| && Fits(|s|, opens, w) && Fits(|s|, closes, 1)
    requires Pattern(s, p, lead, opens, w, closes) == Some(m)
    requires OnOneLine(lead)
    requires a == p + |lead| && e == m.end - 1 && k == e - |m.group| && j == k - w
    ensures p <= a <= j <= k <= e < |s|
    ensures OnOneLine(s[p..a]) && OnOneLine(s[a..j]) && OnOneLine(s[k..e])
  {
    PatternShape(s, p, lead, opens, w, closes, m);
    assert s[p..a] == lead;
    assert s[k..e] == m.group;
  }

  /** Five adjacent runs `s[p..a]`, `s[a..j]`, `s[j..k]`, `s[k..e]` and
      `s[e]`, each on one line, make one run on one line. */
  lemma PiecesOnOneLine(s: string, p: nat, a: nat, j: nat, k: nat, e: nat)
    requires p <= a <= j <= k <= e < |s|
    requires OnOneLine(s[p..a]) && OnOneLine(s[a..j]) && OnOneLine(s[j..k])
    requires OnOneLine(s[k..e]) && !IsLineTerminator(s[e])
    ensures OnOneLine(s[p..e + 1])
  {
    assert s[e..e + 1] == [s[e]];
    OnOneLineJoin(s, p, a, j);
    OnOneLineJoin(s, p, j, k);
    OnOneLineJoin(s, p, k, e);
    OnOneLineJoin(s, p, e, e + 1);
  }

  /** Two adjacent runs on one line make one run on one line. */
  lemma OnOneLineJoin(s: string, a: nat, b: nat, c: nat)
    requires a <= b <= c <= |s|
    requires OnOneLine(s[a..b]) && OnOneLine(s[b..c])
    ensures OnOneLine(s[a..c])
  {
    forall i | 0 <= i < c - a ensures !IsLineTerminator(s[a..c][i]) {
      if i < b - a {
        assert s[a..c][i] == s[a..b][i];
      } else {
        assert s[a..c][i] == s[b..c][i - (b - a)];
      }
    }
  }

  /** A one-character literal among `pats` occurs exactly where its
      character is. */
  lemma AnyChar(s: string, pats: seq<string>, i: nat)
    requires forall k | 0 <= k < |pats| :: |pats[k]| == 1
    ensures AnyAt(s, pats, i) <==> i < |s| && exists k | 0 <= k < |pats| :: s[i] == pats[k][0]
  {
    if i < |s| {
      forall k | 0 <= k < |pats| ensures OccursAt(s, pats[k], i) <==> s[i] == pats[k][0] {
        assert s[i..i + 1] == [s[i]];
      }
    }
  }

  /** A group that runs up to the first of the one-character literals
      `pats`: the character after it is one of them, and none is inside. */
  lemma GroupChars(s: string, pats: seq<string>, m: Match)
    requires forall k | 0 <= k < |pats| :: |pats[k]| == 1
    requires |m.group| + 1 <= m.end <= |s| && m.group == s[m.end - 1 - |m.group|..m.end - 1]
    requires AnyAt(s, pats, m.end - 1)
    requires forall i | m.end - 1 - |m.group| <= i < m.end - 1 :: !AnyAt(s, pats, i)
    ensures exists k | 0 <= k < |pats| :: s[m.end - 1] == pats[k][0]
    ensures forall i, k | 0 <= i < |m.group| && 0 <= k < |pats| :: m.group[i] != pats[k][0]
  {
    var e := m.end - 1;
    var k0 :| 0 <= k0 < |pats| && OccursAt(s, pats[k0], e);
    assert s[e] == s[e..e + 1][0];
    forall i, k | 0 <= i < |m.group| && 0 <= k < |pats| ensures m.group[i] != pats[k][0] {
      var x := e - |m.group| + i;
      assert !AnyAt(s, pats, x);
      assert !OccursAt(s, pats[k], x);
      assert s[x..x + 1] == [s[x]];
      assert m.group[i] == s[x];
    }
  }

  /** What a markdown match consists of, in terms of the literal patterns. */
  lemma MarkdownParts(s: string, p: nat, m: Match)
    requires p <= |s| && MarkdownAt(s, p) == Some(m)
    ensures OccursAt(s, "![", p)
    ensures p + 5 + |m.group| <= m.end
    ensures AnyAt(s, LinkOpeners, m.end - |m.group| - 3)
    ensures forall i | p + 2 <= i < m.end - |m.group| - 3 :: !AnyAt(s, LinkOpeners, i)
    ensures m.group == s[m.end - 1 - |m.group|..m.end - 1]
    ensures AnyAt(s, LinkClosers, m.end - 1)
    ensures forall i | m.end - 1 - |m.group| <= i < m.end - 1 :: !AnyAt(s, LinkClosers, i)
    ensures OnOneLine(m.group)
  {
    var closes := Starts(s, LinkClosers, 1);
    var opens := Starts(s, LinkOpeners, 2);
    PatternShape(s, p, "![", opens, 2, closes, m);
    forall i | p + 2 <= i < m.end - |m.group| - 3 ensures !AnyAt(s, LinkOpeners, i) {
      assert !opens(i);
    }
    forall i | m.end - 1 - |m.group| <= i < m.end - 1 ensures !AnyAt(s, LinkClosers, i) {
      assert !closes(i);
    }
  }

  /** A markdown match starts with `![`, and the path it captures is the
      text between the first `](` after it and the next `)`, so it holds no
      `)`. */
  lemma MarkdownShape(s: string, p: nat, m: Match)
    requires p <= |s| && MarkdownAt(s, p) == Some(m)
    ensures OccursAt(s, "![", p)
    ensures p + 5 + |m.group| <= m.end
    ensures OccursAt(s, "](", m.end - |m.group| - 3)
    ensures forall i | p + 2 <= i < m.end - |m.group| - 3 :: !OccursAt(s, "](", i)
    ensures m.group == s[m.end - 1 - |m.group|..m.end - 1]
    ensures s[m.end - 1] == ')'
    ensures forall i | 0 <= i < |m.group| :: m.group[i] != ')'
    ensures OnOneLine(m.group)
  {
    MarkdownParts(s, p, m);
    GroupChars(s, LinkClosers, m);
    assert LinkClosers[0][0] == ')';
    forall i | p + 2 <= i < m.end - |m.group| - 3 ensures !OccursAt(s, "](", i) {
      assert !AnyAt(s, LinkOpeners, i);
      NotAnyAt(s, LinkOpeners, i, 0);
    }
  }

  /** A markdown image reference never spans lines. */
  lemma MarkdownOnOneLine(s: string, p: nat, m: Match)
    requires p <= |s| && MarkdownAt(s, p) == Some(m)
    ensures OnOneLine(s[p..m.end])
  {
    MarkdownShape(s, p, m);
    var j := m.end - |m.group| - 3;
    assert s[j..j + 2] == "](";
    LiteralsOnOneLine();
    PatternOnOneLine(s, p, "![", Starts(s, LinkOpeners, 2), 2, Starts(s, LinkClosers, 1), m);
  }

  /** What an HTML match consists of, in terms of the literal patterns. */
  lemma HtmlParts(s: string, p: nat, m: Match)
    requires p <= |s| && HtmlAt(s, p) == Some(m)
    ensures OccursAt(s, "<img", p)
    ensures p + 10 + |m.group| <= m.end
    ensures AnyAt(s, SrcOpeners, m.end - |m.group| - 6)
    ensures forall i | p + 4 <= i < m.end - |m.group| - 6 :: !AnyAt(s, SrcOpeners, i)
    ensures m.group == s[m.end - 1 - |m.group|..m.end - 1]
    ensures AnyAt(s, Quotes, m.end - 1)
    ensures forall i | m.end - 1 - |m.group| <= i < m.end - 1 :: !AnyAt(s, Quotes, i)
    ensures OnOneLine(m.group)
  {
    var closes := Starts(s, Quotes, 1);
    var opens := Starts(s, SrcOpeners, 5);
    PatternShape(s, p, "<img", opens, 5, closes, m);
    forall i | p + 4 <= i < m.end - |m.group| - 6 ensures !AnyAt(s, SrcOpeners, i) {
      assert !opens(i);
    }
    forall i | m.end - 1 - |m.group| <= i < m.end - 1 ensures !AnyAt(s, Quotes, i) {
      assert !closes(i);
    }
  }

  /** An HTML match starts with `<img`, and the path it captures is the
      text between the first `src="` or `src='` after it and the next quote
      of either kind, so it holds no quote. */
  lemma HtmlShape(s: string, p: nat, m: Match)
    requires p <= |s| && HtmlAt(s, p) == Some(m)
    ensures OccursAt(s, "<img", p)
    ensures p + 10 + |m.group| <= m.end
    ensures OccursAt(s, "src=\"", m.end - |m.group| - 6) || OccursAt(s, "src='", m.end - |m.group| - 6)
    ensures forall i | p + 4 <= i < m.end - |m.group| - 6 :: !OccursAt(s, "src=\"", i) && !OccursAt(s, "src='", i)
    ensures m.group == s[m.end - 1 - |m.group|..m.end - 1]
    ensures s[m.end - 1] == '"' || s[m.end - 1] == '\''
    ensures forall i | 0 <= i < |m.group| :: m.group[i] != '"' && m.group[i] != '\''
    ensures OnOneLine(m.group)
  {
    HtmlParts(s, p, m);
    GroupChars(s, Quotes, m);
    assert Quotes[0][0] == '"' && Quotes[1][0] == '\'';
    forall i | p + 4 <= i < m.end - |m.group| - 6 ensures !OccursAt(s, "src=\"", i) && !OccursAt(s, "src='", i) {
      assert !AnyAt(s, SrcOpeners, i);
      NotAnyAt(s, SrcOpeners, i, 0);
      NotAnyAt(s, SrcOpeners, i, 1);
    }
  }

  /** The literal parts of the two patterns hold no line terminator. */
  lemma LiteralsOnOneLine()
    ensures OnOneLine("![") && OnOneLine("](")
    ensures OnOneLine("<img") && OnOneLine("src=\"") && OnOneLine("src='")
  {
  }

  /** An HTML image tag's matched prefix never spans lines. */
  lemma HtmlOnOneLine(s: string, p: nat, m: Match)
    requires p <= |s| && HtmlAt(s, p) == Some(m)
    ensures OnOneLine(s[p..m.end])
  {
    HtmlShape(s, p, m);
    var j := m.end - |m.group| - 6;
    var opener := s[j..j + 5];
    assert opener == "src=\"" || opener == "src='";
    LiteralsOnOneLine();
    PatternOnOneLine(s, p, "<img", Starts(s, SrcOpeners, 5), 5, Starts(s, Quotes, 1), m);
  }

  // ---------------------------------------------------------------------
  // What the extracted paths look like

  lemma {:induction false} KeptFrom(ms: seq<Match>)
    ensures forall path | path in Kept(ms) :: exists m | m in ms :: m.group == path
  {
    if ms != [] {
      KeptFrom(ms[1..]);
    }
  }

  /** Every match the markdown loop sees is the markdown pattern's match at
      its start. */
  lemma MarkdownGenuine(s: string, m: Match)
    requires m in AllMatches(s, Markdown)
    ensures m.start <= |s| && MarkdownAt(s, m.start) == Some(m)
  {
    var at := Matcher(s, Markdown);
    MatchesGenuine(|s|, at, 0);
    var i :| 0 <= i < |AllMatches(s, Markdown)| && AllMatches(s, Markdown)[i] == m;
    assert at(m.start) == Some(m);
  }

  lemma HtmlGenuine(s: string, m: Match)
    requires m in AllMatches(s, Html)
    ensures m.start <= |s| && HtmlAt(s, m.start) == Some(m)
  {
    var at := Matcher(s, Html);
    MatchesGenuine(|s|, at, 0);
    var i :| 0 <= i < |AllMatches(s, Html)| && AllMatches(s, Html)[i] == m;
    assert at(m.start) == Some(m);
  }

  /** The paths taken from markdown references hold no `)` and no line
      terminator. */
  lemma MarkdownPaths(s: string)
    ensures forall path | path in Kept(AllMatches(s, Markdown)) ::
      OnOneLine(path) && forall i | 0 <= i < |path| :: path[i] != ')'
  {
    KeptFrom(AllMatches(s, Markdown));
    forall path | path in Kept(AllMatches(s, Markdown))
      ensures OnOneLine(path) && forall i | 0 <= i < |path| :: path[i] != ')'
    {
      var m :| m in AllMatches(s, Markdown) && m.group == path;
      MarkdownGenuine(s, m);
      MarkdownShape(s, m.start, m);
    }
  }

  /** The paths taken from `<img>` tags hold no quote and no line
      terminator. */
  lemma HtmlPaths(s: string)
    ensures forall path | path in Kept(AllMatches(s, Html)) ::
      OnOneLine(path) && forall i | 0 <= i < |path| :: path[i] != '"' && path[i] != '\''
  {
    KeptFrom(AllMatches(s, Html));
    forall path | path in Kept(AllMatches(s, Html))
      ensures OnOneLine(path) && forall i | 0 <= i < |path| :: path[i] != '"' && path[i] != '\''
    {
      var m :| m in AllMatches(s, Html) && m.group == path;
      HtmlGenuine(s, m);
      HtmlShape(s, m.start, m);
    }
  }

  /** A loop whose regular expression matches nowhere collects nothing. */
  lemma MatchesNone(n: nat, at: nat -> Option<Match>, from: nat)
    requires from <= n && Sound(n, at)
    requires forall p: nat | from <= p <= n :: at(p).None?
    ensures Matches(n, at, from) == []
  {
    ExecLeftmost(n, at, from);
  }

  /** Text with no `![` and no `<img` yields no image. */
  lemma NoOpeners(s: string)
    requires forall p | 0 <= p <= |s| :: !OccursAt(s, "![", p) && !OccursAt(s, "<img", p)
    ensures Extract(s) == []
  {
    MatchesNone(|s|, Matcher(s, Markdown), 0);
    MatchesNone(|s|, Matcher(s, Html), 0);
  }

  // ---------------------------------------------------------------------
  // A well-formed reference is found

  /** `Lazy` finds the first place the continuation starts, when it is on
      the current line. */
  lemma {:induction false} LazyFinds(s: string, from: nat, found: nat -> bool, w: nat, r: nat)
    requires from <= r <= |s| && Fits(|s|, found, w)
    requires found(r) && OnOneLine(s[from..r])
    requires forall i | from <= i < r :: !found(i)
    ensures Lazy(s, from, found, w) == Some(r)
    decreases r - from
  {
    if from < r {
      assert s[from] == s[from..r][0];
      assert s[from + 1..r] == s[from..r][1..];
      LazyFinds(s, from + 1, found, w, r);
    }
  }

  /** The markdown image reference `![alt](path)`. */
  function MarkdownRef(alt: string, path: string): string {
    "![" + alt + "](" + path + ")"
  }

  lemma RefIndices(alt: string, path: string)
    ensures var s := MarkdownRef(alt, path);
            && |s| == |alt| + |path| + 5
            && s[0] == '!' && s[1] == '[' && s[|alt| + 2] == ']' && s[|alt| + 3] == '('
            && s[|s| - 1] == ')'
            && s[2..|alt| + 2] == alt
            && s[|alt| + 4..|s| - 1] == path
  {
  }

  /** `alt` and `path` are text the reference can hold: no `]` in the alt
      text, no `)` in the path, and neither spans lines. */
  predicate RefParts(alt: string, path: string) {
    && OnOneLine(alt) && OnOneLine(path)
    && (forall i | 0 <= i < |alt| :: alt[i] != ']')
    && (forall i | 0 <= i < |path| :: path[i] != ')')
  }

  /** In `![alt](path)` the first `](` is the one after the alt text. */
  lemma RefOpener(alt: string, path: string)
    requires RefParts(alt, path)
    ensures var s := MarkdownRef(alt, path);
            Lazy(s, 2, Starts(s, LinkOpeners, 2), 2) == Some(|alt| + 2)
  {
    var s := MarkdownRef(alt, path);
    RefIndices(alt, path);
    var a := |alt|;
    var opens := Starts(s, LinkOpeners, 2);
    forall i | 2 <= i < a + 2 ensures !opens(i) {
      assert s[i..i + 2][0] == alt[i - 2] != LinkOpeners[0][0];
    }
    assert s[a + 2..a + 4] == LinkOpeners[0];
    assert opens(a + 2);
    LazyFinds(s, 2, opens, 2, a + 2);
  }

  /** In `![alt](path)` the first `)` after the `](` is the last character. */
  lemma RefCloser(alt: string, path: string)
    requires RefParts(alt, path)
    ensures var s := MarkdownRef(alt, path);
            Lazy(s, |alt| + 4, Starts(s, LinkClosers, 1), 1) == Some(|s| - 1)
  {
    var s := MarkdownRef(alt, path);
    RefIndices(alt, path);
    var a := |alt|;
    var e := |s| - 1;
    var closes := Starts(s, LinkClosers, 1);
    assert LinkClosers[0][0] == ')';
    forall i | a + 4 <= i < e ensures !closes(i) {
      AnyChar(s, LinkClosers, i);
      assert s[i] == path[i - a - 4];
    }
    AnyChar(s, LinkClosers, e);
    assert closes(e);
    LazyFinds(s, a + 4, closes, 1, e);
  }

  /** The markdown pattern matches a well-formed `![alt](path)` as a whole
      and captures exactly `path`. */
  lemma MarkdownFinds(alt: string, path: string)
    requires RefParts(alt, path)
    ensures MarkdownAt(MarkdownRef(alt, path), 0) == Some(Match(0, |MarkdownRef(alt, path)|, path))
  {
    var s := MarkdownRef(alt, path);
    RefIndices(alt, path);
    assert s[0..2] == "![";
    RefOpener(alt, path);
    RefCloser(alt, path);
  }

  /** `![alt](path)` holds no `<` when neither part does, so no `<img`. */
  lemma RefNoImg(alt: string, path: string)
    requires forall i | 0 <= i < |alt| :: alt[i] != '<'
    requires forall i | 0 <= i < |path| :: path[i] != '<'
    ensures forall p | 0 <= p <= |MarkdownRef(alt, path)| :: !OccursAt(MarkdownRef(alt, path), "<img", p)
  {
    var s := MarkdownRef(alt, path);
    RefIndices(alt, path);
    var a := |alt|;
    forall p | 0 <= p < |s| ensures s[p] != '<' {
      if 2 <= p < a + 2 {
        assert s[p] == s[2..a + 2][p - 2];
      } else if a + 4 <= p < |s| - 1 {
        assert s[p] == s[a + 4..|s| - 1][p - a - 4];
      }
    }
    forall p | 0 <= p <= |s| ensures !OccursAt(s, "<img", p) {
      if p + 4 <= |s| {
        assert s[p..p + 4][0] == s[p];
      }
    }
  }

  /** A text made of one markdown image reference, whose path is local and
      which holds no `<`, yields exactly that path. */
  lemma ExtractOne(alt: string, path: string)
    requires RefParts(alt, path) && Wanted(path)
    requires forall i | 0 <= i < |alt| :: alt[i] != '<'
    requires forall i | 0 <= i < |path| :: path[i] != '<'
    ensures Extract(MarkdownRef(alt, path)) == [path]
  {
    var s := MarkdownRef(alt, path);
    var n := |s|;
    var md, html := Matcher(s, Markdown), Matcher(s, Html);
    var m := Match(0, n, path);
    MarkdownFinds(alt, path);
    assert md(0) == Some(m);
    assert Exec(n, md, 0) == Some(m);
    assert !OccursAt(s, "![", n);
    assert md(n).None?;
    assert Matches(n, md, n) == [];
    assert AllMatches(s, Markdown) == [m];
    assert Kept([m]) == [path];
    RefNoImg(alt, path);
    MatchesNone(n, html, 0);
  }

  // ---------------------------------------------------------------------
  // Supported formats

  /** `SUPPORTED_FORMATS`. */
  const SupportedFormats: seq<string> := [".jpg", ".jpeg", ".png", ".webp", ".gif", ".avif"]

  /** `SUPPORTED_FORMATS.includes(path.extname(imagePath).toLowerCase())`:
      `optimizeImage` gives up on any other image. */
  predicate IsSupported(imagePath: string) {
    ToLower(ExtName(imagePath)) in SupportedFormats
  }

  /** A file `stem.ext` is supported exactly when `.ext`, in lower case, is
      one of the formats. */
  lemma SupportedOf(dir: string, stem: string, ext: string)
    requires dir == [] || dir[|dir| - 1] == '/'
    requires stem != [] && !(stem == "." && ext == [])
    requires forall i | 0 <= i < |stem| :: stem[i] != '/'
    requires forall i | 0 <= i < |ext| :: ext[i] != '/' && ext[i] != '.'
    ensures IsSupported(dir + stem + "." + ext) <==> ToLower("." + ext) in SupportedFormats
  {
    ExtNameOf(dir, stem, ext);
  }

  /** The letter case of the extension does not matter. */
  lemma SupportedAnyCase(dir: string, stem: string, ext: string)
    requires dir == [] || dir[|dir| - 1] == '/'
    requires stem != [] && !(stem == "." && ext == [])
    requires forall i | 0 <= i < |stem| :: stem[i] != '/'
    requires forall i | 0 <= i < |ext| :: ext[i] != '/' && ext[i] != '.'
    ensures IsSupported(dir + stem + "." + ext) <==> IsSupported(dir + stem + "." + ToLower(ext))
  {
    var low := ToLower(ext);
    forall i | 0 <= i < |low| ensures low[i] != '/' && low[i] != '.' {
      assert low[i] == LowerChar(ext[i]);
    }
    SupportedOf(dir, stem, ext);
    SupportedOf(dir, stem, low);
    LowerIdempotent(ext);
  }

  /** Lower-casing `"." + ext` twice is lower-casing it once. */
  lemma LowerIdempotent(ext: string)
    ensures ToLower("." + ToLower(ext)) == ToLower("." + ext)
  {
    var a, b := ToLower("." + ToLower(ext)), ToLower("." + ext);
    forall i | 0 < i < |a| ensures a[i] == b[i] {
      assert ("." + ToLower(ext))[i] == LowerChar(ext[i - 1]);
      assert ("." + ext)[i] == ext[i - 1];
    }
  }

  /** A path with no `.` at all is never supported. */
  lemma NoDotUnsupported(imagePath: string)
    requires forall i | 0 <= i < |imagePath| :: imagePath[i] != '.'
    ensures !IsSupported(imagePath)
  {
    NoDotNoExt(imagePath);
    assert ToLower("") == "";
  }

  /** A dotfile such as `images/.png` is not supported: `path.extname`
      gives it no extension. */
  lemma DotfileUnsupported(dir: string, name: string)
    requires dir == [] || dir[|dir| - 1] == '/'
    requires forall i | 0 <= i < |name| :: name[i] != '/' && name[i] != '.'
    ensures !IsSupported(dir + "." + name)
  {
    DotfileNoExt(dir, name);
    assert ToLower("") == "";
  }
}
