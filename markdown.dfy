/** The slug normaliser and the excerpt rule of the Markdown helper
    (server/utils/markdown.ts). Both are pure string functions. */
module Markdown {
  import opened Strings
  import opened JsArrays
  import opened Seqs

  /** The characters JavaScript's `\s` class and `String.prototype.trim`
      treat as white space (WhiteSpace and LineTerminator). */
  predicate IsSpace(c: char) {
    || c == '\t' || c == '\n' || c == '\U{000B}' || c == '\U{000C}' || c == '\r' || c == ' '
    || c == '\U{00A0}' || c == '\U{1680}' || ('\U{2000}' <= c <= '\U{200A}')
    || c == '\U{2028}' || c == '\U{2029}' || c == '\U{202F}' || c == '\U{205F}'
    || c == '\U{3000}' || c == '\U{FEFF}'
  }

  predicate IsHyphen(c: char) { c == '-' }

  predicate IsDigit(c: char) { '0' <= c <= '9' }

  /** `[\w\-]`: an ASCII letter, digit, underscore or hyphen. */
  predicate IsWordOrHyphen(c: char) {
    IsAsciiUpper(c) || IsAsciiLower(c) || IsDigit(c) || c == '_' || c == '-'
  }

  /** What may appear in a slug: `[a-z0-9_-]`. */
  predicate IsSlugChar(c: char) {
    IsAsciiLower(c) || IsDigit(c) || c == '_' || c == '-'
  }

  /** A slug: slug characters only, and never two hyphens in a row. */
  predicate IsSlug(s: string) {
    && (forall i | 0 <= i < |s| :: IsSlugChar(s[i]))
    && (forall i | 0 <= i < |s| - 1 :: !(s[i] == '-' && s[i + 1] == '-'))
  }

  /** `s` without its leading characters in the class `inRun`. */
  function SkipRun(s: string, inRun: char -> bool): (r: string)
    ensures |r| <= |s|
  {
    if s == [] || !inRun(s[0]) then s else SkipRun(s[1..], inRun)
  }

  /** What `SkipRun` removes is exactly the leading run of the class. */
  lemma {:induction false} SkipRunSpec(s: string, inRun: char -> bool)
    ensures var r := SkipRun(s, inRun);
            && r == s[|s| - |r|..]
            && (r == [] || !inRun(r[0]))
            && forall i | 0 <= i < |s| - |r| :: inRun(s[i])
  {
    if s != [] && inRun(s[0]) {
      SkipRunSpec(s[1..], inRun);
    }
  }

  /** `s` without its trailing white space. */
  function TrimEnd(s: string): string {
    if s == [] || !IsSpace(s[|s| - 1]) then s else TrimEnd(s[..|s| - 1])
  }

  lemma {:induction false} TrimEndSpec(s: string)
    ensures var r := TrimEnd(s);
            && |r| <= |s| && r == s[..|r|]
            && (r == [] || !IsSpace(r[|r| - 1]))
            && forall i | |r| <= i < |s| :: IsSpace(s[i])
  {
    if s != [] && IsSpace(s[|s| - 1]) {
      TrimEndSpec(s[..|s| - 1]);
    }
  }

  /** `String.prototype.trim`. */
  function Trim(s: string): string {
    TrimEnd(SkipRun(s, IsSpace))
  }

  /** Trimming removes exactly the white space at both ends: the result is
      the slice of `s` between a leading and a trailing white-space run, and
      it neither starts nor ends with white space. */
  lemma TrimSpec(s: string)
    ensures var r := Trim(s);
            var k := |s| - |SkipRun(s, IsSpace)|;
            && 0 <= k && k + |r| <= |s| && r == s[k..k + |r|]
            && (forall i | 0 <= i < k :: IsSpace(s[i]))
            && (forall i | k + |r| <= i < |s| :: IsSpace(s[i]))
            && (r == [] || (!IsSpace(r[0]) && !IsSpace(r[|r| - 1])))
  {
    var t := SkipRun(s, IsSpace);
    SkipRunSpec(s, IsSpace);
    TrimEndSpec(t);
    var r := TrimEnd(t);
    var k := |s| - |t|;
    assert t == s[k..];
    assert r == t[..|r|];
    assert r == s[k..k + |r|];
    forall i | k + |r| <= i < |s| ensures IsSpace(s[i]) {
      assert s[i] == t[i - k];
    }
    if r != [] {
      assert r[0] == t[0];
    }
  }

  /** Trimming only removes characters. */
  lemma TrimChars(s: string)
    ensures forall c | c in Trim(s) :: c in s
  {
    TrimSpec(s);
    var r := Trim(s);
    var k := |s| - |SkipRun(s, IsSpace)|;
    forall c | c in r ensures c in s {
      var i :| 0 <= i < |r| && r[i] == c;
      assert s[k + i] == c;
    }
  }

  /** `s.replace(/R+/g, '-')` where `R` is the character class `inRun`:
      every maximal run of characters of the class becomes one hyphen. */
  function SquashRuns(s: string, inRun: char -> bool): string
    decreases |s|
  {
    if s == [] then []
    else if inRun(s[0]) then "-" + SquashRuns(SkipRun(s[1..], inRun), inRun)
    else [s[0]] + SquashRuns(s[1..], inRun)
  }

  /** Squashing produces hyphens and characters of `s` outside the class. */
  lemma {:induction false} SquashRunsChars(s: string, inRun: char -> bool)
    ensures forall c | c in SquashRuns(s, inRun) :: c == '-' || (c in s && !inRun(c))
    decreases |s|
  {
    if s != [] {
      if inRun(s[0]) {
        var rest := SkipRun(s[1..], inRun);
        SquashRunsChars(rest, inRun);
        SkipRunSpec(s[1..], inRun);
        assert forall c | c in rest :: c in s[1..];
      } else {
        SquashRunsChars(s[1..], inRun);
      }
    }
  }

  /** `s.replace(/&/g, '-and-')`. */
  function ExpandAmpersands(s: string): string {
    if s == [] then []
    else (if s[0] == '&' then "-and-" else [s[0]]) + ExpandAmpersands(s[1..])
  }

  /** Expanding produces the letters of "-and-" and characters of `s` other
      than `&`. */
  lemma {:induction false} ExpandAmpersandsChars(s: string)
    ensures forall c | c in ExpandAmpersands(s) :: c in "-and-" || (c in s && c != '&')
  {
    if s != [] {
      ExpandAmpersandsChars(s[1..]);
    }
  }

  /** `slugify(text)`: lower-case, trim, each white-space run to a hyphen,
      `&` to `-and-`, drop everything outside `[A-Za-z0-9_-]`, and each
      hyphen run to one hyphen. Leading and trailing hyphens stay. */
  function Slugify(text: string): string {
    var lowered := Trim(ToLower(text));
    var hyphenated := ExpandAmpersands(SquashRuns(lowered, IsSpace));
    SquashRuns(Filter(hyphenated, IsWordOrHyphen), IsHyphen)
  }

  /** No character of the class `inRun` directly follows another. */
  predicate RunsSeparated(r: string, inRun: char -> bool) {
    forall i | 0 <= i < |r| - 1 :: inRun(r[i]) ==> !inRun(r[i + 1])
  }

  /** A squashed run's hyphen is never followed by a character of the
      class. */
  lemma {:induction false} SquashRunsSeparated(s: string, inRun: char -> bool)
    requires inRun('-')
    ensures RunsSeparated(SquashRuns(s, inRun), inRun)
    decreases |s|
  {
    var r := SquashRuns(s, inRun);
    if s != [] {
      var t;
      if inRun(s[0]) {
        var rest := SkipRun(s[1..], inRun);
        SkipRunSpec(s[1..], inRun);
        SquashRunsSeparated(rest, inRun);
        if rest != [] {
          SquashRunsFirst(rest, inRun);
        }
        t := SquashRuns(rest, inRun);
        assert r == "-" + t;
        assert t != [] ==> !inRun(t[0]);
      } else {
        SquashRunsSeparated(s[1..], inRun);
        t := SquashRuns(s[1..], inRun);
        assert r == [s[0]] + t;
      }
      assert RunsSeparated(t, inRun);
      forall i | 0 <= i < |r| - 1 ensures inRun(r[i]) ==> !inRun(r[i + 1]) {
        assert r[i + 1] == t[i];
        if i > 0 {
          assert r[i] == t[i - 1];
        }
      }
    }
  }

  lemma SquashRunsFirst(s: string, inRun: char -> bool)
    requires s != [] && !inRun(s[0])
    ensures SquashRuns(s, inRun) != [] && SquashRuns(s, inRun)[0] == s[0]
  {
  }

  lemma LowerHasNoUpper(text: string)
    ensures forall c | c in ToLower(text) :: !IsAsciiUpper(c)
  {
    var lower := ToLower(text);
    forall c | c in lower ensures !IsAsciiUpper(c) {
      var i :| 0 <= i < |lower| && lower[i] == c;
      assert c == LowerChar(text[i]);
    }
  }

  /** The characters that survive the removal step are slug characters. */
  lemma KeptAreSlugChars(lower: string)
    requires forall c | c in lower :: !IsAsciiUpper(c)
    ensures var kept := Filter(ExpandAmpersands(SquashRuns(Trim(lower), IsSpace)), IsWordOrHyphen);
            forall c | c in kept :: IsSlugChar(c)
  {
    var trimmed := Trim(lower);
    var squashed := SquashRuns(trimmed, IsSpace);
    var expanded := ExpandAmpersands(squashed);
    var kept := Filter(expanded, IsWordOrHyphen);
    TrimChars(lower);
    SquashRunsChars(trimmed, IsSpace);
    ExpandAmpersandsChars(squashed);
    FilterSpec(expanded, IsWordOrHyphen);
    forall c | c in kept ensures IsSlugChar(c) {
      assert c in expanded && IsWordOrHyphen(c);
      if c !in "-and-" {
        assert c in squashed;
        if c != '-' {
          assert c in trimmed;
          assert c in lower;
        }
      }
    }
  }

  /** Collapsing the hyphen runs of a string of slug characters gives a slug. */
  lemma SquashHyphensIsSlug(kept: string)
    requires forall c | c in kept :: IsSlugChar(c)
    ensures IsSlug(SquashRuns(kept, IsHyphen))
  {
    var r := SquashRuns(kept, IsHyphen);
    SquashRunsSeparated(kept, IsHyphen);
    SquashRunsChars(kept, IsHyphen);
    forall i | 0 <= i < |r| ensures IsSlugChar(r[i]) {
      assert r[i] in r;
    }
  }

  /** Every character `slugify` produces is in `[a-z0-9_-]`, and no two
      hyphens are adjacent. */
  lemma SlugifyIsSlug(text: string)
    ensures IsSlug(Slugify(text))
  {
    LowerHasNoUpper(text);
    KeptAreSlugChars(ToLower(text));
    SquashHyphensIsSlug(Filter(ExpandAmpersands(SquashRuns(Trim(ToLower(text)), IsSpace)), IsWordOrHyphen));
  }

  /** A string with no character of the class is left as it is. */
  lemma {:induction false} SquashRunsNone(s: string, inRun: char -> bool)
    requires forall i | 0 <= i < |s| :: !inRun(s[i])
    ensures SquashRuns(s, inRun) == s
  {
    if s != [] {
      SquashRunsNone(s[1..], inRun);
      assert [s[0]] + s[1..] == s;
    }
  }

  /** A string whose class characters are single hyphens is left as it is. */
  lemma {:induction false} SquashRunsSingles(s: string, inRun: char -> bool)
    requires forall i | 0 <= i < |s| :: inRun(s[i]) ==> s[i] == '-' && (i + 1 < |s| ==> !inRun(s[i + 1]))
    ensures SquashRuns(s, inRun) == s
  {
    if s != [] {
      SquashRunsSingles(s[1..], inRun);
      assert [s[0]] + s[1..] == s;
    }
  }

  lemma {:induction false} ExpandAmpersandsNone(s: string)
    requires '&' !in s
    ensures ExpandAmpersands(s) == s
  {
    if s != [] {
      ExpandAmpersandsNone(s[1..]);
      assert [s[0]] + s[1..] == s;
    }
  }

  /** Each step of the chain leaves a slug alone. */
  lemma ToLowerFixesSlug(s: string)
    requires IsSlug(s)
    ensures ToLower(s) == s
  {
  }

  lemma TrimFixesSlug(s: string)
    requires IsSlug(s)
    ensures Trim(s) == s
  {
    if s != [] {
      assert IsSlugChar(s[0]) && IsSlugChar(s[|s| - 1]);
    }
    TrimUntrimmed(s);
  }

  lemma SquashSpacesFixesSlug(s: string)
    requires IsSlug(s)
    ensures SquashRuns(s, IsSpace) == s
  {
    SquashRunsNone(s, IsSpace);
  }

  lemma ExpandAmpersandsFixesSlug(s: string)
    requires IsSlug(s)
    ensures ExpandAmpersands(s) == s
  {
    forall i | 0 <= i < |s| ensures s[i] != '&' {
      assert IsSlugChar(s[i]);
    }
    ExpandAmpersandsNone(s);
  }

  lemma FilterFixesSlug(s: string)
    requires IsSlug(s)
    ensures Filter(s, IsWordOrHyphen) == s
  {
    FilterAll(s, IsWordOrHyphen);
  }

  lemma SquashHyphensFixesSlug(s: string)
    requires IsSlug(s)
    ensures SquashRuns(s, IsHyphen) == s
  {
    SquashRunsSingles(s, IsHyphen);
  }

  /** A slug is its own slug. */
  lemma SlugifyFixesSlugs(s: string)
    requires IsSlug(s)
    ensures Slugify(s) == s
  {
    ToLowerFixesSlug(s);
    TrimFixesSlug(s);
    SquashSpacesFixesSlug(s);
    ExpandAmpersandsFixesSlug(s);
    FilterFixesSlug(s);
    SquashHyphensFixesSlug(s);
  }

  /** `slugify` is idempotent. */
  lemma SlugifyIdempotent(text: string)
    ensures Slugify(Slugify(text)) == Slugify(text)
  {
    SlugifyIsSlug(text);
    SlugifyFixesSlugs(Slugify(text));
  }

  /** Characters outside the class are copied as they are. */
  lemma {:induction false} SquashRunsPlain(w: string, rest: string, inRun: char -> bool)
    requires forall i | 0 <= i < |w| :: !inRun(w[i])
    ensures SquashRuns(w + rest, inRun) == w + SquashRuns(rest, inRun)
  {
    if w != [] {
      var s := w + rest;
      assert s[0] == w[0] && s[1..] == w[1..] + rest;
      calc {
        SquashRuns(s, inRun);
        [w[0]] + SquashRuns(w[1..] + rest, inRun);
        { SquashRunsPlain(w[1..], rest, inRun); }
        [w[0]] + (w[1..] + SquashRuns(rest, inRun));
        { assert [w[0]] + w[1..] == w; }
        w + SquashRuns(rest, inRun);
      }
    } else {
      assert w + rest == rest;
    }
  }

  /** A whole run of class characters becomes exactly one hyphen. */
  lemma SquashRunsRun(run: string, rest: string, inRun: char -> bool)
    requires run != [] && forall i | 0 <= i < |run| :: inRun(run[i])
    requires rest == [] || !inRun(rest[0])
    ensures SquashRuns(run + rest, inRun) == "-" + SquashRuns(rest, inRun)
  {
    var s := run + rest;
    assert s[0] == run[0] && s[1..] == run[1..] + rest;
    SkipRunOver(run[1..], rest, inRun);
    calc {
      SquashRuns(s, inRun);
      "-" + SquashRuns(SkipRun(s[1..], inRun), inRun);
      "-" + SquashRuns(rest, inRun);
    }
  }

  lemma {:induction false} SkipRunOver(run: string, rest: string, inRun: char -> bool)
    requires forall i | 0 <= i < |run| :: inRun(run[i])
    requires rest == [] || !inRun(rest[0])
    ensures SkipRun(run + rest, inRun) == rest
  {
    if run != [] {
      SkipRunOver(run[1..], rest, inRun);
      assert (run + rest)[1..] == run[1..] + rest;
    } else {
      assert run + rest == rest;
    }
  }

  lemma {:induction false} ExpandAmpersandsAppend(a: string, b: string)
    ensures ExpandAmpersands(a + b) == ExpandAmpersands(a) + ExpandAmpersands(b)
  {
    if a != [] {
      ExpandAmpersandsAppend(a[1..], b);
      assert (a + b)[1..] == a[1..] + b;
    } else {
      assert a + b == b;
    }
  }

  /** A string with no white space at either end is its own trim. */
  lemma TrimUntrimmed(s: string)
    requires s == [] || (!IsSpace(s[0]) && !IsSpace(s[|s| - 1]))
    ensures Trim(s) == s
  {
    assert SkipRun(s, IsSpace) == s;
    assert TrimEnd(s) == s;
  }

  /** A non-empty word of ASCII letters and digits. */
  predicate IsAlnumWord(w: string) {
    w != [] && forall i | 0 <= i < |w| :: IsAsciiUpper(w[i]) || IsAsciiLower(w[i]) || IsDigit(w[i])
  }

  /** A non-empty word of lower-case ASCII letters and digits. */
  predicate IsLowerWord(l: string) {
    l != [] && forall i | 0 <= i < |l| :: IsAsciiLower(l[i]) || IsDigit(l[i])
  }

  /** A lower-case word holds no white space, hyphen or ampersand. */
  lemma LowerWordPlain(l: string)
    requires IsLowerWord(l)
    ensures forall i | 0 <= i < |l| :: !IsSpace(l[i]) && !IsHyphen(l[i]) && l[i] != '&'
  {
  }

  lemma LowerWord(w: string)
    requires IsAlnumWord(w)
    ensures IsLowerWord(ToLower(w))
  {
  }

  lemma ToLowerAppend(a: string, b: string)
    ensures ToLower(a + b) == ToLower(a) + ToLower(b)
  {
  }

  /** Lower-casing leaves a run of white space alone. */
  lemma ToLowerAroundSpaces(w1: string, sp: string, w2: string)
    requires forall i | 0 <= i < |sp| :: IsSpace(sp[i])
    ensures ToLower(w1 + sp + w2) == ToLower(w1) + sp + ToLower(w2)
  {
    ToLowerAppend(w1 + sp, w2);
    ToLowerAppend(w1, sp);
    assert ToLower(sp) == sp;
  }

  lemma TrimBetweenWords(l1: string, sp: string, l2: string)
    requires IsLowerWord(l1) && IsLowerWord(l2)
    ensures Trim(l1 + sp + l2) == l1 + sp + l2
  {
    var lower := l1 + sp + l2;
    assert lower[0] == l1[0] && lower[|lower| - 1] == l2[|l2| - 1];
    TrimUntrimmed(lower);
  }

  lemma SquashSpacesBetweenWords(l1: string, sp: string, l2: string)
    requires IsLowerWord(l1) && IsLowerWord(l2)
    requires sp != [] && forall i | 0 <= i < |sp| :: IsSpace(sp[i])
    ensures SquashRuns(l1 + sp + l2, IsSpace) == l1 + "-" + l2
  {
    LowerWordPlain(l1);
    LowerWordPlain(l2);
    calc {
      SquashRuns(l1 + sp + l2, IsSpace);
      { assert l1 + sp + l2 == l1 + (sp + l2); }
      SquashRuns(l1 + (sp + l2), IsSpace);
      { SquashRunsPlain(l1, sp + l2, IsSpace); }
      l1 + SquashRuns(sp + l2, IsSpace);
      { SquashRunsRun(sp, l2, IsSpace); }
      l1 + ("-" + SquashRuns(l2, IsSpace));
      { SquashRunsNone(l2, IsSpace); }
      l1 + "-" + l2;
    }
  }

  lemma HyphenatedWordsAreSlug(l1: string, l2: string)
    requires IsLowerWord(l1) && IsLowerWord(l2)
    ensures IsSlug(l1 + "-" + l2)
  {
  }

  /** The chain, step by step. */
  lemma SlugifySteps(text: string, trimmed: string, spaced: string, expanded: string, kept: string, r: string)
    requires Trim(ToLower(text)) == trimmed
    requires SquashRuns(trimmed, IsSpace) == spaced
    requires ExpandAmpersands(spaced) == expanded
    requires Filter(expanded, IsWordOrHyphen) == kept
    requires SquashRuns(kept, IsHyphen) == r
    ensures Slugify(text) == r
  {
  }

  /** `slugify("")` is `""`. */
  lemma SlugifyEmpty()
    ensures Slugify("") == ""
  {
  }

  /** A run of white space between two words becomes exactly one hyphen:
      `slugify("Hello   World")` is `"hello-world"`. */
  lemma SlugifySpaceRun(w1: string, sp: string, w2: string)
    requires IsAlnumWord(w1) && IsAlnumWord(w2)
    requires sp != [] && forall i | 0 <= i < |sp| :: IsSpace(sp[i])
    ensures Slugify(w1 + sp + w2) == ToLower(w1) + "-" + ToLower(w2)
  {
    var l1, l2 := ToLower(w1), ToLower(w2);
    LowerWord(w1);
    LowerWord(w2);
    ToLowerAroundSpaces(w1, sp, w2);
    TrimBetweenWords(l1, sp, l2);
    SquashSpacesBetweenWords(l1, sp, l2);
    var r := l1 + "-" + l2;
    HyphenatedWordsAreSlug(l1, l2);
    ExpandAmpersandsFixesSlug(r);
    FilterFixesSlug(r);
    SquashHyphensFixesSlug(r);
    SlugifySteps(w1 + sp + w2, l1 + sp + l2, r, r, r, r);
  }

  lemma ToLowerAmpersand(w1: string, w2: string)
    ensures ToLower(w1 + " & " + w2) == ToLower(w1) + " & " + ToLower(w2)
  {
    ToLowerAppend(w1 + " & ", w2);
    ToLowerAppend(w1, " & ");
    assert ToLower(" & ") == " & ";
  }

  lemma SquashSpacesAroundAmpersand(l1: string, l2: string)
    requires IsLowerWord(l1) && IsLowerWord(l2)
    ensures SquashRuns(l1 + " & " + l2, IsSpace) == l1 + "-&-" + l2
  {
    LowerWordPlain(l1);
    assert l1 + " & " + l2 == l1 + (" & " + l2);
    SquashRunsPlain(l1, " & " + l2, IsSpace);
    SquashSpacesAmpersandWord(l2);
    assert l1 + ("-&-" + l2) == l1 + "-&-" + l2;
  }

  lemma SquashSpacesAmpersandWord(l2: string)
    requires IsLowerWord(l2)
    ensures SquashRuns(" & " + l2, IsSpace) == "-&-" + l2
  {
    var r2 := " " + l2;
    var r1 := "&" + r2;
    assert " & " + l2 == " " + r1;
    assert r1[0] == '&' && !IsSpace('&');
    SquashRunsRun(" ", r1, IsSpace);
    SquashRunsPlain("&", r2, IsSpace);
    SquashSpaceWord(l2);
    assert "-" + ("&" + ("-" + l2)) == "-&-" + l2;
  }

  /** A space before a word becomes a hyphen. */
  lemma SquashSpaceWord(l: string)
    requires IsLowerWord(l)
    ensures SquashRuns(" " + l, IsSpace) == "-" + l
  {
    LowerWordPlain(l);
    SquashRunsRun(" ", l, IsSpace);
    SquashRunsNone(l, IsSpace);
  }

  lemma ExpandAmpersandBetween(l1: string, l2: string)
    requires IsLowerWord(l1) && IsLowerWord(l2)
    ensures ExpandAmpersands(l1 + "-&-" + l2) == l1 + "--and--" + l2
  {
    ExpandAmpersandsAppend(l1 + "-&-", l2);
    ExpandAmpersandsAppend(l1, "-&-");
    assert '&' !in l1 && '&' !in l2;
    ExpandAmpersandsNone(l1);
    ExpandAmpersandsNone(l2);
    assert ExpandAmpersands("-&-") == "--and--";
  }

  lemma FilterKeepsWords(s: string)
    requires forall i | 0 <= i < |s| :: IsWordOrHyphen(s[i])
    ensures Filter(s, IsWordOrHyphen) == s
  {
    FilterAll(s, IsWordOrHyphen);
  }

  lemma SquashHyphensAroundAnd(l1: string, l2: string)
    requires IsLowerWord(l1) && IsLowerWord(l2)
    ensures SquashRuns(l1 + "--and--" + l2, IsHyphen) == l1 + "-and-" + l2
  {
    LowerWordPlain(l1);
    LowerWordPlain(l2);
    var t3 := "--" + l2;
    var t2 := "and" + t3;
    var t1 := "--" + t2;
    assert "--and--" + l2 == t1;
    AppendAssoc(l1, "--and--", l2);
    SquashRunsPlain(l1, t1, IsHyphen);
    SquashRunsRun("--", t2, IsHyphen);
    SquashRunsPlain("and", t3, IsHyphen);
    SquashRunsRun("--", l2, IsHyphen);
    SquashRunsNone(l2, IsHyphen);
    assert SquashRuns(t1, IsHyphen) == "-" + ("and" + ("-" + l2));
    assert "-and-" == "-" + "and" + "-";
    AppendAssoc("-" + "and", "-", l2);
    AppendAssoc("-", "and", "-" + l2);
    AppendAssoc(l1, "-and-", l2);
  }

  /** `&` becomes `-and-` and the hyphens around it collapse:
      `slugify("Tom & Jerry")` is `"tom-and-jerry"`. */
  lemma SlugifyAmpersand(w1: string, w2: string)
    requires IsAlnumWord(w1) && IsAlnumWord(w2)
    ensures Slugify(w1 + " & " + w2) == ToLower(w1) + "-and-" + ToLower(w2)
  {
    var l1, l2 := ToLower(w1), ToLower(w2);
    LowerWord(w1);
    LowerWord(w2);
    ToLowerAmpersand(w1, w2);
    TrimBetweenWords(l1, " & ", l2);
    SquashSpacesAroundAmpersand(l1, l2);
    ExpandAmpersandBetween(l1, l2);
    FilterKeepsWords(l1 + "--and--" + l2);
    SquashHyphensAroundAnd(l1, l2);
    SlugifySteps(w1 + " & " + w2, l1 + " & " + l2, l1 + "-&-" + l2,
                 l1 + "--and--" + l2, l1 + "--and--" + l2, l1 + "-and-" + l2);
  }

  lemma SquashSpacesNone(s: string)
    requires forall i | 0 <= i < |s| :: !IsSpace(s[i])
    ensures SquashRuns(s, IsSpace) == s
  {
    SquashRunsNone(s, IsSpace);
  }

  lemma ExpandLeadingAmpersand(l: string)
    requires IsLowerWord(l)
    ensures ExpandAmpersands("&" + l) == "-and-" + l
  {
    LowerWordPlain(l);
    ExpandAmpersandsAppend("&", l);
    ExpandAmpersandsNone(l);
  }

  /** `&` at the start leaves a leading hyphen: `slugify("&b")` is
      `"-and-b"`. */
  lemma SlugifyLeadingAmpersand(w: string)
    requires IsAlnumWord(w)
    ensures Slugify("&" + w) == "-and-" + ToLower(w)
  {
    var l := ToLower(w);
    LowerWord(w);
    AmpersandWordLowered(w);
    ExpandLeadingAmpersand(l);
    var r := "-and-" + l;
    AndWordSlug(l);
    FilterFixesSlug(r);
    SquashHyphensFixesSlug(r);
    SlugifySteps("&" + w, "&" + l, "&" + l, r, r, r);
  }

  /** `"&" + w` lower-cased is already trimmed and holds no white space. */
  lemma AmpersandWordLowered(w: string)
    requires IsAlnumWord(w)
    ensures Trim(ToLower("&" + w)) == "&" + ToLower(w)
    ensures SquashRuns("&" + ToLower(w), IsSpace) == "&" + ToLower(w)
  {
    var l := ToLower(w);
    LowerWord(w);
    LowerWordPlain(l);
    ToLowerAppend("&", w);
    var lower := "&" + l;
    assert lower[|lower| - 1] == l[|l| - 1];
    TrimUntrimmed(lower);
    forall i | 0 <= i < |lower| ensures !IsSpace(lower[i]) {
      if i > 0 { assert lower[i] == l[i - 1]; }
    }
    SquashSpacesNone(lower);
  }

  lemma AndWordSlug(l: string)
    requires IsLowerWord(l)
    ensures IsSlug("-and-" + l)
  {
    var r := "-and-" + l;
    forall i | 0 <= i < |r| ensures IsSlugChar(r[i]) {
      if i >= 5 { assert r[i] == l[i - 5]; }
    }
  }

  lemma SquashSpaceBeforeSymbol(l: string)
    requires IsLowerWord(l)
    ensures SquashRuns(l + " !", IsSpace) == l + "-!"
  {
    LowerWordPlain(l);
    SquashRunsPlain(l, " !", IsSpace);
    assert " !" == " " + "!";
    SquashRunsRun(" ", "!", IsSpace);
    SquashRunsNone("!", IsSpace);
  }

  lemma FilterDropsSymbol(l: string)
    requires IsLowerWord(l)
    ensures Filter(l + "-!", IsWordOrHyphen) == l + "-"
  {
    assert l + "-!" == (l + "-") + "!";
    FilterAppend(l + "-", "!", IsWordOrHyphen);
    FilterAll(l + "-", IsWordOrHyphen);
    assert Filter("!", IsWordOrHyphen) == [];
  }

  /** A character outside `[A-Za-z0-9_-]` after a space leaves a trailing
      hyphen: `slugify("a !")` is `"a-"`. */
  lemma SlugifyTrailingSymbol(w: string)
    requires IsAlnumWord(w)
    ensures Slugify(w + " !") == ToLower(w) + "-"
  {
    var l := ToLower(w);
    LowerWord(w);
    SymbolLowered(w);
    SquashSpaceBeforeSymbol(l);
    LowerWordPlain(l);
    ExpandAmpersandsNone(l + "-!");
    FilterDropsSymbol(l);
    var r := l + "-";
    HyphenEndSlug(l);
    SquashHyphensFixesSlug(r);
    SlugifySteps(w + " !", l + " !", l + "-!", l + "-!", r, r);
  }

  /** `w + " !"` lower-cased is already trimmed. */
  lemma SymbolLowered(w: string)
    requires IsAlnumWord(w)
    ensures Trim(ToLower(w + " !")) == ToLower(w) + " !"
  {
    var l := ToLower(w);
    LowerWord(w);
    ToLowerAppend(w, " !");
    var lower := l + " !";
    assert lower[0] == l[0];
    TrimUntrimmed(lower);
  }

  /** A word followed by one hyphen is a slug. */
  lemma HyphenEndSlug(l: string)
    requires IsLowerWord(l)
    ensures IsSlug(l + "-")
  {
    var r := l + "-";
    forall i | 0 <= i < |r| - 1 ensures !(r[i] == '-' && r[i + 1] == '-') {
      assert r[i] == l[i];
    }
  }

  /** The characters the excerpt drops: `[#*`]`. */
  predicate IsMark(c: char) { c == '#' || c == '*' || c == '`' }

  predicate IsNotMark(c: char) { !IsMark(c) }

  /** `content.split('\n\n')[0]`: the body up to the first blank-line
      separator, or the whole body when there is none. */
  function FirstParagraph(body: string): string {
    var i := IndexOf(body, "\n\n", 0);
    if i == -1 then body else body[..i]
  }

  /** The excerpt `parseMarkdown` returns: the first paragraph with every
      `#`, `*` and backquote removed. */
  function Excerpt(body: string): string {
    Filter(FirstParagraph(body), IsNotMark)
  }

  /** The first paragraph is the prefix of the body that stops at the first
      occurrence of "\n\n", or the whole body. */
  lemma FirstParagraphSpec(body: string)
    ensures var p := FirstParagraph(body);
            && |p| <= |body| && p == body[..|p|]
            && (forall i | 0 <= i < |p| :: !OccursAt(body, "\n\n", i))
            && (|p| == |body| || OccursAt(body, "\n\n", |p|))
  {
  }

  /** Removing the marks from one more character: a mark adds nothing, any
      other character is appended after what was kept before it. */
  lemma StripMarksSnoc(p: string, c: char)
    ensures Filter(p + [c], IsNotMark) == Filter(p, IsNotMark) + (if IsMark(c) then [] else [c])
  {
    FilterAppend(p, [c], IsNotMark);
    assert [c][1..] == [];
  }

  /** The excerpt holds no mark, and every other character of the first
      paragraph as often as it occurs there and in the same order: reading
      the paragraph left to right, each non-mark character is appended to
      the excerpt and each mark is skipped. */
  lemma ExcerptSpec(body: string)
    ensures var p := FirstParagraph(body);
            var r := Excerpt(body);
            && (forall c | c in r :: c in p && !IsMark(c))
            && (forall c | c in p && !IsMark(c) :: multiset(r)[c] == multiset(p)[c])
            && Filter(p[..0], IsNotMark) == []
            && (forall k | 0 <= k < |p| ::
                  Filter(p[..k + 1], IsNotMark) == Filter(p[..k], IsNotMark) + (if IsMark(p[k]) then [] else [p[k]]))
            && r == Filter(p[..|p|], IsNotMark)
  {
    var p := FirstParagraph(body);
    FilterSpec(p, IsNotMark);
    forall k | 0 <= k < |p|
      ensures Filter(p[..k + 1], IsNotMark) == Filter(p[..k], IsNotMark) + (if IsMark(p[k]) then [] else [p[k]])
    {
      TakeSnoc(p, k);
      StripMarksSnoc(p[..k], p[k]);
    }
    assert p[..|p|] == p;
  }

  /** The first occurrence is the one `IndexOf` finds. */
  lemma IndexOfFirst(s: string, pat: string, k: nat)
    requires OccursAt(s, pat, k)
    requires forall j | 0 <= j < k :: !OccursAt(s, pat, j)
    ensures IndexOf(s, pat, 0) == k
  {
  }

  lemma NoBlankLineBefore(a: string, b: string)
    requires forall i | 0 <= i <= |a| :: !OccursAt(a, "\n\n", i)
    requires a == [] || a[|a| - 1] != '\n'
    ensures var body := a + "\n\n" + b;
            && OccursAt(body, "\n\n", |a|)
            && forall j | 0 <= j < |a| :: !OccursAt(body, "\n\n", j)
  {
    var body := a + "\n\n" + b;
    assert body[|a|..|a| + 2] == "\n\n";
    forall j | 0 <= j < |a| ensures !OccursAt(body, "\n\n", j) {
      if j + 2 <= |a| {
        assert body[j..j + 2] == a[j..j + 2];
        assert !OccursAt(a, "\n\n", j);
      } else {
        assert body[j] == a[|a| - 1];
      }
    }
  }

  /** An excerpt stops at the first blank line: for a first paragraph `a`
      that neither contains "\n\n" nor ends with a line feed, whatever
      follows the separator is ignored. */
  lemma ExcerptStopsAtBlankLine(a: string, b: string)
    requires forall i | 0 <= i <= |a| :: !OccursAt(a, "\n\n", i)
    requires a == [] || a[|a| - 1] != '\n'
    ensures Excerpt(a + "\n\n" + b) == Filter(a, IsNotMark)
  {
    var body := a + "\n\n" + b;
    NoBlankLineBefore(a, b);
    IndexOfFirst(body, "\n\n", |a|);
    assert body[..|a|] == a;
  }

  /** A body without a blank line and without marks is its own excerpt. */
  lemma ExcerptOfPlainBody(body: string)
    requires forall i | 0 <= i <= |body| :: !OccursAt(body, "\n\n", i)
    requires forall i | 0 <= i < |body| :: !IsMark(body[i])
    ensures Excerpt(body) == body
  {
    FilterAll(body, IsNotMark);
  }
}
