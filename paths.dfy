/** The part of Node's POSIX `path` module the image optimizer relies on:
    `path.extname`. */
module Paths {
  /** The length of `p[..n]` without its trailing `/` characters. */
  function Trimmed(p: string, n: nat): (r: nat)
    requires n <= |p|
    ensures r <= n
  {
    if n > 0 && p[n - 1] == '/' then Trimmed(p, n - 1) else n
  }

  /** What is trimmed is a run of `/`, and what remains does not end in
      `/`. */
  lemma {:induction false} TrimmedSpec(p: string, n: nat)
    requires n <= |p|
    ensures var r := Trimmed(p, n);
            && (r == 0 || p[r - 1] != '/')
            && (forall i | r <= i < n :: p[i] == '/')
  {
    if n > 0 && p[n - 1] == '/' {
      TrimmedSpec(p, n - 1);
    }
  }

  /** The index of the last `c` in `s[..n]`, or -1. */
  function LastIndex(s: string, c: char, n: nat): (r: int)
    requires n <= |s|
    ensures -1 <= r < n
  {
    if n == 0 then -1
    else if s[n - 1] == c then n - 1
    else LastIndex(s, c, n - 1)
  }

  /** `LastIndex` finds a `c`, and there is none after it. */
  lemma {:induction false} LastIndexSpec(s: string, c: char, n: nat)
    requires n <= |s|
    ensures var r := LastIndex(s, c, n);
            && (r >= 0 ==> s[r] == c)
            && (forall i | r < i < n :: s[i] != c)
  {
    if n > 0 && s[n - 1] != c {
      LastIndexSpec(s, c, n - 1);
    }
  }

  /** Conversely, the last `c` before `n` is at `k`. */
  lemma {:induction false} LastIndexIs(s: string, c: char, n: nat, k: int)
    requires n <= |s| && -1 <= k < n && (k >= 0 ==> s[k] == c)
    requires forall i | k < i < n :: s[i] != c
    ensures LastIndex(s, c, n) == k
  {
    if n > 0 && s[n - 1] != c {
      LastIndexIs(s, c, n - 1, k);
    }
  }

  /** The last component of `p`, trailing slashes ignored. */
  function LastComponent(p: string): string {
    var n := Trimmed(p, |p|);
    p[LastIndex(p, '/', n) + 1..n]
  }

  /** `path.extname(p)`: the last component from its last `.` on, or ""
      when that component has no `.`, has its last `.` at its start, or is
      `..`. */
  function ExtName(p: string): string {
    var b := LastComponent(p);
    var d := LastIndex(b, '.', |b|);
    if d <= 0 || b == ".." then "" else b[d..]
  }

  /** `ExtName` from the last component and the position of its last `.`. */
  lemma ExtNameFrom(p: string, b: string, d: int)
    requires LastComponent(p) == b && LastIndex(b, '.', |b|) == d
    ensures ExtName(p) == if d <= 0 || b == ".." then "" else b[d..]
  {
  }

  /** The last component holds no `/`. */
  lemma ComponentNoSlash(p: string)
    ensures forall i | 0 <= i < |LastComponent(p)| :: LastComponent(p)[i] != '/'
  {
    var n := Trimmed(p, |p|);
    LastIndexSpec(p, '/', n);
    var k := LastIndex(p, '/', n) + 1;
    forall i | 0 <= i < |LastComponent(p)| ensures LastComponent(p)[i] != '/' {
      assert LastComponent(p)[i] == p[k + i];
    }
  }

  /** An extension is "" or a `.` followed by neither `.` nor `/`. */
  lemma ExtNameForm(p: string)
    ensures var x := ExtName(p);
            x == [] || (x[0] == '.' && forall i | 1 <= i < |x| :: x[i] != '.' && x[i] != '/')
  {
    var b := LastComponent(p);
    ComponentNoSlash(p);
    LastIndexSpec(b, '.', |b|);
    var d := LastIndex(b, '.', |b|);
    ExtNameFrom(p, b, d);
    if d > 0 && b != ".." {
      forall i | 1 <= i < |b| - d ensures b[d..][i] != '.' && b[d..][i] != '/' {
        assert b[d..][i] == b[d + i];
      }
    }
  }

  /** The last component of `dir + name`, for a directory part that is
      empty or ends in `/` and a name without `/` that is not empty, is
      `name`. */
  lemma ComponentAfter(dir: string, name: string)
    requires dir == [] || dir[|dir| - 1] == '/'
    requires name != [] && forall i | 0 <= i < |name| :: name[i] != '/'
    ensures LastComponent(dir + name) == name
  {
    var p := dir + name;
    assert p[|p| - 1] == name[|name| - 1];
    assert Trimmed(p, |p|) == |p|;
    forall i | |dir| <= i < |p| ensures p[i] != '/' {
      assert p[i] == name[i - |dir|];
    }
    if dir != [] {
      assert p[|dir| - 1] == '/';
    }
    LastIndexIs(p, '/', |p|, |dir| - 1);
    assert p[|dir|..] == name;
  }

  /** The file name `stem + "." + ext`: no `/`, its last `.` right after
      the stem, and not `..`. */
  lemma FileName(stem: string, ext: string)
    requires stem != [] && !(stem == "." && ext == [])
    requires forall i | 0 <= i < |stem| :: stem[i] != '/'
    requires forall i | 0 <= i < |ext| :: ext[i] != '/' && ext[i] != '.'
    ensures var name := stem + ['.'] + ext;
            && (forall i | 0 <= i < |name| :: name[i] != '/')
            && LastIndex(name, '.', |name|) == |stem|
            && name != ".."
            && name[|stem|..] == ['.'] + ext
  {
    var name := stem + ['.'] + ext;
    forall i | 0 <= i < |name| ensures name[i] != '/' {
      if i < |stem| {
        assert name[i] == stem[i];
      } else if i > |stem| {
        assert name[i] == ext[i - |stem| - 1];
      }
    }
    forall i | |stem| < i < |name| ensures name[i] != '.' {
      assert name[i] == ext[i - |stem| - 1];
    }
    LastIndexIs(name, '.', |name|, |stem|);
    if |name| == 2 {
      assert name[0] == stem[0] && stem != ".";
    }
  }

  /** The extension of `dir + stem + "." + ext`, for a directory part that
      is empty or ends in `/` and a file name whose stem is not empty, is
      `"." + ext`. */
  lemma ExtNameOf(dir: string, stem: string, ext: string)
    requires dir == [] || dir[|dir| - 1] == '/'
    requires stem != [] && !(stem == "." && ext == [])
    requires forall i | 0 <= i < |stem| :: stem[i] != '/'
    requires forall i | 0 <= i < |ext| :: ext[i] != '/' && ext[i] != '.'
    ensures ExtName(dir + stem + "." + ext) == "." + ext
  {
    var name := stem + ['.'] + ext;
    assert dir + stem + "." + ext == dir + name;
    FileName(stem, ext);
    ComponentAfter(dir, name);
    ExtNameFrom(dir + name, name, |stem|);
  }

  /** A path without `.` has no extension. */
  lemma NoDotNoExt(p: string)
    requires forall i | 0 <= i < |p| :: p[i] != '.'
    ensures ExtName(p) == ""
  {
    var b := LastComponent(p);
    var n := Trimmed(p, |p|);
    var k := LastIndex(p, '/', n) + 1;
    forall i | 0 <= i < |b| ensures b[i] != '.' {
      assert b[i] == p[k + i];
    }
    LastIndexIs(b, '.', |b|, -1);
    ExtNameFrom(p, b, -1);
  }

  /** A dotfile such as `.png` has no extension. */
  lemma DotfileNoExt(dir: string, name: string)
    requires dir == [] || dir[|dir| - 1] == '/'
    requires forall i | 0 <= i < |name| :: name[i] != '/' && name[i] != '.'
    ensures ExtName(dir + "." + name) == ""
  {
    var b := ['.'] + name;
    assert dir + "." + name == dir + b;
    assert forall i | 0 < i < |b| :: b[i] == name[i - 1];
    ComponentAfter(dir, b);
    LastIndexIs(b, '.', |b|, 0);
    ExtNameFrom(dir + b, b, 0);
  }
}
