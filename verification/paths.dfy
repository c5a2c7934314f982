/**
 * Path confinement: PHP's `realpath` as lexical resolution of '/'-separated
 * pieces followed by an existence check, and the two places explorer.php
 * confines a user-supplied path under `users/<name>/Home`.
 */
module Paths {
  import opened Wrappers
  import opened Text
  import opened Tree

  /** A canonical path segment: what `realpath` can return between two slashes. */
  predicate ValidSegment(s: string)
  {
    s != "" && s != "." && s != ".." && '/' !in s
  }

  predicate ValidPath(p: Path)
  {
    forall i :: 0 <= i < |p| ==> ValidSegment(p[i])
  }

  predicate NoSlashes(segs: seq<string>)
  {
    forall i :: 0 <= i < |segs| ==> '/' !in segs[i]
  }

  /** One step of resolution: "" and "." stay, ".." goes up (never above the root), a name goes down. */
  function Step(acc: Path, seg: string): Path
  {
    if seg == "" || seg == "." then acc
    else if seg == ".." then (if acc == [] then [] else acc[..|acc| - 1])
    else acc + [seg]
  }

  /** Resolves the pieces from left to right, starting at `acc`. */
  function Resolve(acc: Path, segs: seq<string>): Path
    decreases |segs|
  {
    if segs == [] then acc else Resolve(Step(acc, segs[0]), segs[1..])
  }

  /** Lexical normalisation of an absolute path string. */
  function Normalize(s: string): Path
  {
    Resolve([], Split(s))
  }

  /** "/a/b" for ["a", "b"]: every segment preceded by a slash. */
  function Encode(p: Path): string
  {
    if p == [] then "" else "/" + p[0] + Encode(p[1..])
  }

  /** The string `realpath` returns for a canonical path. */
  function Abs(p: Path): string
  {
    if p == [] then "/" else Encode(p)
  }

  /** `realpath($s)`: the canonical path when it names an existing entry, `false` (None) otherwise. */
  function Realpath(fs: Node, s: string): (r: Option<Path>)
    ensures r.Some? ==> Lookup(fs, r.value).Some?
  {
    var p := Normalize(s);
    if Lookup(fs, p).Some? then Some(p) else None
  }

  lemma {:induction false} ResolveValid(acc: Path, segs: seq<string>)
    requires ValidPath(acc) && NoSlashes(segs)
    ensures ValidPath(Resolve(acc, segs))
    decreases |segs|
  {
    if segs != [] {
      ResolveValid(Step(acc, segs[0]), segs[1..]);
    }
  }

  /** Without ".." pieces resolution only ever goes down from where it starts. */
  lemma {:induction false} ResolveNoUp(acc: Path, segs: seq<string>)
    requires ".." !in segs
    ensures acc <= Resolve(acc, segs)
    decreases |segs|
  {
    if segs != [] {
      assert segs[0] != "..";
      ResolveNoUp(Step(acc, segs[0]), segs[1..]);
    }
  }

  lemma {:induction false} ResolveCanonical(acc: Path, p: Path)
    requires ValidPath(p)
    ensures Resolve(acc, p) == acc + p
    decreases |p|
  {
    if p != [] {
      ResolveCanonical(acc + [p[0]], p[1..]);
      assert acc + [p[0]] + p[1..] == acc + p;
    }
  }

  lemma {:induction false} ResolveConcat(acc: Path, a: seq<string>, b: seq<string>)
    ensures Resolve(acc, a + b) == Resolve(Resolve(acc, a), b)
    decreases |a|
  {
    if a == [] {
      assert a + b == b;
    } else {
      assert (a + b)[0] == a[0] && (a + b)[1..] == a[1..] + b;
      ResolveConcat(Step(acc, a[0]), a[1..], b);
    }
  }

  lemma SplitNoSlash(x: string)
    requires '/' !in x
    ensures Split(x) == [x]
  {
    JoinSplit(x);
    if |Split(x)| > 1 {
      assert false;
    }
  }

  lemma {:induction false} SplitEncode(x: string, p: Path)
    requires '/' !in x && NoSlashes(p)
    ensures Split(x + Encode(p)) == [x] + p
    decreases |p|
  {
    if p == [] {
      assert x + Encode(p) == x;
      SplitNoSlash(x);
    } else {
      assert x + Encode(p) == x + "/" + (p[0] + Encode(p[1..]));
      SplitConcat(x, p[0] + Encode(p[1..]));
      SplitEncode(p[0], p[1..]);
      SplitNoSlash(x);
      assert [x] + ([p[0]] + p[1..]) == [x] + p;
    }
  }

  lemma {:induction false} EncodeConcat(a: Path, b: Path)
    ensures Encode(a + b) == Encode(a) + Encode(b)
    decreases |a|
  {
    if a == [] {
      assert a + b == b;
    } else {
      assert (a + b)[0] == a[0] && (a + b)[1..] == a[1..] + b;
      EncodeConcat(a[1..], b);
    }
  }

  /** `realpath($base . '/' . $rel)` for a canonical base resolves the pieces of `rel` from `base`. */
  lemma RealpathUnder(base: Path, rel: string)
    requires base != [] && ValidPath(base)
    ensures Normalize(Abs(base) + "/" + rel) == Resolve(base, Split(rel))
  {
    assert Abs(base) == Encode(base);
    var segs := Split(Encode(base) + "/" + rel);
    SplitConcat(Encode(base), rel);
    assert "" + Encode(base) == Encode(base);
    SplitEncode("", base);
    assert segs == ([""] + base) + Split(rel);
    ResolveConcat([], [""] + base, Split(rel));
    assert Resolve([], [""] + base) == base by {
      ResolveConcat([], [""], base);
      assert Resolve([], [""]) == [];
      ResolveCanonical([], base);
    }
  }

  lemma EncodeStartsWithSlash(p: Path)
    requires p != []
    ensures |Encode(p)| >= 1 && Encode(p)[0] == '/'
  {
  }

  /**
   * If the string of `a + [h]` is a plain prefix of the string of `p`, then `a`
   * is a prefix of `p` and `h` is a string prefix of the next segment of `p`:
   * `p` is inside `a + [h]` or inside a sibling whose name starts with `h`.
   */
  lemma {:induction false} EncodePrefix(a: Path, h: string, p: Path)
    requires ValidPath(a + [h]) && ValidPath(p)
    requires Encode(a + [h]) <= Encode(p)
    ensures a <= p && |p| > |a| && h <= p[|a|]
    decreases |a|
  {
    assert ValidSegment((a + [h])[0]);
    assert p != [];
    var p0 := p[0];
    assert ValidSegment(p0);
    var y := Encode(p[1..]);
    if p[1..] != [] {
      EncodeStartsWithSlash(p[1..]);
    }
    if a == [] {
      assert a + [h] == [h];
      assert Encode([h]) == "/" + h + "";
      HeadPrefix(h, p0, y);
    } else {
      var a0 := a[0];
      assert (a + [h])[1..] == a[1..] + [h];
      var rest := Encode(a[1..] + [h]);
      EncodeStartsWithSlash(a[1..] + [h]);
      HeadEqual(a0, p0, rest, y);
      assert ValidPath(a[1..] + [h]) by {
        forall i | 0 <= i < |a[1..] + [h]|
          ensures ValidSegment((a[1..] + [h])[i])
        {
          assert (a[1..] + [h])[i] == (a + [h])[i + 1];
        }
      }
      EncodePrefix(a[1..], h, p[1..]);
      assert a == [a0] + a[1..] && p == [p0] + p[1..];
      assert p[..|a|] == [p0] + p[1..][..|a| - 1];
      assert p[|a|] == p[1..][|a| - 1];
    }
  }

  /** "/h" is a prefix of "/p0" + y, y empty or starting with '/': h is a prefix of the segment p0. */
  lemma HeadPrefix(h: string, p0: string, y: string)
    requires ValidSegment(h) && ValidSegment(p0) && (y == [] || y[0] == '/')
    requires "/" + h <= "/" + p0 + y
    ensures h <= p0
  {
    var e := "/" + p0 + y;
    assert |e| > 1 + |p0| ==> e[1 + |p0|] == '/';
    assert |h| <= |p0|;
    assert h == ("/" + h)[1..1 + |h|] == e[1..1 + |h|];
    assert e[1..1 + |h|] == p0[..|h|];
  }

  /** Two slash-prefixed segments followed by slashes: a prefix relation forces the segments equal. */
  lemma HeadEqual(a0: string, p0: string, x: string, y: string)
    requires ValidSegment(a0) && ValidSegment(p0) && x != [] && x[0] == '/' && (y == [] || y[0] == '/')
    requires "/" + a0 + x <= "/" + p0 + y
    ensures a0 == p0 && x <= y
  {
    var left, e := "/" + a0 + x, "/" + p0 + y;
    assert left[1 + |a0|] == '/';
    assert |e| > 1 + |p0| ==> e[1 + |p0|] == '/';
    assert |a0| == |p0|;
    assert a0 == left[1..1 + |a0|] && p0 == e[1..1 + |p0|];
    assert x == left[1 + |a0|..] && y == e[1 + |p0|..];
  }

  /** With a slash (or the end) after the prefix, `p` is inside `a + [h]` itself. */
  lemma EncodePrefixStrict(a: Path, h: string, p: Path)
    requires ValidPath(a + [h]) && ValidPath(p)
    requires Encode(a + [h]) <= Encode(p)
    requires |Encode(p)| == |Encode(a + [h])| || Encode(p)[|Encode(a + [h])|] == '/'
    ensures a + [h] <= p
  {
    EncodePrefix(a, h, p);
    var s := p[|a|];
    var rest := p[|a| + 1..];
    assert p == a + ([s] + rest);
    EncodeConcat(a, [s] + rest);
    EncodeConcat(a, [h]);
    assert ([s] + rest)[1..] == rest;
    if rest != [] {
      EncodeStartsWithSlash(rest);
    }
    assert ValidSegment(p[|a|]);
    SegmentEndsAtSlash(Encode(a), h, s, Encode(rest));
    assert a + [h] == p[..|a| + 1];
  }

  /** A segment prefix `h` of `s` that is followed by a slash or the end in "z/s…" is all of `s`. */
  lemma SegmentEndsAtSlash(z: string, h: string, s: string, y: string)
    requires h <= s && '/' !in s && (y == [] || y[0] == '/')
    requires var e, l := z + ("/" + s + y), z + ("/" + h + ""); |e| == |l| || e[|l|] == '/'
    ensures h == s
  {
  }

  lemma EncodeMonotone(a: Path, p: Path)
    requires a <= p
    ensures Encode(a) <= Encode(p)
  {
    assert p == a + p[|a|..];
    EncodeConcat(a, p[|a|..]);
  }

  // ---------------------------------------------------------------------
  // The user's sandbox root

  /** "/var/www/html/webdav/users/<name>/Home", before `realpath`. */
  function HomeDirPath(username: string): string
  {
    "/var/www/html/webdav/users/" + username + "/Home"
  }

  /** `$baseDir = realpath(…/users/$username/Home)`; None is the 500 "Server configuration error." */
  function BaseDir(fs: Node, username: string): (r: Option<Path>)
    ensures r.Some? ==> Lookup(fs, r.value).Some? && ValidPath(r.value)
    ensures r.Some? ==> r.value != [] && r.value[|r.value| - 1] == "Home"
  {
    ResolveValid([], Split(HomeDirPath(username)));
    HomeDirEndsInHome(username);
    Realpath(fs, HomeDirPath(username))
  }

  /** Whatever the user name holds, the normalised home path ends in its "Home" segment. */
  lemma HomeDirEndsInHome(username: string)
    ensures var p := Normalize(HomeDirPath(username)); p != [] && p[|p| - 1] == "Home"
  {
    var prefix := "/var/www/html/webdav/users/" + username;
    assert HomeDirPath(username) == prefix + "/" + "Home";
    SplitConcat(prefix, "Home");
    SplitNoSlash("Home");
    ResolveConcat([], Split(prefix), ["Home"]);
  }

  // ---------------------------------------------------------------------
  // action=serve: the requested file

  /** One leading "Home/" is dropped from the requested path. */
  function StripHome(requested: string): string
  {
    if "Home/" <= requested then requested[5..] else requested
  }

  /**
   * The file lookup of `action=serve` as written: `realpath` of base + '/' + the
   * request, accepted when the base string is a plain prefix of the result.
   * None is the 404 "File not found.".
   */
  function ServeResolve(fs: Node, base: Path, requested: string): (r: Option<Path>)
    ensures r.Some? ==> Lookup(fs, r.value).Some? && Abs(base) <= Abs(r.value)
  {
    var found := Realpath(fs, Abs(base) + "/" + StripHome(requested));
    if found.Some? && Abs(base) <= Abs(found.value) then found else None
  }

  /**
   * What the serve lookup lets through: the sandbox itself or, because no slash is
   * required after the base, a sibling directory whose name begins with the
   * sandbox's own name ("Home2", "HomeOld", …).
   */
  lemma ServeResolveReach(fs: Node, base: Path, requested: string)
    requires base != [] && ValidPath(base)
    requires ServeResolve(fs, base, requested).Some?
    ensures var p := ServeResolve(fs, base, requested).value;
      base[..|base| - 1] <= p && |p| >= |base| && base[|base| - 1] <= p[|base| - 1]
  {
    var p := ServeResolve(fs, base, requested).value;
    NormalizeValid(Abs(base) + "/" + StripHome(requested));
    PrefixReach(base, p);
  }

  /** Every normalised path is made of proper segments. */
  lemma NormalizeValid(s: string)
    ensures ValidPath(Normalize(s))
  {
    ResolveValid([], Split(s));
  }

  /**
   * What the plain string-prefix test `strpos($p, $base) === 0` admits: everything
   * below `base`, and also a sibling of `base` whose name merely begins with the
   * last segment of `base`.
   */
  lemma PrefixReach(base: Path, p: Path)
    requires base != [] && ValidPath(base) && ValidPath(p)
    requires Abs(base) <= Abs(p)
    ensures base[..|base| - 1] <= p && |p| >= |base| && base[|base| - 1] <= p[|base| - 1]
  {
    assert ValidSegment(base[0]);
    assert |Abs(base)| >= 2;
    assert p != [];
    var a := base[..|base| - 1];
    assert a + [base[|base| - 1]] == base;
    EncodePrefix(a, base[|base| - 1], p);
  }

  lemma SplitEscape(sibling: string, name: string)
    requires ValidSegment(sibling) && ValidSegment(name)
    ensures Split("../" + sibling + "/" + name) == ["..", sibling, name]
  {
    var tail := sibling + "/" + name;
    assert "../" + sibling + "/" + name == ".." + "/" + tail;
    SplitConcat("..", tail);
    SplitNoSlash("..");
    SplitTwo(sibling, name);
    assert [".."] + [sibling, name] == ["..", sibling, name];
  }

  lemma SplitTwo(x: string, y: string)
    requires '/' !in x && '/' !in y
    ensures Split(x + "/" + y) == [x, y]
  {
    SplitConcat(x, y);
    SplitNoSlash(x);
    SplitNoSlash(y);
  }

  lemma ResolveEscape(parent: Path, home: string, sibling: string, name: string)
    requires ValidSegment(sibling) && ValidSegment(name)
    ensures Resolve(parent + [home], ["..", sibling, name]) == parent + [sibling, name]
  {
    var segs := ["..", sibling, name];
    assert Step(parent + [home], "..") == parent;
    assert segs[0] == ".." && segs[1..] == [sibling, name];
    assert Resolve(parent + [home], segs) == Resolve(parent, [sibling, name]);
    assert Step(parent, sibling) == parent + [sibling];
    assert [sibling, name][0] == sibling && [sibling, name][1..] == [name];
    assert Resolve(parent, [sibling, name]) == Resolve(parent + [sibling], [name]);
    assert Step(parent + [sibling], name) == parent + [sibling, name];
    assert [name][0] == name && [name][1..] == [];
    assert Resolve(parent + [sibling], [name]) == Resolve(parent + [sibling, name], []);
  }

  lemma EncodeSibling(parent: Path, home: string, suffix: string, name: string)
    ensures Encode(parent + [home]) <= Encode(parent + [home + suffix, name])
  {
    EncodeConcat(parent, [home]);
    EncodeConcat(parent, [home + suffix, name]);
    assert Encode([home]) == "/" + home;
    assert Encode([home + suffix, name]) == "/" + (home + suffix) + Encode([name]);
    assert Encode(parent + [home + suffix, name]) == Encode(parent) + "/" + home + (suffix + Encode([name]));
    assert Encode(parent + [home]) == Encode(parent) + "/" + home;
  }

  /** The escape the serve lookup allows: "../<Home…>/<file>" reaches a file beside the sandbox. */
  lemma ServeResolveEscapes(fs: Node, parent: Path, home: string, suffix: string, name: string)
    requires ValidPath(parent + [home]) && ValidSegment(home + suffix) && ValidSegment(name)
    requires suffix != ""
    requires Lookup(fs, parent + [home + suffix, name]).Some?
    ensures var base := parent + [home];
      var target := parent + [home + suffix, name];
      ServeResolve(fs, base, "../" + home + suffix + "/" + name) == Some(target)
      && !(base <= target)
  {
    var base := parent + [home];
    var target := parent + [home + suffix, name];
    var req := "../" + home + suffix + "/" + name;
    assert !("Home/" <= req) by { assert req[0] == '.'; }
    assert req == "../" + (home + suffix) + "/" + name;
    SplitEscape(home + suffix, name);
    RealpathUnder(base, req);
    ResolveEscape(parent, home, home + suffix, name);
    assert Normalize(Abs(base) + "/" + req) == target;
    EncodeSibling(parent, home, suffix, name);
    assert target[|parent|] == home + suffix && base[|parent|] == home;
    assert |home + suffix| > |home|;
  }

  /**
   * The intended check: the base string followed by the end of the string or a
   * slash. This is the confinement the sandbox calls for.
   */
  function ServeResolveStrict(fs: Node, base: Path, requested: string): (r: Option<Path>)
    ensures r.Some? ==> Lookup(fs, r.value).Some?
  {
    var found := Realpath(fs, Abs(base) + "/" + StripHome(requested));
    if found.Some? && (Abs(found.value) == Abs(base) || Abs(base) + "/" <= Abs(found.value)) then found else None
  }

  /** Under the strict check every accepted file lies inside the sandbox. */
  lemma ServeResolveStrictConfined(fs: Node, base: Path, requested: string)
    requires base != [] && ValidPath(base)
    requires ServeResolveStrict(fs, base, requested).Some?
    ensures base <= ServeResolveStrict(fs, base, requested).value
  {
    var p := ServeResolveStrict(fs, base, requested).value;
    NormalizeValid(Abs(base) + "/" + StripHome(requested));
    StrictPrefixInside(base, p);
  }

  /** The base string followed by the end or a slash is a prefix of a canonical path only below the base. */
  lemma StrictPrefixInside(base: Path, p: Path)
    requires base != [] && ValidPath(base) && ValidPath(p)
    requires Abs(p) == Abs(base) || Abs(base) + "/" <= Abs(p)
    ensures base <= p
  {
    var a := base[..|base| - 1];
    assert a + [base[|base| - 1]] == base;
    assert ValidSegment(base[0]);
    assert |Abs(base)| >= 2;
    assert p != [];
    if Abs(p) != Abs(base) {
      assert Encode(p)[|Encode(base)|] == (Abs(base) + "/")[|Encode(base)|];
    }
    EncodePrefixStrict(a, base[|base| - 1], p);
  }

  // ---------------------------------------------------------------------
  // ?folder=: the current directory

  datatype Folder = Folder(dir: Path, rel: string)

  /** `$currentRel`: ".." removed once, then slashes trimmed from both ends. */
  function FolderRel(folder: string): string
  {
    Trim(StripDotDot(folder), {'/'})
  }

  /**
   * `$currentDir`/`$currentRel`: the resolved folder when `realpath` succeeds and has the
   * base as a string prefix; otherwise the base and "Home".
   */
  function ResolveFolder(fs: Node, base: Path, folder: string): Folder
  {
    ResolveRel(fs, base, FolderRel(folder))
  }

  function ResolveRel(fs: Node, base: Path, rel: string): Folder
  {
    var found := Realpath(fs, Abs(base) + "/" + rel);
    if found.None? || !(Abs(base) <= Abs(found.value)) then Folder(base, "Home")
    else Folder(found.value, rel)
  }

  /** Without ".." pieces, a successful `realpath` under the base stays below it and passes the prefix test. */
  lemma FoundBelowBase(fs: Node, base: Path, rel: string)
    requires base != [] && ValidPath(base) && ".." !in Split(rel)
    requires Realpath(fs, Abs(base) + "/" + rel).Some?
    ensures var p := Realpath(fs, Abs(base) + "/" + rel).value;
      base <= p && Abs(base) <= Abs(p)
  {
    var p := Realpath(fs, Abs(base) + "/" + rel).value;
    RealpathUnder(base, rel);
    ResolveNoUp(base, Split(rel));
    EncodeMonotone(base, p);
  }

  lemma FolderRelClean(folder: string)
    ensures var rel := FolderRel(folder);
      NoDoubleDot(rel) && ".." !in Split(rel) && (rel == [] || (rel[0] != '/' && rel[|rel| - 1] != '/'))
  {
    var s := StripDotDot(folder);
    StripDotDotClean(folder);
    var rel := FolderRel(folder);
    TrimSubstring(s, {'/'});
    var i := |s| - |TrimLeft(s, {'/'})|;
    TrimEnds(s, {'/'});
    SubstringNoDoubleDot(s, i, i + |rel|);
    SplitNoDotDot(rel);
  }

  lemma ResolveRelFallback(fs: Node, base: Path, rel: string)
    requires base != [] && ValidPath(base) && ".." !in Split(rel)
    ensures var found := Realpath(fs, Abs(base) + "/" + rel);
      ResolveRel(fs, base, rel) == if found.Some? then Folder(found.value, rel) else Folder(base, "Home")
    ensures base <= ResolveRel(fs, base, rel).dir
  {
    if Realpath(fs, Abs(base) + "/" + rel).Some? {
      FoundBelowBase(fs, base, rel);
    }
  }

  /** The "Home" fallback happens exactly when `realpath` fails: once ".." is gone the prefix test always passes. */
  lemma ResolveFolderFallback(fs: Node, base: Path, folder: string)
    requires base != [] && ValidPath(base)
    ensures var found := Realpath(fs, Abs(base) + "/" + FolderRel(folder));
      ResolveFolder(fs, base, folder)
        == if found.Some? then Folder(found.value, FolderRel(folder)) else Folder(base, "Home")
  {
    FolderRelClean(folder);
    ResolveRelFallback(fs, base, FolderRel(folder));
  }

  /** Slashes at the front of a relative folder only add empty pieces, which resolution skips. */
  lemma {:induction false} ResolveTrimLeft(acc: Path, s: string)
    ensures Resolve(acc, Split(TrimLeft(s, {'/'}))) == Resolve(acc, Split(s))
    decreases |s|
  {
    if s != [] && s[0] == '/' {
      var rest := s[1..];
      assert s == "" + "/" + rest;
      SplitConcat("", rest);
      assert Split(s)[1..] == Split(rest);
      ResolveTrimLeft(acc, rest);
    }
  }

  /** Slashes at the end of a relative folder only add empty pieces, which resolution skips. */
  lemma {:induction false} ResolveTrimRight(acc: Path, s: string)
    ensures Resolve(acc, Split(TrimRight(s, {'/'}))) == Resolve(acc, Split(s))
    decreases |s|
  {
    if s != [] && s[|s| - 1] == '/' {
      var rest := s[..|s| - 1];
      assert s == rest + "/" + "";
      SplitConcat(rest, "");
      ResolveConcat(acc, Split(rest), [""]);
      ResolveTrimRight(acc, rest);
    }
  }

  /** `$currentRel` computed from a folder without `..` resolves where the folder itself does. */
  lemma FolderRelResolves(acc: Path, folder: string)
    requires NoDoubleDot(folder)
    ensures Resolve(acc, Split(FolderRel(folder))) == Resolve(acc, Split(folder))
  {
    StripDotDotNoop(folder);
    ResolveTrimRight(acc, TrimLeft(folder, {'/'}));
    ResolveTrimLeft(acc, folder);
  }

  predicate CleanRel(rel: string)
  {
    NoDoubleDot(rel) && (rel == [] || (rel[0] != '/' && rel[|rel| - 1] != '/'))
  }

  lemma ResolveRelConfined(fs: Node, base: Path, rel: string)
    requires base != [] && ValidPath(base) && Lookup(fs, base).Some?
    requires ".." !in Split(rel) && CleanRel(rel)
    ensures var f := ResolveRel(fs, base, rel);
      base <= f.dir && Lookup(fs, f.dir).Some? && CleanRel(f.rel)
  {
    ResolveRelFallback(fs, base, rel);
    var home := "Home";
    assert NoDoubleDot(home) by {
      assert forall i :: 0 <= i < |home| - 1 ==> home[i] != '.';
    }
  }

  /**
   * The folder that results always exists and lies inside the sandbox, and its
   * relative name holds no ".." and no slash at either end.
   */
  lemma ResolveFolderConfined(fs: Node, base: Path, folder: string)
    requires base != [] && ValidPath(base) && Lookup(fs, base).Some?
    ensures var f := ResolveFolder(fs, base, folder);
      base <= f.dir && Lookup(fs, f.dir).Some? && CleanRel(f.rel)
  {
    FolderRelClean(folder);
    ResolveRelConfined(fs, base, FolderRel(folder));
  }

  // ---------------------------------------------------------------------
  // Names joined to the current folder without a prefix test
  // ---------------------------------------------------------------------

  /** n ".." pieces. */
  function Ups(n: nat): (r: seq<string>)
    ensures |r| == n && forall i :: 0 <= i < n ==> r[i] == ".."
  {
    if n == 0 then [] else Ups(n - 1) + [".."]
  }

  /** `explode` undoes `implode` when no piece holds a slash. */
  lemma {:induction false} SplitJoin(parts: seq<string>)
    requires parts != [] && NoSlashes(parts)
    ensures Split(Join(parts)) == parts
    decreases |parts|
  {
    if |parts| == 1 {
      SplitNoSlash(parts[0]);
    } else {
      SplitConcat(parts[0], Join(parts[1..]));
      SplitNoSlash(parts[0]);
      SplitJoin(parts[1..]);
      assert parts == [parts[0]] + parts[1..];
    }
  }

  /** Each ".." shortens a path by one segment, down to the root. */
  lemma {:induction false} ResolveUpsLength(acc: Path, n: nat)
    ensures var r := Resolve(acc, Ups(n)); |r| == if n <= |acc| then |acc| - n else 0
    ensures n <= |acc| ==> Resolve(acc, Ups(n)) == acc[..|acc| - n]
    decreases n
  {
    if n > 0 {
      ResolveConcat(acc, Ups(n - 1), [".."]);
      ResolveUpsLength(acc, n - 1);
    }
  }

  lemma UpsNoSlashes(n: nat, target: Path)
    requires ValidPath(target)
    ensures NoSlashes(Ups(n) + target)
  {
    var ups := Ups(n);
    forall i | 0 <= i < |ups + target|
      ensures '/' !in (ups + target)[i]
    {
      if i < n {
        assert (ups + target)[i] == "..";
      } else {
        assert (ups + target)[i] == target[i - n];
        assert ValidSegment(target[i - n]);
      }
    }
  }

  /**
   * A name joined to the current folder reaches any path at all: enough ".." pieces
   * climb to the root, and the rest descends wherever the caller likes.
   */
  lemma ReachAnywhere(cur: Path, target: Path)
    requires cur != [] && ValidPath(cur) && ValidPath(target)
    ensures Normalize(Abs(cur) + "/" + Join(Ups(|cur|) + target)) == target
  {
    var segs := Ups(|cur|) + target;
    UpsNoSlashes(|cur|, target);
    var rel := Join(segs);
    SplitJoin(segs);
    assert Split(rel) == segs;
    RealpathUnder(cur, rel);
    assert Normalize(Abs(cur) + "/" + rel) == Resolve(cur, segs);
    ResolveConcat(cur, Ups(|cur|), target);
    ResolveUpsLength(cur, |cur|);
    assert Resolve(cur, Ups(|cur|)) == [];
    ResolveCanonical([], target);
    assert [] + target == target;
  }
}
