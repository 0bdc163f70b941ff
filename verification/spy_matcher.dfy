/** The matcher of the `spy` package (spy/matcher.go): one glob pattern
    compiled into a file-scope and a directory-scope predicate, plus the
    rules for hidden entries, include/exclude polarity and directory
    descent. */
module SpyMatcher {
  import opened Wrappers
  import opened Paths
  import opened Glob
  import opened Readings

  /** A pattern as `set` stores it: the pattern text after completion,
      whether it covers every file below its directory, and the
      directory-scope pattern. */
  datatype Pattern = Pattern(str: string, allFiles: bool, dirGlob: string)

  /** `hidden` admits entries whose base name starts with '.'; `includes` is
      the polarity; without a pattern every visible path matches. */
  datatype Matcher = Matcher(hidden: bool, includes: bool, pattern: Option<Pattern>)

  /** The matcher a session starts from: include polarity, hidden entries
      rejected, no pattern. */
  const Fresh := Matcher(false, true, None)

  /** What a pattern naming a directory is completed with. */
  const EveryFile := "**/*"

  /** A pattern whose last '/' is its last character; the empty pattern
      counts, its last '/' being "at" index -1. */
  predicate NamesDirectory(str: string) {
    str == [] || str[|str| - 1] == '/'
  }

  /** The pattern text `set` stores: a directory pattern completed with
      `EveryFile`, anything else unchanged. */
  function Completed(str: string): (s: string)
    ensures NamesDirectory(str) ==> s == str + EveryFile
    ensures !NamesDirectory(str) ==> s == str
  {
    if LastSlash(str) == |str| - 1 then str + EveryFile else str
  }

  /** `set`, as written: the directory scope is cut at the last '/' of the
      pattern as given, before completion. */
  function Set(m: Matcher, str: string): (r: Matcher)
    ensures r.hidden == m.hidden && r.includes == m.includes && r.pattern.Some?
    ensures r.pattern.value.str == Completed(str)
    ensures r.pattern.value.allFiles <==> HasSuffix(r.pattern.value.str, EveryFile)
  {
    var s := Completed(str);
    m.(pattern := Some(Pattern(s, HasSuffix(s, EveryFile), str[..LastSlash(str) + 1])))
  }

  /** As written, the directory scope is the directory part of the pattern
      as given: the prefix through its last '/', or empty without one. */
  lemma SetScope(m: Matcher, str: string)
    ensures DirPart(str, Set(m, str).pattern.value.dirGlob)
  {
    LastSlashDirPart(str);
  }

  /** `s` holds "/**/" at position `j`. */
  predicate DeepAt(s: string, j: int) {
    0 <= j && j + 4 <= |s| && s[j..j + 4] == "/**/"
  }

  /** The first "/**/" of `s` at or after `k`, which is where reading the
      pattern left to right meets its first `All` token. */
  function FirstDeepFrom(s: string, k: nat): (r: Option<nat>)
    ensures r.Some? ==> k <= r.value && DeepAt(s, r.value)
    ensures r.Some? ==> forall j :: k <= j < r.value ==> !DeepAt(s, j)
    ensures r.None? ==> forall j :: k <= j ==> !DeepAt(s, j)
    decreases |s| - k
  {
    if k + 4 > |s| then None
    else if DeepAt(s, k) then Some(k)
    else FirstDeepFrom(s, k + 1)
  }

  /** The intended directory scope of a completed pattern `s`: through its
      first "/**/" when it has one, since every directory below that point
      may hold a match; otherwise its directory part. */
  predicate IntendedScopeOf(s: string, d: string) {
    if exists j :: 0 <= j < |s| && DeepAt(s, j) then
      HasPrefix(s, d) && |d| >= 4 && DeepAt(d, |d| - 4) &&
      forall j :: 0 <= j < |d| - 4 ==> !DeepAt(s, j)
    else DirPart(s, d)
  }

  /** `set` as evidently intended: the directory scope is cut from the
      completed pattern, so `dir/` gets the scope `dir/**/`, and it ends at
      the first "/**/", so `a/**/b/c` gets the scope `a/**/`. */
  function SetIntended(m: Matcher, str: string): (r: Matcher)
    ensures r.hidden == m.hidden && r.includes == m.includes && r.pattern.Some?
    ensures r.pattern.value.str == Completed(str)
    ensures r.pattern.value.allFiles <==> HasSuffix(r.pattern.value.str, EveryFile)
  {
    var s := Completed(str);
    var cut := match FirstDeepFrom(s, 0) case Some(i) => i + 4 case None => LastSlash(s) + 1;
    m.(pattern := Some(Pattern(s, HasSuffix(s, EveryFile), s[..cut])))
  }

  /** Read as intended, the directory scope is the intended scope of the
      completed pattern. */
  lemma IntendedScope(m: Matcher, str: string)
    ensures IntendedScopeOf(Completed(str), SetIntended(m, str).pattern.value.dirGlob)
  {
    var s := Completed(str);
    var d := SetIntended(m, str).pattern.value.dirGlob;
    match FirstDeepFrom(s, 0)
    case Some(i) =>
      assert d == s[..i + 4];
      assert d[i..i + 4] == s[i..i + 4];
    case None =>
      LastSlashDirPart(s);
  }

  /** The directory scope `set` gives `str` in the chosen reading. */
  predicate ScopeOf(rd: Reading, str: string, d: string) {
    if rd == AsWritten then DirPart(str, d) else IntendedScopeOf(Completed(str), d)
  }

  /** `set` in either reading. */
  function SetAs(rd: Reading, m: Matcher, str: string): (r: Matcher)
    ensures r.hidden == m.hidden && r.includes == m.includes && r.pattern.Some?
    ensures r.pattern.value.str == Completed(str)
    ensures r.pattern.value.allFiles <==> HasSuffix(r.pattern.value.str, EveryFile)
    ensures ScopeOf(rd, str, r.pattern.value.dirGlob)
  {
    if rd == AsWritten then SetScope(m, str); Set(m, str)
    else IntendedScope(m, str); SetIntended(m, str)
  }

  /** Keep a match under include, invert it under exclude. */
  function Flip(m: Matcher, b: bool): (r: bool)
    ensures r <==> (b <==> m.includes)
  {
    if !m.includes then !b else b
  }

  /** The hidden-entry rule lets `s` through. */
  predicate Visible(m: Matcher, s: string) {
    m.hidden || !IsHidden(s)
  }

  function Match(m: Matcher, isFile: bool, s: string): bool {
    if !Visible(m, s) then false
    else if m.pattern.Some? && isFile then Flip(m, GlobMatch(m.pattern.value.str, s))
    else if m.pattern.Some? then
      if !m.includes && !m.pattern.value.allFiles then true
      else
        var d := WithSlash(s);
        if m.includes && HasPrefix(m.pattern.value.str, d) then true
        else Flip(m, GlobMatch(m.pattern.value.dirGlob, d))
    else true
  }

  function MatchFile(m: Matcher, s: string): (r: bool)
    ensures r ==> Visible(m, s)
  {
    Match(m, true, s)
  }

  function MatchDir(m: Matcher, s: string): (r: bool)
    ensures r ==> Visible(m, s)
  {
    Match(m, false, s)
  }

  // ---------------------------------------------------------------------
  // The rules one at a time

  /** Unless hidden entries are admitted, a path whose base name starts
      with '.' is neither a file nor a directory of interest. */
  lemma HiddenRejected(m: Matcher, s: string)
    requires !m.hidden && IsHidden(s)
    ensures !MatchFile(m, s) && !MatchDir(m, s)
  {
  }

  /** Without a pattern, exactly the visible paths match. */
  lemma Unconfigured(m: Matcher, s: string)
    requires m.pattern.None?
    ensures MatchFile(m, s) == Visible(m, s) && MatchDir(m, s) == Visible(m, s)
  {
  }

  /** A visible file matches exactly when the glob's verdict agrees with
      the polarity. */
  lemma FileRule(m: Matcher, s: string)
    requires m.pattern.Some?
    ensures MatchFile(m, s) <==> Visible(m, s) && (GlobMatch(m.pattern.value.str, s) <==> m.includes)
  {
  }

  /** Excluding only some files below a directory forces descent
      everywhere. */
  lemma ExcludeSomeDescends(m: Matcher, s: string)
    requires m.pattern.Some? && !m.includes && !m.pattern.value.allFiles
    ensures MatchDir(m, s) == Visible(m, s)
  {
  }

  /** Otherwise a directory, taken with a trailing '/', is accepted when
      it leads toward the pattern (include only) or when the directory
      scope's verdict agrees with the polarity. */
  lemma DirRule(m: Matcher, s: string)
    requires m.pattern.Some? && (m.includes || m.pattern.value.allFiles)
    ensures MatchDir(m, s) <==>
            Visible(m, s) &&
            ((m.includes && HasPrefix(m.pattern.value.str, WithSlash(s))) ||
             (GlobMatch(m.pattern.value.dirGlob, WithSlash(s)) <==> m.includes))
  {
  }

  // ---------------------------------------------------------------------
  // Deep patterns `a/**/b`, where `b` names files within one directory

  /** `m` holds the pattern `str` with the directory scope `dir`. */
  predicate Holds(m: Matcher, str: string, dir: string) {
    m.pattern == Some(Pattern(str, HasSuffix(str, EveryFile), dir))
  }

  /** As written, the scope of a pattern ending in a name `c` is everything
      before that name. */
  lemma ScopeBeforeLastName(m: Matcher, q: string, c: string)
    requires c != [] && NoSlash(c)
    ensures Holds(Set(m, q + "/" + c), q + "/" + c, q + "/")
  {
    var p := q + "/" + c;
    assert p[|p| - 1] == c[|c| - 1];
    assert p[|q|] == '/';
    forall j | |q| < j < |p|
      ensures p[j] != '/'
    {
      assert p[j] == c[j - |q| - 1];
    }
    LastSlashAt(p, |q|);
    assert p[..|q| + 1] == q + "/";
  }

  /** The directory scope of `a/**/b`, for a one-segment tail `b`, is
      `a/**/`. */
  lemma DeepPatternScope(m: Matcher, a: string, b: string)
    requires b != [] && NoSlash(b)
    ensures Holds(Set(m, a + "/**/" + b), a + "/**/" + b, a + "/**/")
  {
    ScopeBeforeLastName(m, a + "/**", b);
    assert a + "/**" + "/" + b == a + "/**/" + b;
    assert a + "/**" + "/" == a + "/**/";
  }

  /** Under include, the directories accepted for `a/**/b` are the
      `/`-terminated prefixes of the pattern and `a/` followed by whole
      `name/` groups: the pattern's lineage and nothing else. */
  lemma IncludeDeepLineage(m: Matcher, a: string, b: string, d: string)
    requires m.includes && Holds(m, a + "/**/" + b, a + "/**/") && NoStar(a) && Visible(m, d)
    ensures MatchDir(m, d) <==>
            HasPrefix(a + "/**/" + b, WithSlash(d)) || DeepShape(a, "", WithSlash(d))
  {
    AnyDepth(a, "", WithSlash(d));
    assert a + "/**/" + "" == a + "/**/";
  }

  /** Pruning is sound for `a/**/b` under include: every visible directory
      on the way to a matching file is accepted, so the recursive walk
      reaches the file's directory. */
  lemma IncludeKeepsAncestors(m: Matcher, a: string, b: string, f: string, d: string)
    requires m.includes && Holds(m, a + "/**/" + b, a + "/**/")
    requires NoStar(a) && NoSlash(b) && b != [] && Visible(m, d)
    requires MatchFile(m, f) && HasPrefix(f, WithSlash(d))
    ensures MatchDir(m, d)
  {
    FileRule(m, f);
    DeepMatchAncestor(a, b, f, WithSlash(d));
  }

  // ---------------------------------------------------------------------
  // Deep patterns `a/**/b/c`, whose tail spans more than one segment

  /** As written, the scope of `a/**/b/c` is `a/**/b/`: a directory
      `a/x` whose name differs from `b` is pruned, although the pattern
      matches the file `a/x/b/c` below it. */
  lemma DeepTailPrunedAsWritten(m: Matcher, a: string, b: string, c: string, x: string)
    requires m.includes && NoStar(a)
    requires b != [] && NoSlash(b) && NoStar(b) && c != [] && NoSlash(c) && NoStar(c)
    requires x != [] && NoSlash(x) && NoStar(x) && x != b
    requires Visible(m, a + "/" + x + "/" + b + "/" + c)
    ensures MatchFile(Set(m, a + "/**/" + b + "/" + c), a + "/" + x + "/" + b + "/" + c)
    ensures !MatchDir(Set(m, a + "/**/" + b + "/" + c), a + "/" + x)
  {
    var p := a + "/**/" + b + "/" + c;
    var q := a + "/**/" + b;
    assert p == q + "/" + c;
    ScopeBeforeLastName(m, q, c);
    var n := Set(m, p);
    DeepTailFile(a, b, c, x);
    FileRule(n, a + "/" + x + "/" + b + "/" + c);
    DeepTailDirOutside(a, b, c, x);
    SubdirSlashed(a, x);
    DirRule(n, a + "/" + x);
  }

  lemma DeepTailFile(a: string, b: string, c: string, x: string)
    requires NoStar(a) && NoStar(b) && NoStar(c) && x != [] && NoSlash(x)
    ensures GlobMatch(a + "/**/" + b + "/" + c, a + "/" + x + "/" + b + "/" + c)
  {
    var f := a + "/" + x + "/" + b + "/" + c;
    SegmentsCons(x, "");
    assert NoStar(b + "/" + c);
    assert f == a + "/" + (x + "/" + "") + (b + "/" + c);
    AnyDepthWith(a, b + "/" + c, x + "/" + "", f);
    assert a + "/**/" + (b + "/" + c) == a + "/**/" + b + "/" + c;
  }

  /** `a/x/` neither starts the pattern `a/**/b/c` nor lies in `a/**/b/`. */
  lemma DeepTailDirOutside(a: string, b: string, c: string, x: string)
    requires NoStar(a) && NoStar(b) && b != [] && x != [] && NoSlash(x) && NoStar(x) && x != b
    ensures !HasPrefix(a + "/**/" + b + "/" + c, a + "/" + x + "/")
    ensures !GlobMatch(a + "/**/" + b + "/", a + "/" + x + "/")
  {
    var p := a + "/**/" + b + "/" + c;
    var y := a + "/" + x + "/";
    assert y[|a| + 1] == x[0] != '*';
    assert p[|a| + 1] == '*';
    assert |y| <= |p| ==> p[..|y|][|a| + 1] == p[|a| + 1];
    assert NoStar(b + "/");
    AnyDepth(a, b + "/", y);
    assert a + "/**/" + (b + "/") == a + "/**/" + b + "/";
    assert y[|a| + 1..] == x + "/";
    NameTail(b, x);
  }

  /** A single name `x/` ends in the groups-then-`b/` shape only when it
      is `b/` itself: any group before `b/` would put a `/` inside `x`. */
  lemma NameTail(b: string, x: string)
    requires b != [] && NoSlash(x)
    ensures DeepTail(b + "/", x + "/") ==> x == b
  {
    var u := x + "/";
    if |b| + 1 <= |u| {
      var g := u[..|u| - |b| - 1];
      if g != [] {
        var i := FirstSlash(g);
        assert Segments(g) ==> i >= 0;
        assert i >= 0 ==> g[i] == x[i];
      } else {
        assert HasSuffix(u, b + "/") ==> u == b + "/";
        assert u[..|x|] == x && (b + "/")[..|b|] == b;
      }
    }
  }

  /** Read as intended, the scope of `a/**/b` is `a/**/` whatever `b` is,
      and it accepts every visible directory below `a`: every directory
      that can hold a file the pattern matches is descended into. */
  lemma IntendedKeepsAncestors(m: Matcher, a: string, b: string, v: string)
    requires m.includes && NoStar(a)
    requires v != [] && v[|v| - 1] != '/' && Segments(v + "/")
    requires Visible(m, a + "/" + v)
    ensures MatchDir(SetIntended(m, a + "/**/" + b), a + "/" + v)
  {
    var n := SetIntended(m, a + "/**/" + b);
    IntendedDeepScope(m, a, b);
    BelowInDeepScope(a, v);
    DirRule(n, a + "/" + v);
  }

  lemma BelowInDeepScope(a: string, v: string)
    requires NoStar(a) && v != [] && v[|v| - 1] != '/' && Segments(v + "/")
    ensures WithSlash(a + "/" + v) == a + "/" + v + "/"
    ensures GlobMatch(a + "/**/", a + "/" + v + "/")
  {
    var d := a + "/" + v;
    assert d[|d| - 1] == v[|v| - 1];
    AnyDepthWith(a, "", v + "/", d + "/");
    assert a + "/**/" + "" == a + "/**/";
  }

  /** Excluding `a/**/*` prunes only directories all of whose files are
      excluded anyway. */
  lemma ExcludeDeepPrunesOnlyExcluded(m: Matcher, a: string, d: string, mid: string, w: string)
    requires !m.includes && Holds(m, a + "/**/*", a + "/**/") && NoStar(a) && Visible(m, d)
    requires Segments(mid) && w != [] && NoSlash(w)
    requires !MatchDir(m, d)
    ensures !MatchFile(m, WithSlash(d) + mid + w)
  {
    var x := WithSlash(d);
    assert HasSuffix(a + "/**/*", EveryFile);
    var u := DeepDirShape(a, x);
    SegmentsAppend(u, mid);
    GroupBelow(a, u, mid, w);
    DeepStarFile(a, "", u + mid, w, x + mid + w);
    assert a + "/**/*" + "" == a + "/**/*";
  }

  lemma GroupBelow(a: string, u: string, mid: string, w: string)
    ensures a + "/" + u + mid + w == a + "/" + (u + mid) + w + ""
  {
  }

  // ---------------------------------------------------------------------
  // Directory patterns `a/`

  /** `a/` is stored as `a/**/*` under both readings of `set`. */
  lemma DirectoryPatternCompleted(a: string)
    ensures Completed(a + "/") == a + "/**/*"
  {
    assert (a + "/")[|a + "/"| - 1] == '/';
  }

  /** As written, `set` gives `a/` the directory scope `a/`. */
  lemma DirectoryPatternScope(m: Matcher, a: string)
    ensures Holds(Set(m, a + "/"), a + "/**/*", a + "/")
  {
    var p := a + "/";
    DirectoryPatternCompleted(a);
    LastSlashAt(p, |a|);
    assert p[..|a| + 1] == p;
    assert HasSuffix(a + "/**/*", EveryFile);
  }

  /** No "/**/" starts inside a star-free head `a`. */
  lemma NoDeepInHead(a: string, b: string, j: int)
    requires NoStar(a) && 0 <= j < |a|
    ensures !DeepAt(a + "/**/" + b, j)
  {
    var s := a + "/**/" + b;
    assert s[j + 1] != '*' by {
      if j + 1 < |a| {
        assert s[j + 1] == a[j + 1];
      }
    }
    assert j + 4 <= |s| ==> s[j..j + 4][1] == s[j + 1];
  }

  /** The first "/**/" of a pattern with a star-free head `a` is the one
      right after `a`. */
  lemma FirstDeepAfterHead(a: string, b: string)
    requires NoStar(a)
    ensures FirstDeepFrom(a + "/**/" + b, 0) == Some(|a|)
  {
    var s := a + "/**/" + b;
    assert s[|a|..|a| + 4] == "/**/";
    assert DeepAt(s, |a|);
    var r := FirstDeepFrom(s, 0);
    if r.value < |a| {
      NoDeepInHead(a, b, r.value);
    }
  }

  /** Read as intended, a pattern with a star-free head `a` and a "/**/"
      after it gets the scope `a/**/`, whatever follows. */
  lemma IntendedDeepScope(m: Matcher, a: string, b: string)
    requires NoStar(a)
    ensures SetIntended(m, a + "/**/" + b).pattern.value.dirGlob == a + "/**/"
  {
    var str := a + "/**/" + b;
    var s := Completed(str);
    var b' := if NamesDirectory(str) then b + EveryFile else b;
    assert s == a + "/**/" + b';
    FirstDeepAfterHead(a, b');
    assert s[..|a| + 4] == a + "/**/";
  }

  /** The intended reading of `a/` is the explicit pattern `a/**/*`. */
  lemma IntendedDirectoryPattern(m: Matcher, a: string)
    requires NoStar(a)
    ensures SetIntended(m, a + "/") == Set(m, a + "/**/*")
    ensures Holds(SetIntended(m, a + "/"), a + "/**/*", a + "/**/")
  {
    DirectoryPatternCompleted(a);
    var p := a + "/**/*";
    assert !NamesDirectory(p);
    DeepPatternScope(m, a, "*");
    assert a + "/**/" + "*" == p;
    FirstDeepAfterHead(a, "*");
    assert p[..|a| + 4] == a + "/**/";
    assert HasSuffix(p, EveryFile);
  }

  /** The two readings differ only on patterns naming a directory and on
      patterns holding "/**/". */
  lemma IntendedAgrees(m: Matcher, str: string)
    requires !NamesDirectory(str)
    requires forall j :: 0 <= j < |str| ==> !DeepAt(str, j)
    ensures SetIntended(m, str) == Set(m, str)
  {
  }

  /** A pattern `a/**/*` accepts every visible file at least one
      directory below `a`. */
  lemma DeepFileAccepted(m: Matcher, a: string, dir: string, name: string, w: string)
    requires m.includes && Holds(m, a + "/**/*", dir) && NoStar(a)
    requires name != [] && NoSlash(name) && w != [] && NoSlash(w)
    requires Visible(m, a + "/" + name + "/" + w)
    ensures MatchFile(m, a + "/" + name + "/" + w)
  {
    FileTwoBelow(a, name, w);
    FileRule(m, a + "/" + name + "/" + w);
  }

  lemma FileTwoBelow(a: string, name: string, w: string)
    requires NoStar(a) && name != [] && NoSlash(name) && w != [] && NoSlash(w)
    ensures GlobMatch(a + "/**/*", a + "/" + name + "/" + w)
  {
    var f := a + "/" + name + "/" + w;
    SegmentsCons(name, "");
    DeepStarFile(a, "", name + "/" + "", w, f);
    assert a + "/**/*" + "" == a + "/**/*";
    assert a + "/" + (name + "/" + "") + w + "" == f;
  }

  /** With the scope `a/`, including `a/**/*` rejects every subdirectory
      of `a`. */
  lemma ShallowScopeRejectsSubdir(m: Matcher, a: string, name: string)
    requires m.includes && Holds(m, a + "/**/*", a + "/") && NoStar(a)
    requires name != [] && NoSlash(name) && NoStar(name)
    ensures !MatchDir(m, a + "/" + name)
  {
    var d := a + "/" + name;
    assert d[|d| - 1] == name[|name| - 1];
    var x := d + "/";
    assert WithSlash(d) == x;
    assert x[|a| + 1] == name[0];
    assert (a + "/**/*")[|a| + 1] == '*';
    assert !HasPrefix(a + "/**/*", x);
    LiteralPattern(a + "/", x);
  }

  /** With the scope `a/**/`, including `a/**/*` accepts every visible
      subdirectory of `a`. */
  lemma DeepScopeAcceptsSubdir(m: Matcher, a: string, name: string)
    requires m.includes && Holds(m, a + "/**/*", a + "/**/") && NoStar(a)
    requires name != [] && NoSlash(name) && Visible(m, a + "/" + name)
    ensures MatchDir(m, a + "/" + name)
  {
    SubdirSlashed(a, name);
    SubdirInDeepScope(a, name);
    DirRule(m, a + "/" + name);
  }

  lemma SubdirSlashed(a: string, name: string)
    requires name != [] && NoSlash(name)
    ensures WithSlash(a + "/" + name) == a + "/" + name + "/"
  {
    var d := a + "/" + name;
    assert d[|d| - 1] == name[|name| - 1];
  }

  lemma SubdirInDeepScope(a: string, name: string)
    requires NoStar(a) && name != [] && NoSlash(name)
    ensures GlobMatch(a + "/**/", a + "/" + name + "/")
  {
    SegmentsCons(name, "");
    AnyDepthWith(a, "", name + "/" + "", a + "/" + name + "/");
    assert a + "/**/" + "" == a + "/**/";
  }

  /** With the scope `a/`, excluding `a/**/*` prunes only `a` itself, all
      of whose files are excluded. */
  lemma ShallowExcludePrunesOnlyExcluded(m: Matcher, a: string, d: string, mid: string, w: string)
    requires !m.includes && Holds(m, a + "/**/*", a + "/") && NoStar(a) && Visible(m, d)
    requires Segments(mid) && w != [] && NoSlash(w)
    requires !MatchDir(m, d)
    ensures WithSlash(d) == a + "/"
    ensures !MatchFile(m, WithSlash(d) + mid + w)
  {
    var x := WithSlash(d);
    assert HasSuffix(a + "/**/*", EveryFile);
    LiteralPattern(a + "/", x);
    DeepStarFile(a, "", mid, w, x + mid + w);
    assert a + "/**/*" + "" == a + "/**/*";
    assert a + "/" + mid + w + "" == x + mid + w;
  }

  /** As written, including `a/` accepts a file two levels below `a` but
      prunes the directory holding it, so the walk never watches it. */
  lemma DirectoryPatternPrunesSubdirs(m: Matcher, a: string, name: string, w: string)
    requires m.includes && NoStar(a)
    requires name != [] && NoSlash(name) && NoStar(name) && w != [] && NoSlash(w)
    requires Visible(m, a + "/" + name + "/" + w)
    ensures MatchFile(Set(m, a + "/"), a + "/" + name + "/" + w)
    ensures !MatchDir(Set(m, a + "/"), a + "/" + name)
  {
    DirectoryPatternScope(m, a);
    DeepFileAccepted(Set(m, a + "/"), a, a + "/", name, w);
    ShallowScopeRejectsSubdir(Set(m, a + "/"), a, name);
  }

  /** Read as intended, including `a/` accepts the directory the
      as-written reading prunes. */
  lemma IntendedDescendsIntoSubdirs(m: Matcher, a: string, name: string)
    requires m.includes && NoStar(a)
    requires name != [] && NoSlash(name) && Visible(m, a + "/" + name)
    ensures MatchDir(SetIntended(m, a + "/"), a + "/" + name)
  {
    IntendedDirectoryPattern(m, a);
    DeepScopeAcceptsSubdir(SetIntended(m, a + "/"), a, name);
  }

  /** Excluding `a/` as written is sound. */
  lemma ExcludeDirectoryPrunesOnlyExcluded(m: Matcher, a: string, d: string, mid: string, w: string)
    requires !m.includes && NoStar(a) && Visible(m, d)
    requires Segments(mid) && w != [] && NoSlash(w)
    requires !MatchDir(Set(m, a + "/"), d)
    ensures !MatchFile(Set(m, a + "/"), WithSlash(d) + mid + w)
  {
    DirectoryPatternScope(m, a);
    ShallowExcludePrunesOnlyExcluded(Set(m, a + "/"), a, d, mid, w);
  }

  // ---------------------------------------------------------------------
  // Worked examples, for any session root `r` without a '*'

  /** A name that the hidden-entry rule lets through, under any directory. */
  lemma VisibleChild(m: Matcher, d: string, n: string)
    requires n != [] && NoSlash(n) && n[0] != '.'
    ensures Visible(m, d + "/" + n)
  {
    BaseOfChild(d, n);
  }

  /** Including `src/**/*.go` under `r` stores that pattern with the
      directory scope `r/src/**/`. */
  lemma GoSourcesScope(m: Matcher, r: string)
    ensures Holds(Set(m, r + "/src/**/*.go"), r + "/src/**/*.go", r + "/src/**/")
  {
    var a, b := r + "/src", "*.go";
    assert a + "/**/" + b == r + "/src/**/*.go";
    assert a + "/**/" == r + "/src/**/";
    DeepPatternScope(m, a, b);
  }

  /** With that pattern, a Go file two levels down matches, a file outside
      `src` does not, and `src/pkg` is descended into. */
  lemma GoSourcesExample(m: Matcher, r: string)
    requires m.includes && NoStar(r)
    requires Holds(m, r + "/src/**/*.go", r + "/src/**/")
    ensures MatchFile(m, r + "/src/pkg/a.go")
    ensures !MatchFile(m, r + "/README.md")
    ensures MatchDir(m, r + "/src/pkg")
  {
    var a := r + "/src";
    assert NoStar(a);
    GoFileExample(m, r, a);
    ReadmeExample(m, r, a);
    PkgDirExample(m, r, a);
  }

  lemma GoFileExample(m: Matcher, r: string, a: string)
    requires a == r + "/src" && NoStar(a) && m.includes
    requires Holds(m, r + "/src/**/*.go", r + "/src/**/")
    ensures MatchFile(m, r + "/src/pkg/a.go")
  {
    var f := r + "/src/pkg/a.go";
    assert r + "/src/**/*.go" == a + "/**/*" + ".go";
    SegmentsCons("pkg", "");
    assert f == a + "/" + ("pkg" + "/" + "") + "a" + ".go";
    DeepStarFile(a, ".go", "pkg" + "/" + "", "a", f);
    assert f == (a + "/pkg") + "/" + "a.go";
    VisibleChild(m, a + "/pkg", "a.go");
    FileRule(m, f);
  }

  lemma ReadmeExample(m: Matcher, r: string, a: string)
    requires a == r + "/src" && NoStar(a) && m.includes
    requires Holds(m, r + "/src/**/*.go", r + "/src/**/")
    ensures !MatchFile(m, r + "/README.md")
  {
    var f := r + "/README.md";
    assert r + "/src/**/*.go" == a + "/**/" + "*.go";
    DeepNeedsHead(a, "*.go", f);
    assert f[|r| + 1] != (a + "/")[|r| + 1];
    FileRule(m, f);
  }

  lemma PkgDirExample(m: Matcher, r: string, a: string)
    requires a == r + "/src" && NoStar(a) && m.includes
    requires Holds(m, r + "/src/**/*.go", r + "/src/**/")
    ensures MatchDir(m, r + "/src/pkg")
  {
    var d := r + "/src/pkg";
    assert d == a + "/" + "pkg";
    assert r + "/src/**/" == a + "/**/";
    SubdirSlashed(a, "pkg");
    SubdirInDeepScope(a, "pkg");
    VisibleChild(m, a, "pkg");
    DirRule(m, d);
  }

  /** Excluding the names directly inside `r/tmp` (a star after the last
      '/') stores the pattern as given, not covering every file. */
  lemma TmpNamesScope(m: Matcher, r: string)
    ensures Set(m, r + "/tmp/*").pattern.value.str == r + "/tmp/*"
    ensures !Set(m, r + "/tmp/*").pattern.value.allFiles
  {
    var p := r + "/tmp/*";
    assert p[|p| - 1] == '*';
    assert p[|p| - 4..][0] == 'm' != EveryFile[0];
  }

  /** With that pattern `tmp` is still descended into, the files directly
      inside it are excluded, and other files are not. */
  lemma TmpNamesExample(m: Matcher, r: string)
    requires !m.includes && NoStar(r) && m.pattern.Some?
    requires m.pattern.value.str == r + "/tmp/*" && !m.pattern.value.allFiles
    ensures MatchDir(m, r + "/tmp")
    ensures !MatchFile(m, r + "/tmp/x.log")
    ensures MatchFile(m, r + "/main.go")
  {
    var a := r + "/tmp";
    assert NoStar(a);
    assert a + "/*" == r + "/tmp/*";
    TmpDirExample(m, r, a);
    TmpFileExample(m, r, a);
    MainFileExample(m, r, a);
  }

  lemma TmpDirExample(m: Matcher, r: string, a: string)
    requires a == r + "/tmp" && !m.includes && m.pattern.Some? && !m.pattern.value.allFiles
    ensures MatchDir(m, r + "/tmp")
  {
    assert a == r + "/" + "tmp";
    VisibleChild(m, r, "tmp");
    ExcludeSomeDescends(m, a);
  }

  lemma TmpFileExample(m: Matcher, r: string, a: string)
    requires a == r + "/tmp" && NoStar(a) && !m.includes
    requires m.pattern.Some? && m.pattern.value.str == a + "/*"
    ensures !MatchFile(m, r + "/tmp/x.log")
  {
    var x := r + "/tmp/x.log";
    assert x == a + "/" + "x.log";
    StarFile(a, x);
    assert x[|a| + 1..] == "x.log";
    FileRule(m, x);
  }

  lemma MainFileExample(m: Matcher, r: string, a: string)
    requires a == r + "/tmp" && NoStar(a) && !m.includes
    requires m.pattern.Some? && m.pattern.value.str == a + "/*"
    ensures MatchFile(m, r + "/main.go")
  {
    var g := r + "/main.go";
    StarFile(a, g);
    assert g[|r| + 1] != (a + "/")[|r| + 1];
    assert g == r + "/" + "main.go";
    VisibleChild(m, r, "main.go");
    FileRule(m, g);
  }
}
