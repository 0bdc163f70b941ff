/** The older matcher of the `watcher` package (watcher/matcher.go): the
    same glob semantics, no completion of directory patterns, and
    directory rules that apply under include polarity only. */
module WatcherMatcher {
  import opened Wrappers
  import opened Paths
  import opened Glob
  import SpyMatcher

  /** The pattern as given and its directory-scope pattern. */
  datatype Pattern = Pattern(str: string, dirGlob: string)

  /** `includes` is the polarity; without a pattern every visible path
      matches. */
  datatype Matcher = Matcher(hidden: bool, includes: bool, pattern: Option<Pattern>)

  /** `glob`: the pattern is stored as given, and the directory scope is
      cut at its last '/'. */
  function SetGlob(m: Matcher, str: string): (r: Matcher)
    ensures r.hidden == m.hidden && r.includes == m.includes
    ensures r.pattern.Some? && r.pattern.value.str == str
  {
    m.(pattern := Some(Pattern(str, str[..LastSlash(str) + 1])))
  }

  /** The directory scope is the directory part of the pattern. */
  lemma GlobScope(m: Matcher, str: string)
    ensures DirPart(str, SetGlob(m, str).pattern.value.dirGlob)
  {
    LastSlashDirPart(str);
  }

  /** Keep a match under include, invert it under exclude. */
  function Flip(m: Matcher, b: bool): (r: bool)
    ensures r <==> (b <==> m.includes)
  {
    if !m.includes then !b else b
  }

  /** The hidden-entry rule lets `s` through. */
  predicate Visible(m: Matcher, s: string) {
    m.hidden || !IsHidden(s)
  }

  function Match(m: Matcher, isFile: bool, s: string): bool {
    if !Visible(m, s) then false
    else if m.pattern.Some? && isFile then Flip(m, GlobMatch(m.pattern.value.str, s))
    else if m.includes && m.pattern.Some? && !isFile then
      var d := WithSlash(s);
      if HasPrefix(m.pattern.value.str, d) then true
      else Flip(m, GlobMatch(m.pattern.value.dirGlob, d))
    else true
  }

  function MatchFile(m: Matcher, s: string): (r: bool)
    ensures r ==> Visible(m, s)
  {
    Match(m, true, s)
  }

  function MatchDir(m: Matcher, s: string): (r: bool)
    ensures r ==> Visible(m, s)
  {
    Match(m, false, s)
  }

  // ---------------------------------------------------------------------
  // The rules one at a time

  lemma HiddenRejected(m: Matcher, s: string)
    requires !m.hidden && IsHidden(s)
    ensures !MatchFile(m, s) && !MatchDir(m, s)
  {
  }

  lemma Unconfigured(m: Matcher, s: string)
    requires m.pattern.None?
    ensures MatchFile(m, s) == Visible(m, s) && MatchDir(m, s) == Visible(m, s)
  {
  }

  lemma FileRule(m: Matcher, s: string)
    requires m.pattern.Some?
    ensures MatchFile(m, s) <==> Visible(m, s) && (GlobMatch(m.pattern.value.str, s) <==> m.includes)
  {
  }

  /** Under exclude every visible directory is descended into, whatever
      the pattern. */
  lemma ExcludeDescendsEverywhere(m: Matcher, s: string)
    requires !m.includes
    ensures MatchDir(m, s) == Visible(m, s)
  {
  }

  /** Under include a visible directory, taken with a trailing '/', is
      accepted when it leads toward the pattern or lies in the directory
      scope. */
  lemma IncludeDirRule(m: Matcher, s: string)
    requires m.includes && m.pattern.Some?
    ensures MatchDir(m, s) <==>
            Visible(m, s) &&
            (HasPrefix(m.pattern.value.str, WithSlash(s)) ||
             GlobMatch(m.pattern.value.dirGlob, WithSlash(s)))
  {
  }

  /** Pruning is sound for `a/**/b` under include, as for the spy
      matcher. */
  lemma IncludeKeepsAncestors(m: Matcher, a: string, b: string, f: string, d: string)
    requires m.includes && NoStar(a) && NoSlash(b) && b != [] && Visible(m, d)
    requires m.pattern == Some(Pattern(a + "/**/" + b, a + "/**/"))
    requires MatchFile(m, f) && HasPrefix(f, WithSlash(d))
    ensures MatchDir(m, d)
  {
    FileRule(m, f);
    DeepMatchAncestor(a, b, f, WithSlash(d));
  }

  // ---------------------------------------------------------------------
  // Agreement with the spy matcher

  /** The spy matcher's view of a watcher matcher: the same pattern
      without completion. */
  function AsSpy(m: Matcher): (r: SpyMatcher.Matcher)
    ensures r.hidden == m.hidden && r.includes == m.includes
    ensures r.pattern.Some? <==> m.pattern.Some?
  {
    SpyMatcher.Matcher(m.hidden, m.includes,
      if m.pattern.None? then None
      else
        var p := m.pattern.value;
        Some(SpyMatcher.Pattern(p.str, HasSuffix(p.str, SpyMatcher.EveryFile), p.dirGlob)))
  }

  /** On patterns that do not name a directory both `set` and `glob`
      store the same pattern and scope. */
  lemma SameStorage(m: Matcher, str: string)
    requires !SpyMatcher.NamesDirectory(str)
    ensures AsSpy(SetGlob(m, str)) == SpyMatcher.Set(AsSpy(m), str)
  {
  }

  /** Both matchers decide files alike. */
  lemma FilesAgree(m: Matcher, s: string)
    ensures MatchFile(m, s) == SpyMatcher.MatchFile(AsSpy(m), s)
  {
  }

  /** Under include both matchers decide directories alike. */
  lemma IncludeDirsAgree(m: Matcher, s: string)
    requires m.includes
    ensures MatchDir(m, s) == SpyMatcher.MatchDir(AsSpy(m), s)
  {
  }

  /** Under exclude they differ exactly where the spy matcher prunes: a
      visible directory in the scope of a pattern covering every file. */
  lemma ExcludeDirsDiffer(m: Matcher, s: string)
    requires !m.includes && m.pattern.Some?
    ensures MatchDir(m, s) != SpyMatcher.MatchDir(AsSpy(m), s) <==>
            Visible(m, s) && HasSuffix(m.pattern.value.str, SpyMatcher.EveryFile) &&
            GlobMatch(m.pattern.value.dirGlob, WithSlash(s))
  {
  }
}
