/** The watch manager of the older `watcher` package (watcher/watch.go):
    a de-duplicating recursive registration with a hidden-entry filter,
    the `unwatch` bookkeeping that ends the watcher when its directory
    goes, and the classification of change events. */
module WatcherSession {
  import opened Wrappers
  import opened Paths
  import opened FsTree
  import opened Readings

  /** `p` is `path` or lies below it. */
  predicate Below(p: string, path: string) {
    p == path || HasPrefix(p, path + "/")
  }

  lemma BelowChild(p: string, path: string, n: string)
    requires Below(p, path + "/" + n)
    ensures HasPrefix(p, path + "/") && p != path
  {
    assert (path + "/" + n)[..|path| + 1] == path + "/";
    if p != path + "/" + n {
      assert p[..|path + "/" + n|] == path + "/" + n;
      assert p[..|path| + 1] == (path + "/" + n)[..|path| + 1];
    }
  }

  /** `p` holds the name `n` at position `k`, followed by its end or a '/'. */
  predicate NamedAt(p: string, k: nat, n: string) {
    k + |n| <= |p| && p[k..k + |n|] == n && (|p| == k + |n| || p[k + |n|] == '/')
  }

  lemma BelowNamed(p: string, path: string, n: string)
    ensures Below(p, path + "/" + n) ==> NamedAt(p, |path| + 1, n)
  {
    var c := path + "/" + n;
    var k := |path| + 1;
    assert c[k..k + |n|] == n;
    if HasPrefix(p, c + "/") {
      assert p[..|c|] == (c + "/")[..|c|] == c;
      assert p[k..k + |n|] == c[k..k + |n|];
      assert p[|c|] == (c + "/")[|c|];
    }
  }

  /** Only one name without '/' can sit at a position. */
  lemma NamedAtUnique(p: string, k: nat, a: string, b: string)
    requires NoSlash(a) && NoSlash(b)
    ensures NamedAt(p, k, a) && NamedAt(p, k, b) ==> a == b
  {
    if NamedAt(p, k, a) && NamedAt(p, k, b) {
      assert forall i :: 0 <= i < |a| ==> p[k + i] == a[i];
      assert forall i :: 0 <= i < |b| ==> p[k + i] == b[i];
      assert |a| == |b|;
      assert a == p[k..k + |a|] == b;
    }
  }

  /** Below two different names of one directory lie different paths. */
  lemma BelowDistinct(p: string, path: string, a: string, b: string)
    requires IsName(a) && IsName(b) && a != b && Below(p, path + "/" + a)
    ensures !Below(p, path + "/" + b)
  {
    BelowNamed(p, path, a);
    BelowNamed(p, path, b);
    NamedAtUnique(p, |path| + 1, a, b);
  }

  // ---------------------------------------------------------------------
  // watch

  /** The watched set after a `watch` call, and the paths it newly
      registered, in order. */
  datatype Reg = Reg(watched: set<string>, added: seq<string>)

  /** `watch(path)` where `d` is the directory at `path`, with `skip` the
      hidden-entry test: a skipped or already watched path is left alone
      with everything below it; otherwise it is marked watched, registered
      (a registration error is ignored), and each subdirectory is watched
      at `path + "/" + name`. No path is registered twice. */
  function WatchFrom(skip: string -> bool, watched: set<string>, path: string, d: Dir): (r: Reg)
    ensures r.watched == watched + (set p | p in r.added)
    ensures forall k :: 0 <= k < |r.added| ==>
              r.added[k] !in watched && !skip(r.added[k]) && Below(r.added[k], path)
    ensures forall j, k :: 0 <= j < k < |r.added| ==> r.added[j] != r.added[k]
    decreases Size(d), 0
  {
    if skip(path) || path in watched then Reg(watched, [])
    else
      var rest := WatchChildrenFrom(skip, watched + {path}, path, d.subdirs);
      Reg(rest.watched, [path] + rest.added)
  }

  /** The recursion of `watch` over the listing of `path`; each child
      starts from the watched set the previous ones left. */
  function WatchChildrenFrom(skip: string -> bool, watched: set<string>, path: string, cs: seq<Dir>): (r: Reg)
    ensures r.watched == watched + (set p | p in r.added)
    ensures forall k :: 0 <= k < |r.added| ==>
              r.added[k] !in watched && !skip(r.added[k]) && HasPrefix(r.added[k], path + "/")
    ensures forall j, k :: 0 <= j < k < |r.added| ==> r.added[j] != r.added[k]
    decreases SizeAll(cs), 1
  {
    if cs == [] then Reg(watched, [])
    else
      var first := WatchFrom(skip, watched, path + "/" + cs[0].name, cs[0]);
      var rest := WatchChildrenFrom(skip, first.watched, path, cs[1..]);
      BelowChildren(first.added, path, cs[0].name);
      Reg(rest.watched, first.added + rest.added)
  }

  lemma BelowChildren(ps: seq<string>, path: string, n: string)
    requires forall k :: 0 <= k < |ps| ==> Below(ps[k], path + "/" + n)
    ensures forall k :: 0 <= k < |ps| ==> HasPrefix(ps[k], path + "/")
  {
    forall k | 0 <= k < |ps|
      ensures HasPrefix(ps[k], path + "/")
    {
      BelowChild(ps[k], path, n);
    }
  }

  /** The hidden-entry test of `watch` as written: a hidden path is
      skipped only when hidden entries are to be included. */
  function SkipAsWritten(includeHidden: bool): (skip: string -> bool)
    ensures forall p :: skip(p) == (includeHidden && IsHidden(p))
  {
    p => includeHidden && IsHidden(p)
  }

  /** The test `handleEvent` applies, and the one `watch` evidently
      intends: a hidden path is skipped unless hidden entries are to be
      included. */
  function SkipIntended(includeHidden: bool): (skip: string -> bool)
    ensures forall p :: skip(p) == (!includeHidden && IsHidden(p))
  {
    p => !includeHidden && IsHidden(p)
  }

  /** The hidden-entry test of `watch` in either reading. */
  predicate Skipped(rd: Reading, includeHidden: bool, p: string) {
    IsHidden(p) && (if rd == AsWritten then includeHidden else !includeHidden)
  }

  function Skip(rd: Reading, includeHidden: bool): (skip: string -> bool)
    ensures forall p :: skip(p) == Skipped(rd, includeHidden, p)
  {
    if rd == AsWritten then SkipAsWritten(includeHidden) else SkipIntended(includeHidden)
  }

  /** A listing of one entry is walked as that entry. */
  lemma OneChild(skip: string -> bool, watched: set<string>, path: string, c: Dir)
    ensures WatchChildrenFrom(skip, watched, path, [c]) == WatchFrom(skip, watched, path + "/" + c.name, c)
  {
    assert [c][1..] == [];
  }

  lemma HiddenChild(r: string, h: string)
    requires NoSlash(h) && h != [] && h[0] == '.'
    ensures IsHidden(r + "/" + h)
  {
    BaseOfChild(r, h);
  }

  /** As written, with hidden entries excluded (the default), a hidden
      subdirectory such as ".git" is watched ... */
  lemma HiddenWatchedAsWritten(watched: set<string>, r: string, n: string, h: string)
    requires NoSlash(h) && h != [] && h[0] == '.'
    requires r !in watched && r + "/" + h !in watched
    ensures r + "/" + h in WatchFrom(SkipAsWritten(false), watched, r, Dir(n, None, [Dir(h, None, [])])).added
    ensures IsHidden(r + "/" + h)
  {
    var skip := SkipAsWritten(false);
    OneChild(skip, watched + {r}, r, Dir(h, None, []));
    LeafAdded(skip, watched + {r}, r + "/" + h, h);
    HiddenChild(r, h);
  }

  /** ... and with hidden entries included, it is skipped. */
  lemma HiddenSkippedAsWritten(watched: set<string>, r: string, n: string, h: string)
    requires NoSlash(h) && h != [] && h[0] == '.'
    requires r !in watched && !IsHidden(r)
    ensures WatchFrom(SkipAsWritten(true), watched, r, Dir(n, None, [Dir(h, None, [])])).added == [r]
  {
    var skip := SkipAsWritten(true);
    HiddenChild(r, h);
    OneChild(skip, watched + {r}, r, Dir(h, None, []));
  }

  lemma LeafAdded(skip: string -> bool, watched: set<string>, path: string, n: string)
    requires !skip(path) && path !in watched
    ensures WatchFrom(skip, watched, path, Dir(n, None, [])).added == [path]
  {
  }

  /** With the intended test, no hidden path is ever registered when
      hidden entries are excluded ... */
  lemma IntendedSkipsHidden(watched: set<string>, path: string, d: Dir, p: string)
    requires p in WatchFrom(SkipIntended(false), watched, path, d).added
    ensures !IsHidden(p)
  {
  }

  /** Walks with tests that agree on every path agree. */
  lemma {:induction false} SameSkip(s1: string -> bool, s2: string -> bool, watched: set<string>, path: string, d: Dir)
    requires forall p :: s1(p) == s2(p)
    ensures WatchFrom(s1, watched, path, d) == WatchFrom(s2, watched, path, d)
    decreases Size(d), 0
  {
    if !s1(path) && path !in watched {
      SameSkipChildren(s1, s2, watched + {path}, path, d.subdirs);
    }
  }

  lemma {:induction false} SameSkipChildren(s1: string -> bool, s2: string -> bool, watched: set<string>, path: string, cs: seq<Dir>)
    requires forall p :: s1(p) == s2(p)
    ensures WatchChildrenFrom(s1, watched, path, cs) == WatchChildrenFrom(s2, watched, path, cs)
    decreases SizeAll(cs), 1
  {
    if cs != [] {
      SameSkip(s1, s2, watched, path + "/" + cs[0].name, cs[0]);
      SameSkipChildren(s1, s2, WatchFrom(s1, watched, path + "/" + cs[0].name, cs[0]).watched, path, cs[1..]);
    }
  }

  /** As written, `watch` behaves as intended for the opposite setting of
      the option: the setting is swapped. */
  lemma OptionSwappedAsWritten(includeHidden: bool, watched: set<string>, path: string, d: Dir)
    ensures WatchFrom(SkipAsWritten(includeHidden), watched, path, d) ==
            WatchFrom(SkipIntended(!includeHidden), watched, path, d)
  {
    SameSkip(SkipAsWritten(includeHidden), SkipIntended(!includeHidden), watched, path, d);
  }

  // ---------------------------------------------------------------------
  // Which directories a walk reaches

  /** The path the walk gives the directory at positions `idx` below `t`,
      which sits at `path`. */
  function ChainPath(path: string, t: Dir, idx: seq<nat>): string
    decreases |idx|
  {
    if idx == [] || idx[0] >= |t.subdirs| then path
    else ChainPath(path + "/" + t.subdirs[idx[0]].name, t.subdirs[idx[0]], idx[1..])
  }

  /** No directory on the way from `t` to the one at `idx` is skipped. */
  predicate Reach(skip: string -> bool, path: string, t: Dir, idx: seq<nat>)
    decreases |idx|
  {
    !skip(path) &&
    (idx != [] ==>
       idx[0] < |t.subdirs| &&
       Reach(skip, path + "/" + t.subdirs[idx[0]].name, t.subdirs[idx[0]], idx[1..]))
  }

  /** Nothing at or below `path` is watched yet. */
  predicate Unvisited(watched: set<string>, path: string) {
    forall q :: q in watched ==> !Below(q, path)
  }

  predicate ProperListing(cs: seq<Dir>) {
    (forall k :: 0 <= k < |cs| ==> IsName(cs[k].name) && WellNamed(cs[k]) && DistinctNames(cs[k])) &&
    (forall j, k :: 0 <= j < k < |cs| ==> cs[j].name != cs[k].name)
  }

  lemma UnvisitedChild(watched: set<string>, path: string, n: string)
    requires Unvisited(watched, path) && IsName(n)
    ensures Unvisited(watched + {path}, path + "/" + n)
  {
    forall q | q in watched + {path}
      ensures !Below(q, path + "/" + n)
    {
      if q in watched && Below(q, path + "/" + n) {
        BelowChild(q, path, n);
      }
    }
  }

  /** Over a tree with proper, distinct names and nothing below its root
      watched yet, the walk watches every directory it reaches. */
  lemma {:induction false} Reached(skip: string -> bool, watched: set<string>, path: string, t: Dir, idx: seq<nat>)
    requires WellNamed(t) && DistinctNames(t) && Unvisited(watched, path) && Reach(skip, path, t, idx)
    ensures ChainPath(path, t, idx) in WatchFrom(skip, watched, path, t).watched
    decreases |idx|, 0, 0
  {
    assert path !in watched;
    if idx != [] {
      var c := t.subdirs[idx[0]];
      UnvisitedChild(watched, path, c.name);
      ChildReached(skip, watched + {path}, path, t.subdirs, idx[0], idx[1..]);
    }
  }

  lemma {:induction false} ChildReached(skip: string -> bool, watched: set<string>, path: string,
                                        cs: seq<Dir>, i: nat, idx: seq<nat>)
    requires i < |cs| && ProperListing(cs)
    requires Unvisited(watched, path + "/" + cs[i].name)
    requires Reach(skip, path + "/" + cs[i].name, cs[i], idx)
    ensures ChainPath(path + "/" + cs[i].name, cs[i], idx) in WatchChildrenFrom(skip, watched, path, cs).watched
    decreases |idx|, 1, i
  {
    var first := WatchFrom(skip, watched, path + "/" + cs[0].name, cs[0]);
    if i == 0 {
      Reached(skip, watched, path + "/" + cs[0].name, cs[0], idx);
    } else {
      forall q | q in first.watched
        ensures !Below(q, path + "/" + cs[i].name)
      {
        if q !in watched {
          var k :| 0 <= k < |first.added| && first.added[k] == q;
          BelowDistinct(q, path, cs[0].name, cs[i].name);
        }
      }
      assert cs[1..][i - 1] == cs[i];
      ChildReached(skip, first.watched, path, cs[1..], i - 1, idx);
    }
  }

  lemma AddedChild(skip: string -> bool, watched: set<string>, path: string, cs: seq<Dir>, p: string)
    returns (i: nat, before: set<string>)
    requires p in WatchChildrenFrom(skip, watched, path, cs).added
    ensures i < |cs| && p in WatchFrom(skip, before, path + "/" + cs[i].name, cs[i]).added
    decreases |cs|
  {
    var first := WatchFrom(skip, watched, path + "/" + cs[0].name, cs[0]);
    var rest := WatchChildrenFrom(skip, first.watched, path, cs[1..]);
    assert WatchChildrenFrom(skip, watched, path, cs).added == first.added + rest.added;
    if p in first.added {
      i, before := 0, watched;
    } else {
      var j, b := AddedChild(skip, first.watched, path, cs[1..], p);
      var c := cs[1..][j];
      assert c == cs[j + 1];
      assert p in WatchFrom(skip, b, path + "/" + c.name, c).added;
      i, before := j + 1, b;
    }
  }

  /** Every registered directory is one the walk reaches. */
  lemma {:induction false} AddedReached(skip: string -> bool, watched: set<string>, path: string, t: Dir, p: string)
    returns (idx: seq<nat>)
    requires p in WatchFrom(skip, watched, path, t).added
    ensures Reach(skip, path, t, idx) && p == ChainPath(path, t, idx)
    decreases t
  {
    if p == path {
      idx := [];
    } else {
      var i, before := AddedChild(skip, watched + {path}, path, t.subdirs, p);
      var c := t.subdirs[i];
      var rest := AddedReached(skip, before, path + "/" + c.name, c, p);
      idx := [i] + rest;
      assert idx[1..] == rest;
    }
  }

  // ---------------------------------------------------------------------
  // The watcher's state

  /** The watcher: the directory it was given, whether hidden entries are
      included, and the watched set. */
  datatype Watcher = Watcher(dir: string, includeHidden: bool, watched: set<string>)

  /** What a step asks of the rest of the program: restart the process,
      or close the `watching` channel, which ends `Start`. */
  datatype Effect = Restart | Terminate

  datatype Step = Step(watcher: Watcher, effects: seq<Effect>)

  /** `watch(path)` on the watcher, with the hidden-entry test of the
      chosen reading. */
  function Watch(rd: Reading, w: Watcher, path: string, d: Dir): (r: Watcher)
    ensures r.dir == w.dir && r.includeHidden == w.includeHidden && w.watched <= r.watched
    ensures forall p :: p in r.watched - w.watched ==> !Skipped(rd, w.includeHidden, p) && Below(p, path)
    ensures !Skipped(rd, w.includeHidden, path) ==> path in r.watched
  {
    w.(watched := WatchFrom(Skip(rd, w.includeHidden), w.watched, path, d).watched)
  }

  /** No watched path is one the hidden-entry test of `watch` skips. */
  predicate Unskipped(rd: Reading, w: Watcher) {
    forall p :: p in w.watched ==> !Skipped(rd, w.includeHidden, p)
  }

  /** `Start` after `Chdir` and `Getwd`: the root actually watched is the
      working directory `root`, while `dir` keeps the configured string. */
  function Start(rd: Reading, dir: string, root: string, includeHidden: bool, t: Dir): (r: Watcher)
    ensures r.dir == dir && r.includeHidden == includeHidden
    ensures Unskipped(rd, r)
    ensures forall p :: p in r.watched ==> Below(p, root)
    ensures !Skipped(rd, includeHidden, root) ==> root in r.watched
  {
    Watch(rd, Watcher(dir, includeHidden, {}), root, t)
  }

  /** `unwatch(path)`: whether `path` was watched, and the watcher after. */
  function Unwatch(w: Watcher, path: string): (r: (bool, Step))
    ensures r.1.watcher.dir == w.dir && r.1.watcher.includeHidden == w.includeHidden
    ensures r.0 <==> path in w.watched
    ensures r.1.watcher.watched == w.watched - {path}
    ensures Restart !in r.1.effects
    ensures Terminate in r.1.effects <==> path in w.watched && path == w.dir
  {
    if path !in w.watched then (false, Step(w, []))
    else
      var next := w.(watched := w.watched - {path});
      (true, Step(next, if path == w.dir then [Terminate] else []))
  }

  /** `watch` on a path already watched changes nothing and does not
      descend. */
  lemma WatchedAlready(skip: string -> bool, watched: set<string>, path: string, d: Dir)
    requires path in watched
    ensures WatchFrom(skip, watched, path, d) == Reg(watched, [])
  {
  }

  /** Watching the same tree twice is watching it once. */
  lemma WatchIdempotent(rd: Reading, w: Watcher, path: string, d: Dir)
    ensures Watch(rd, Watch(rd, w, path, d), path, d) == Watch(rd, w, path, d)
  {
    var skip := Skip(rd, w.includeHidden);
    var first := WatchFrom(skip, w.watched, path, d);
    if !skip(path) && path !in w.watched {
      assert first.added[0] == path;
      assert path in first.watched;
    }
  }

  /** `watch` on a directory without subdirectories adds just its path,
      unless that is skipped or already watched. */
  lemma LeafWatch(skip: string -> bool, watched: set<string>, path: string, n: string)
    ensures WatchFrom(skip, watched, path, Dir(n, None, [])).watched ==
            if skip(path) || path in watched then watched else watched + {path}
  {
  }

  /** `unwatch` undoes the registration of a directory without
      subdirectories. */
  lemma UnwatchUndoesWatch(rd: Reading, w: Watcher, path: string, n: string)
    requires path !in w.watched && path != w.dir
    ensures Unwatch(Watch(rd, w, path, Dir(n, None, [])), path).1 == Step(w, [])
  {
    LeafWatch(Skip(rd, w.includeHidden), w.watched, path, n);
    assert w.watched + {path} - {path} == w.watched;
  }

  predicate RemoveEvent(e: Event) {
    Remove in e.ops
  }

  predicate Change(e: Event) {
    Create in e.ops || Write in e.ops
  }

  /** `handleEvent`: hidden paths are dropped unless hidden entries are
      included; a removal unwatches a watched path and restarts the
      process for any other; creations and writes restart the process for
      a file, extend the watch for a directory, and are dropped when the
      path no longer exists; every other event, renames included, is
      dropped. Only the walk of a new directory depends on the reading. */
  function HandleEvent(rd: Reading, w: Watcher, e: Event): (r: Step)
    ensures r.watcher.dir == w.dir && r.watcher.includeHidden == w.includeHidden
    ensures |r.effects| <= 1
    ensures w.watched - r.watcher.watched <= {e.path}
    ensures forall p :: p in r.watcher.watched - w.watched ==> !Skipped(rd, w.includeHidden, p) && Below(p, e.path)
  {
    if !w.includeHidden && IsHidden(e.path) then Step(w, [])
    else if RemoveEvent(e) then
      var (found, next) := Unwatch(w, e.path);
      if !found then Step(w, [Restart]) else next
    else if !Change(e) then Step(w, [])
    else
      match e.stat
      case Missing => Step(w, [])
      case IsFile => Step(w, [Restart])
      case IsDir(t) => Step(Watch(rd, w, e.path, t), [])
  }

  /** The process is restarted exactly for a visible removal of an
      unwatched path, or a visible creation or write of a file. */
  lemma RestartRule(rd: Reading, w: Watcher, e: Event)
    ensures Restart in HandleEvent(rd, w, e).effects <==>
            (w.includeHidden || !IsHidden(e.path)) &&
            (if RemoveEvent(e) then e.path !in w.watched else Change(e) && e.stat.IsFile?)
  {
  }

  /** The watcher ends exactly when a visible removal hits a watched path
      equal to the configured directory string. The root is watched under
      its absolute working-directory path, so a relative `dir` such as "."
      never ends it. */
  lemma TerminateRule(rd: Reading, w: Watcher, e: Event)
    ensures Terminate in HandleEvent(rd, w, e).effects <==>
            (w.includeHidden || !IsHidden(e.path)) && RemoveEvent(e) &&
            e.path in w.watched && e.path == w.dir
  {
  }

  lemma RelativeDirNeverEnds(rd: Reading, w: Watcher, e: Event)
    requires w.dir == "." && e.path != "."
    ensures Terminate !in HandleEvent(rd, w, e).effects
  {
    TerminateRule(rd, w, e);
  }

  /** A visible removal of a watched path takes exactly that path out of
      the watched set. */
  lemma RemovalUnwatches(rd: Reading, w: Watcher, e: Event)
    requires (w.includeHidden || !IsHidden(e.path)) && RemoveEvent(e) && e.path in w.watched
    ensures HandleEvent(rd, w, e).watcher.watched == w.watched - {e.path}
  {
  }

  /** Every event keeps the watched set free of paths `watch` skips. */
  lemma EventKeepsUnskipped(rd: Reading, w: Watcher, e: Event)
    requires Unskipped(rd, w)
    ensures Unskipped(rd, HandleEvent(rd, w, e).watcher)
  {
  }

  /** The events handled one after another. */
  function Run(rd: Reading, w: Watcher, es: seq<Event>): (r: Step)
    ensures r.watcher.dir == w.dir && r.watcher.includeHidden == w.includeHidden
    ensures |r.effects| <= |es|
    decreases |es|
  {
    if es == [] then Step(w, [])
    else
      var first := HandleEvent(rd, w, es[0]);
      var rest := Run(rd, first.watcher, es[1..]);
      Step(rest.watcher, first.effects + rest.effects)
  }

  /** Through any run of events, the watched set stays free of paths
      `watch` skips. */
  lemma {:induction false} RunKeepsUnskipped(rd: Reading, w: Watcher, es: seq<Event>)
    requires Unskipped(rd, w)
    ensures Unskipped(rd, Run(rd, w, es).watcher)
    decreases |es|
  {
    if es != [] {
      EventKeepsUnskipped(rd, w, es[0]);
      RunKeepsUnskipped(rd, HandleEvent(rd, w, es[0]).watcher, es[1..]);
    }
  }

  /** From `Start` on, through any run of events, no watched path is one
      `watch` skips. */
  lemma StartKeepsUnskipped(rd: Reading, dir: string, root: string, includeHidden: bool, t: Dir, es: seq<Event>)
    ensures Unskipped(rd, Run(rd, Start(rd, dir, root, includeHidden, t), es).watcher)
  {
    RunKeepsUnskipped(rd, Start(rd, dir, root, includeHidden, t), es);
  }

  // ---------------------------------------------------------------------
  // The hidden-entry setting, as written and as intended

  /** With hidden entries excluded, no hidden path is watched. */
  predicate HiddenOut(w: Watcher) {
    !w.includeHidden ==> forall p :: p in w.watched ==> !IsHidden(p)
  }

  /** With the intended test, an event never brings a hidden path into the
      watched set while hidden entries are excluded. */
  lemma IntendedEventKeepsHiddenOut(w: Watcher, e: Event)
    requires HiddenOut(w)
    ensures HiddenOut(HandleEvent(Intended, w, e).watcher)
  {
  }

  /** With the intended test, no run of events does. */
  lemma {:induction false} IntendedRunKeepsHiddenOut(w: Watcher, es: seq<Event>)
    requires HiddenOut(w)
    ensures HiddenOut(Run(Intended, w, es).watcher)
    decreases |es|
  {
    if es != [] {
      IntendedEventKeepsHiddenOut(w, es[0]);
      IntendedRunKeepsHiddenOut(HandleEvent(Intended, w, es[0]).watcher, es[1..]);
    }
  }

  /** With the intended test, from `Start` on no hidden path is watched
      while hidden entries are excluded. */
  lemma IntendedStartKeepsHiddenOut(dir: string, root: string, includeHidden: bool, t: Dir, es: seq<Event>)
    ensures HiddenOut(Run(Intended, Start(Intended, dir, root, includeHidden, t), es).watcher)
  {
    IntendedRunKeepsHiddenOut(Start(Intended, dir, root, includeHidden, t), es);
  }

  /** As written, `Start` with hidden entries excluded (the default)
      watches a hidden subdirectory of the root such as ".git". */
  lemma AsWrittenStartWatchesHidden(dir: string, root: string, n: string, h: string)
    requires NoSlash(h) && h != [] && h[0] == '.'
    ensures var w := Start(AsWritten, dir, root, false, Dir(n, None, [Dir(h, None, [])]));
            root + "/" + h in w.watched && IsHidden(root + "/" + h) && !HiddenOut(w)
  {
    assert root != root + "/" + h by {
      assert |root + "/" + h| > |root|;
    }
    HiddenWatchedAsWritten({}, root, n, h);
  }

  /** As written, it is with hidden entries included that no hidden path is
      ever watched, from `Start` on through any run of events. */
  lemma AsWrittenIncludedHiddenOut(dir: string, root: string, t: Dir, es: seq<Event>, p: string)
    requires p in Run(AsWritten, Start(AsWritten, dir, root, true, t), es).watcher.watched
    ensures !IsHidden(p)
  {
    StartKeepsUnskipped(AsWritten, dir, root, true, t, es);
  }
}
