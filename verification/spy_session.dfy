/** The watch manager of spy/spy.go: the choice of pattern at start, the
    recursive registration of directories, the once-only `stopWith`, and
    the classification of change events. Every call is a pure step from
    one session state to the next plus the effects it asks for. */
module SpySession {
  import opened Wrappers
  import opened Paths
  import opened FsTree
  import opened Glob
  import opened Readings
  import SpyMatcher

  // ---------------------------------------------------------------------
  // join

  /** `join(a, b)`: `path.Join`, with the last element's trailing '/'
      kept so that a directory pattern still names a directory. */
  function SpyJoin(a: string, b: string): (r: string)
    ensures HasSuffix(b, "/") ==> r == Join(a, b) + "/"
    ensures !HasSuffix(b, "/") ==> r == Join(a, b)
    ensures HasPrefix(r, Join(a, b)) && |r| <= |Join(a, b)| + 1
    ensures a != [] || b != [] ==> (r[|r| - 1] == '/' <==> HasSuffix(b, "/") || Join(a, b) == "/")
  {
    if HasSuffix(b, "/") then Join(a, b) + "/" else Join(a, b)
  }

  /** A child entry of a clean absolute directory gets the clean absolute
      path one element longer. */
  lemma JoinChild(segs: seq<string>, n: string)
    requires AllNames(segs) && IsName(n)
    ensures SpyJoin(AbsPath(segs), n) == AbsPath(segs + [n])
  {
    JoinName(segs, n);
  }

  /** A clean relative pattern is appended to the root as it is. */
  lemma JoinPattern(segs: seq<string>, rel: seq<string>)
    requires AllNames(segs) && AllNames(rel) && rel != []
    ensures SpyJoin(AbsPath(segs), JoinSegs(rel)) == AbsPath(segs + rel)
  {
    JoinRel(segs, rel);
  }

  /** A relative pattern ending in '/' keeps its '/' after the join. */
  lemma JoinDirPattern(segs: seq<string>, rel: seq<string>)
    requires AllNames(segs) && AllNames(rel) && rel != []
    ensures SpyJoin(AbsPath(segs), JoinSegs(rel) + "/") == AbsPath(segs + rel) + "/"
  {
    JoinRelDir(segs, rel);
  }

  // ---------------------------------------------------------------------
  // Start: the choice of pattern

  /** The matcher `Start` installs: a non-empty include wins, an exclude
      flips the polarity, and with neither every visible path matches.
      The spy matcher never sees the `IncludeHidden` option, so hidden
      entries are always rejected. The pattern's directory scope is cut
      from the joined pattern as written, and from its completion, ending
      at the first "/**/", as intended. */
  function Configure(rd: Reading, root: string, inc: string, exc: string): (m: SpyMatcher.Matcher)
    ensures !m.hidden
    ensures m.includes <==> inc != [] || exc == []
    ensures m.pattern.None? <==> inc == [] && exc == []
    ensures inc != [] ==> m.pattern.value.str == SpyMatcher.Completed(SpyJoin(root, inc))
    ensures inc != [] ==>
              SpyMatcher.ScopeOf(rd, SpyJoin(root, inc), m.pattern.value.dirGlob)
    ensures inc == [] && exc != [] ==>
              m.pattern.value.str == SpyMatcher.Completed(SpyJoin(root, exc))
    ensures inc == [] && exc != [] ==>
              SpyMatcher.ScopeOf(rd, SpyJoin(root, exc), m.pattern.value.dirGlob)
  {
    if inc != [] then SpyMatcher.SetAs(rd, SpyMatcher.Fresh, SpyJoin(root, inc))
    else if exc != [] then
      SpyMatcher.SetAs(rd, SpyMatcher.Fresh, SpyJoin(root, exc)).(includes := false)
    else SpyMatcher.Fresh
  }

  /** Read as intended, an include naming a directory below the root, such
      as "src/", makes the session descend into every visible subdirectory
      of it. */
  lemma IntendedIncludeDescends(segs: seq<string>, rel: seq<string>, name: string)
    requires AllNames(segs) && AllNames(rel) && rel != []
    requires NoStar(AbsPath(segs + rel)) && IsName(name) && name[0] != '.'
    ensures SpyMatcher.MatchDir(Configure(Intended, AbsPath(segs), JoinSegs(rel) + "/", ""),
                                AbsPath(segs + rel) + "/" + name)
  {
    var a := AbsPath(segs + rel);
    JoinDirPattern(segs, rel);
    SpyMatcher.VisibleChild(SpyMatcher.Fresh, a, name);
    SpyMatcher.IntendedDescendsIntoSubdirs(SpyMatcher.Fresh, a, name);
  }

  /** As written, the same include accepts a file one directory further
      down but rejects the directory holding it, so `Start` never
      registers that directory, whatever the tree. */
  lemma AsWrittenIncludePrunes(segs: seq<string>, rel: seq<string>, name: string, w: string, t: Dir)
    requires AllNames(segs) && AllNames(rel) && rel != []
    requires NoStar(AbsPath(segs + rel)) && IsName(name) && NoStar(name)
    requires IsName(w) && w[0] != '.'
    ensures var m := Configure(AsWritten, AbsPath(segs), JoinSegs(rel) + "/", "");
            var a := AbsPath(segs + rel);
            SpyMatcher.MatchFile(m, a + "/" + name + "/" + w) && !SpyMatcher.MatchDir(m, a + "/" + name)
    ensures AbsPath(segs + rel) + "/" + name !in
              Start(AsWritten, AbsPath(segs), JoinSegs(rel) + "/", "", t).session.dirs
  {
    var a := AbsPath(segs + rel);
    JoinDirPattern(segs, rel);
    SpyMatcher.VisibleChild(SpyMatcher.Fresh, a + "/" + name, w);
    SpyMatcher.DirectoryPatternPrunesSubdirs(SpyMatcher.Fresh, a, name, w);
    StartConsistent(AsWritten, AbsPath(segs), JoinSegs(rel) + "/", "", t);
  }

  // ---------------------------------------------------------------------
  // watch

  /** The two things the walk of `watch` depends on: the `matchDir`
      decision, and how a subdirectory's path is formed from its parent's
      path and its entry name. */
  datatype Walker = Walker(dirOk: string -> bool, child: (string, string) -> string)

  /** The spy's walker: its matcher's `matchDir`, and `join`. */
  function SpyWalker(m: SpyMatcher.Matcher): (w: Walker)
    ensures forall p :: w.dirOk(p) == SpyMatcher.MatchDir(m, p)
    ensures forall a, b :: w.child(a, b) == SpyJoin(a, b)
  {
    Walker(p => SpyMatcher.MatchDir(m, p), (a, b) => SpyJoin(a, b))
  }

  /** What one `watch` call does: the directories it registers, in order,
      and the errors it passes to `stopWith`, in order. */
  datatype Walk = Walk(added: seq<string>, failures: seq<string>)

  /** `watch(path)` where `d` is the directory found at `path`: a
      directory `matchDir` rejects is skipped with everything below it; a
      registration failure is reported as "<error> (<path>)" and ends
      that branch; otherwise the directory is registered and each
      subdirectory is watched at `join(path, name)`. */
  function WatchTree(w: Walker, path: string, d: Dir): (r: Walk)
    ensures forall p :: p in r.added ==> w.dirOk(p)
    ensures r.added != [] ==> r.added[0] == path
    decreases Size(d), 0
  {
    if !w.dirOk(path) then Walk([], [])
    else if d.addError.Some? then Walk([], [d.addError.value + " (" + path + ")"])
    else
      var rest := WatchChildren(w, path, d.subdirs);
      Walk([path] + rest.added, rest.failures)
  }

  /** The recursion of `watch` over the listing of `path`. */
  function WatchChildren(w: Walker, path: string, cs: seq<Dir>): (r: Walk)
    ensures forall p :: p in r.added ==> w.dirOk(p)
    decreases SizeAll(cs), 1
  {
    if cs == [] then Walk([], [])
    else
      var first := WatchTree(w, w.child(path, cs[0].name), cs[0]);
      var rest := WatchChildren(w, path, cs[1..]);
      Walk(first.added + rest.added, first.failures + rest.failures)
  }

  /** The path the walk gives the directory at positions `idx` below `t`,
      which sits at `path`. */
  function PathAt(w: Walker, path: string, t: Dir, idx: seq<nat>): string
    decreases |idx|
  {
    if idx == [] || idx[0] >= |t.subdirs| then path
    else PathAt(w, w.child(path, t.subdirs[idx[0]].name), t.subdirs[idx[0]], idx[1..])
  }

  /** The walk from `t` at `path` should register the directory at `idx`:
      every directory on the way there, the last included, passes
      `matchDir` and registers without error. */
  predicate Open(w: Walker, path: string, t: Dir, idx: seq<nat>)
    decreases |idx|
  {
    w.dirOk(path) && t.addError.None? &&
    (idx != [] ==>
       idx[0] < |t.subdirs| &&
       Open(w, w.child(path, t.subdirs[idx[0]].name), t.subdirs[idx[0]], idx[1..]))
  }

  /** The walk reaches the directory at `idx` and its registration fails:
      every directory on the way registers, and the last one passes
      `matchDir` but reports an error. */
  predicate Fails(w: Walker, path: string, t: Dir, idx: seq<nat>)
    decreases |idx|
  {
    w.dirOk(path) &&
    if idx == [] then t.addError.Some?
    else
      t.addError.None? && idx[0] < |t.subdirs| &&
      Fails(w, w.child(path, t.subdirs[idx[0]].name), t.subdirs[idx[0]], idx[1..])
  }

  lemma ChildAdded(w: Walker, path: string, cs: seq<Dir>, i: nat, p: string)
    requires i < |cs| && p in WatchTree(w, w.child(path, cs[i].name), cs[i]).added
    ensures p in WatchChildren(w, path, cs).added
    decreases i
  {
    if i > 0 {
      assert cs[1..][i - 1] == cs[i];
      ChildAdded(w, path, cs[1..], i - 1, p);
    }
  }

  lemma AddedChild(w: Walker, path: string, cs: seq<Dir>, p: string) returns (i: nat)
    requires p in WatchChildren(w, path, cs).added
    ensures i < |cs| && p in WatchTree(w, w.child(path, cs[i].name), cs[i]).added
    decreases |cs|
  {
    if p in WatchTree(w, w.child(path, cs[0].name), cs[0]).added {
      i := 0;
    } else {
      var j := AddedChild(w, path, cs[1..], p);
      assert cs[1..][j] == cs[j + 1];
      i := j + 1;
    }
  }

  lemma ChildFailure(w: Walker, path: string, cs: seq<Dir>, i: nat)
    requires i < |cs| && WatchTree(w, w.child(path, cs[i].name), cs[i]).failures != []
    ensures WatchChildren(w, path, cs).failures != []
    decreases i
  {
    var first := WatchTree(w, w.child(path, cs[0].name), cs[0]);
    var rest := WatchChildren(w, path, cs[1..]);
    assert WatchChildren(w, path, cs).failures == first.failures + rest.failures;
    if i > 0 {
      assert cs[1..][i - 1] == cs[i];
      ChildFailure(w, path, cs[1..], i - 1);
    }
  }

  lemma FailedChild(w: Walker, path: string, cs: seq<Dir>) returns (i: nat)
    requires WatchChildren(w, path, cs).failures != []
    ensures i < |cs| && WatchTree(w, w.child(path, cs[i].name), cs[i]).failures != []
    decreases |cs|
  {
    if WatchTree(w, w.child(path, cs[0].name), cs[0]).failures != [] {
      i := 0;
    } else {
      var j := FailedChild(w, path, cs[1..]);
      assert cs[1..][j] == cs[j + 1];
      i := j + 1;
    }
  }

  /** Every directory the walk should reach is registered. */
  lemma {:induction false} OpenRegistered(w: Walker, path: string, t: Dir, idx: seq<nat>)
    requires Open(w, path, t, idx)
    ensures PathAt(w, path, t, idx) in WatchTree(w, path, t).added
    decreases |idx|
  {
    if idx != [] {
      var c := t.subdirs[idx[0]];
      OpenRegistered(w, w.child(path, c.name), c, idx[1..]);
      ChildAdded(w, path, t.subdirs, idx[0], PathAt(w, path, t, idx));
    }
  }

  /** Every registered directory is one the walk should reach. */
  lemma {:induction false} RegisteredOpen(w: Walker, path: string, t: Dir, p: string)
    returns (idx: seq<nat>)
    requires p in WatchTree(w, path, t).added
    ensures Open(w, path, t, idx) && p == PathAt(w, path, t, idx)
    decreases t
  {
    if p == path {
      idx := [];
    } else {
      var i := AddedChild(w, path, t.subdirs, p);
      var c := t.subdirs[i];
      var rest := RegisteredOpen(w, w.child(path, c.name), c, p);
      idx := [i] + rest;
      assert idx[1..] == rest;
    }
  }

  /** A failing registration anywhere the walk reaches is reported. */
  lemma {:induction false} FailureReported(w: Walker, path: string, t: Dir, idx: seq<nat>)
    requires Fails(w, path, t, idx)
    ensures WatchTree(w, path, t).failures != []
    decreases |idx|
  {
    if idx != [] {
      var c := t.subdirs[idx[0]];
      FailureReported(w, w.child(path, c.name), c, idx[1..]);
      ChildFailure(w, path, t.subdirs, idx[0]);
    }
  }

  /** A reported failure comes from a registration the walk reached. */
  lemma {:induction false} ReportedFailure(w: Walker, path: string, t: Dir)
    returns (idx: seq<nat>)
    requires WatchTree(w, path, t).failures != []
    ensures Fails(w, path, t, idx)
    decreases t
  {
    if t.addError.Some? {
      idx := [];
    } else {
      var i := FailedChild(w, path, t.subdirs);
      var c := t.subdirs[i];
      var rest := ReportedFailure(w, w.child(path, c.name), c);
      idx := [i] + rest;
      assert idx[1..] == rest;
    }
  }

  /** Pruning: every directory on the way to a registered one passes
      `matchDir`, so once `matchDir` rejects a directory nothing below it
      is registered. */
  lemma {:induction false} PrunedBelow(w: Walker, path: string, t: Dir, idx: seq<nat>, k: nat)
    requires k <= |idx| && Open(w, path, t, idx)
    ensures w.dirOk(PathAt(w, path, t, idx[..k]))
    decreases |idx|
  {
    if k > 0 {
      var c := t.subdirs[idx[0]];
      PrunedBelow(w, w.child(path, c.name), c, idx[1..], k - 1);
      assert idx[..k][1..] == idx[1..][..k - 1];
    }
  }

  /** The walker forms a child's path by appending its name, on clean
      absolute paths. */
  ghost predicate JoinsNames(w: Walker) {
    forall segs: seq<string>, n: string ::
      AllNames(segs) && IsName(n) ==> w.child(AbsPath(segs), n) == AbsPath(segs + [n])
  }

  /** `join` appends the name. */
  lemma SpyJoinsNames(m: SpyMatcher.Matcher)
    ensures JoinsNames(SpyWalker(m))
  {
    forall segs: seq<string>, n: string | AllNames(segs) && IsName(n)
      ensures SpyWalker(m).child(AbsPath(segs), n) == AbsPath(segs + [n])
    {
      JoinChild(segs, n);
    }
  }

  /** From a clean absolute root through a tree of proper names, such a
      walker gives each directory the clean absolute path of its names. */
  lemma {:induction false} NamedPaths(w: Walker, segs: seq<string>, t: Dir, idx: seq<nat>)
    requires JoinsNames(w) && AllNames(segs) && WellNamed(t)
    ensures PathAt(w, AbsPath(segs), t, idx) == AbsPath(segs + NamesAt(t, idx))
    decreases |idx|
  {
    if idx != [] && idx[0] < |t.subdirs| {
      var c := t.subdirs[idx[0]];
      assert AllNames(segs + [c.name]);
      assert w.child(AbsPath(segs), c.name) == AbsPath(segs + [c.name]);
      NamedPaths(w, segs + [c.name], c, idx[1..]);
      assert segs + NamesAt(t, idx) == segs + [c.name] + NamesAt(c, idx[1..]);
    } else {
      assert segs + NamesAt(t, idx) == segs;
    }
  }

  /** So the spy's walk registers clean absolute paths. */
  lemma CleanPaths(m: SpyMatcher.Matcher, segs: seq<string>, t: Dir, idx: seq<nat>)
    requires AllNames(segs) && WellNamed(t)
    ensures PathAt(SpyWalker(m), AbsPath(segs), t, idx) == AbsPath(segs + NamesAt(t, idx))
  {
    SpyJoinsNames(m);
    NamedPaths(SpyWalker(m), segs, t, idx);
  }

  // ---------------------------------------------------------------------
  // Session state and stopWith

  /** Whether the spy still watches, or has finished with the error handed
      to `stopWith` (`None` for a plain `Stop`). */
  datatype Outcome = Watching | Finished(err: Option<string>)

  /** The state the spy keeps: its root, its matcher, the set `dirs` of
      registered directories, and how it ended. */
  datatype Session = Session(root: string, matcher: SpyMatcher.Matcher, dirs: set<string>, outcome: Outcome)

  /** What a step asks of the rest of the program: stop the supervised
      process, close the notification source, hand an error to `Wait`,
      restart the process, or start it. */
  datatype Effect = StopProcess | CloseWatcher | Deliver(err: Option<string>) | Restart | StartProcess

  datatype Step = Step(session: Session, effects: seq<Effect>)

  /** The errors a list of effects hands to `Wait`. */
  function Deliveries(es: seq<Effect>): (errs: seq<Option<string>>)
    ensures |errs| <= |es|
  {
    if es == [] then []
    else if es[0].Deliver? then [es[0].err] + Deliveries(es[1..])
    else Deliveries(es[1..])
  }

  lemma {:induction false} DeliveriesAppend(a: seq<Effect>, b: seq<Effect>)
    ensures Deliveries(a + b) == Deliveries(a) + Deliveries(b)
    decreases |a|
  {
    if a != [] {
      assert (a + b)[1..] == a[1..] + b;
      DeliveriesAppend(a[1..], b);
    } else {
      assert a + b == b;
    }
  }

  lemma DeliveriesOfStop(err: Option<string>)
    ensures Deliveries([StopProcess, CloseWatcher, Deliver(err)]) == [err]
  {
    var es := [StopProcess, CloseWatcher, Deliver(err)];
    assert es[1..][1..][1..] == [];
    assert Deliveries([Deliver(err)]) == [err];
    assert es[1..][1..] == [Deliver(err)];
    assert es[1..] == [CloseWatcher, Deliver(err)];
  }

  /** `stopWith(err)`: the first call stops the process, closes the
      notification source and hands `err` to `Wait`; later calls do
      nothing. The registered directories are kept. */
  function StopWith(s: Session, err: Option<string>): (r: Step)
    ensures r.session.outcome.Finished?
    ensures r.session.root == s.root && r.session.matcher == s.matcher && r.session.dirs == s.dirs
    ensures s.outcome.Finished? ==> r == Step(s, [])
    ensures s.outcome.Watching? ==>
              r.session.outcome == Finished(err) && Deliveries(r.effects) == [err] &&
              StopProcess in r.effects && CloseWatcher in r.effects
    ensures Restart !in r.effects && StartProcess !in r.effects
  {
    if s.outcome.Finished? then Step(s, [])
    else
      DeliveriesOfStop(err);
      Step(s.(outcome := Finished(err)), [StopProcess, CloseWatcher, Deliver(err)])
  }

  /** `Stop`. */
  function Stop(s: Session): (r: Step)
    ensures r.session.outcome.Finished?
    ensures s.outcome.Watching? ==> Deliveries(r.effects) == [None]
  {
    StopWith(s, None)
  }

  /** `stopWith` called once per error, in order. */
  function StopAll(s: Session, errs: seq<string>): (r: Step)
    ensures r.session.root == s.root && r.session.matcher == s.matcher && r.session.dirs == s.dirs
    ensures Restart !in r.effects && StartProcess !in r.effects
    decreases |errs|
  {
    if errs == [] then Step(s, [])
    else
      var first := StopWith(s, Some(errs[0]));
      var rest := StopAll(first.session, errs[1..]);
      Step(rest.session, first.effects + rest.effects)
  }

  /** However many errors arrive, exactly the first reaches `Wait`, and
      only if the spy was still watching. */
  lemma {:induction false} StopOnce(s: Session, errs: seq<string>)
    ensures Deliveries(StopAll(s, errs).effects) ==
            if s.outcome.Watching? && errs != [] then [Some(errs[0])] else []
    ensures StopAll(s, errs).session.outcome ==
            if s.outcome.Watching? && errs != [] then Finished(Some(errs[0])) else s.outcome
    decreases |errs|
  {
    if errs != [] {
      var first := StopWith(s, Some(errs[0]));
      StopOnce(first.session, errs[1..]);
      DeliveriesAppend(first.effects, StopAll(first.session, errs[1..]).effects);
      if s.outcome.Finished? {
        assert first.effects == [];
      }
    }
  }

  /** `watch(path)` on the session: the registered directories join
      `dirs`, and each failure is passed to `stopWith`. */
  function Watch(s: Session, path: string, d: Dir): (r: Step)
    ensures r.session.root == s.root && r.session.matcher == s.matcher
    ensures r.session.dirs == s.dirs + (set p | p in WatchTree(SpyWalker(s.matcher), path, d).added)
    ensures Restart !in r.effects && StartProcess !in r.effects
    ensures var failures := WatchTree(SpyWalker(s.matcher), path, d).failures;
            var ends := s.outcome.Watching? && failures != [];
            r.session.outcome == (if ends then Finished(Some(failures[0])) else s.outcome) &&
            |Deliveries(r.effects)| == if ends then 1 else 0
  {
    var w := WatchTree(SpyWalker(s.matcher), path, d);
    var s' := s.(dirs := s.dirs + (set p | p in w.added));
    StopOnce(s', w.failures);
    StopAll(s', w.failures)
  }

  /** `New` followed by `Start`: install the pattern, watch the root, then
      start the process. */
  function Start(rd: Reading, root: string, inc: string, exc: string, t: Dir): (r: Step)
    ensures r.session.root == root && r.session.matcher == Configure(rd, root, inc, exc)
    ensures r.effects != [] && r.effects[|r.effects| - 1] == StartProcess
  {
    var s := Session(root, Configure(rd, root, inc, exc), {}, Watching);
    var w := Watch(s, root, t);
    Step(w.session, w.effects + [StartProcess])
  }

  /** After `Start`, `dirs` holds every directory the walk should reach
      from the root ... */
  lemma StartRegisters(rd: Reading, root: string, inc: string, exc: string, t: Dir, idx: seq<nat>)
    requires Open(SpyWalker(Configure(rd, root, inc, exc)), root, t, idx)
    ensures PathAt(SpyWalker(Configure(rd, root, inc, exc)), root, t, idx) in Start(rd, root, inc, exc, t).session.dirs
  {
    OpenRegistered(SpyWalker(Configure(rd, root, inc, exc)), root, t, idx);
  }

  /** ... and nothing else. */
  lemma StartRegistersOnly(rd: Reading, root: string, inc: string, exc: string, t: Dir, p: string)
    returns (idx: seq<nat>)
    requires p in Start(rd, root, inc, exc, t).session.dirs
    ensures Open(SpyWalker(Configure(rd, root, inc, exc)), root, t, idx)
    ensures p == PathAt(SpyWalker(Configure(rd, root, inc, exc)), root, t, idx)
  {
    idx := RegisteredOpen(SpyWalker(Configure(rd, root, inc, exc)), root, t, p);
  }

  /** A failing registration that `Start` reaches ends the session, and
      exactly one error is handed to `Wait` ... */
  lemma StartFailure(rd: Reading, root: string, inc: string, exc: string, t: Dir, idx: seq<nat>)
    requires Fails(SpyWalker(Configure(rd, root, inc, exc)), root, t, idx)
    ensures Start(rd, root, inc, exc, t).session.outcome.Finished?
    ensures |Deliveries(Start(rd, root, inc, exc, t).effects)| == 1
  {
    FailureReported(SpyWalker(Configure(rd, root, inc, exc)), root, t, idx);
    var s := Session(root, Configure(rd, root, inc, exc), {}, Watching);
    DeliveriesAppend(Watch(s, root, t).effects, [StartProcess]);
  }

  /** ... and only such a failure ends it. */
  lemma StartFailureCause(rd: Reading, root: string, inc: string, exc: string, t: Dir)
    returns (idx: seq<nat>)
    requires Start(rd, root, inc, exc, t).session.outcome.Finished?
    ensures Fails(SpyWalker(Configure(rd, root, inc, exc)), root, t, idx)
  {
    idx := ReportedFailure(SpyWalker(Configure(rd, root, inc, exc)), root, t);
  }

  // ---------------------------------------------------------------------
  // handleEvent

  predicate RemoveLike(e: Event) {
    Remove in e.ops || Rename in e.ops
  }

  predicate Change(e: Event) {
    Create in e.ops || Write in e.ops
  }

  /** `handleEvent`: events on paths `matchFile` rejects are dropped; a
      removal or rename of a registered directory stops the spy when it is
      the root and is otherwise dropped, and one of any other path
      restarts the process; creations and writes restart the process for a
      file, extend the watch for a directory, and are dropped when the
      path no longer exists; every other event is dropped. */
  function HandleEvent(s: Session, e: Event): (r: Step)
    ensures r.session.root == s.root && r.session.matcher == s.matcher
    ensures s.dirs <= r.session.dirs
    ensures forall p :: p in r.session.dirs - s.dirs ==> SpyMatcher.MatchDir(s.matcher, p)
  {
    if !SpyMatcher.MatchFile(s.matcher, e.path) then Step(s, [])
    else if RemoveLike(e) then
      if e.path in s.dirs then
        if e.path == s.root then StopWith(s, Some("spy directory removed (" + e.path + ")"))
        else Step(s, [])
      else Step(s, [Restart])
    else if !Change(e) then Step(s, [])
    else
      match e.stat
      case Missing => Step(s, [])
      case IsFile => Step(s, [Restart])
      case IsDir(t) => Watch(s, e.path, t)
  }

  /** The process is restarted exactly for a matched removal of a path
      that is not a registered directory, or a matched creation or write
      of a file. */
  lemma RestartRule(s: Session, e: Event)
    ensures Restart in HandleEvent(s, e).effects <==>
            SpyMatcher.MatchFile(s.matcher, e.path) &&
            (if RemoveLike(e) then e.path !in s.dirs else Change(e) && e.stat.IsFile?)
  {
  }

  /** The registered directories change only when a matched creation or
      write finds a directory. */
  lemma DirsRule(s: Session, e: Event)
    requires HandleEvent(s, e).session.dirs != s.dirs
    ensures SpyMatcher.MatchFile(s.matcher, e.path) && !RemoveLike(e) && Change(e) && e.stat.IsDir?
  {
  }

  /** A removal of the root stops the spy only if the root passes
      `matchFile`: with an inc pattern the root itself does not match,
      the removal is dropped, and the spy keeps running. */
  lemma RootRemoval(s: Session, e: Event)
    requires s.outcome.Watching? && e.path == s.root && s.root in s.dirs && Remove in e.ops
    ensures HandleEvent(s, e).session.outcome.Finished? <==> SpyMatcher.MatchFile(s.matcher, s.root)
  {
  }

  /** Removing a registered directory other than the root changes nothing:
      it stays in `dirs`. */
  lemma SubdirRemoval(s: Session, e: Event)
    requires e.path in s.dirs && e.path != s.root && RemoveLike(e)
    ensures HandleEvent(s, e) == Step(s, [])
  {
  }

  /** Every registered directory passes `matchDir`. */
  predicate Consistent(s: Session) {
    forall p :: p in s.dirs ==> SpyMatcher.MatchDir(s.matcher, p)
  }

  lemma StartConsistent(rd: Reading, root: string, inc: string, exc: string, t: Dir)
    ensures Consistent(Start(rd, root, inc, exc, t).session)
  {
  }

  lemma EventConsistent(s: Session, e: Event)
    requires Consistent(s)
    ensures Consistent(HandleEvent(s, e).session)
  {
  }

  /** One event hands an error to `Wait` exactly when it ends a session
      that was watching, and then only one; a finished session stays
      finished. */
  lemma EventDeliveries(s: Session, e: Event)
    ensures var r := HandleEvent(s, e);
            |Deliveries(r.effects)| == if s.outcome.Watching? && r.session.outcome.Finished? then 1 else 0
    ensures s.outcome.Finished? ==> HandleEvent(s, e).session.outcome.Finished?
  {
    assert Deliveries([Restart]) == [];
    if SpyMatcher.MatchFile(s.matcher, e.path) && !RemoveLike(e) && Change(e) && e.stat.IsDir? {
      assert HandleEvent(s, e) == Watch(s, e.path, e.stat.tree);
    } else if SpyMatcher.MatchFile(s.matcher, e.path) && RemoveLike(e) && e.path in s.dirs && e.path == s.root {
      assert HandleEvent(s, e) == StopWith(s, Some("spy directory removed (" + e.path + ")"));
    }
  }

  /** The events handled one after another. */
  function Run(s: Session, es: seq<Event>): (r: Step)
    ensures r.session.root == s.root && r.session.matcher == s.matcher && s.dirs <= r.session.dirs
    decreases |es|
  {
    if es == [] then Step(s, [])
    else
      var first := HandleEvent(s, es[0]);
      var rest := Run(first.session, es[1..]);
      Step(rest.session, first.effects + rest.effects)
  }

  /** `Wait` gets at most one error over any run of events, and none once
      the session has finished. */
  lemma {:induction false} RunDeliversOnce(s: Session, es: seq<Event>)
    ensures var r := Run(s, es);
            |Deliveries(r.effects)| == if s.outcome.Watching? && r.session.outcome.Finished? then 1 else 0
    ensures s.outcome.Finished? ==> Run(s, es).session.outcome.Finished?
    decreases |es|
  {
    if es != [] {
      var first := HandleEvent(s, es[0]);
      EventDeliveries(s, es[0]);
      RunDeliversOnce(first.session, es[1..]);
      DeliveriesAppend(first.effects, Run(first.session, es[1..]).effects);
    }
  }

  /** The consistency of `dirs` holds over any run of events. */
  lemma {:induction false} RunConsistent(s: Session, es: seq<Event>)
    requires Consistent(s)
    ensures Consistent(Run(s, es).session)
    decreases |es|
  {
    if es != [] {
      EventConsistent(s, es[0]);
      RunConsistent(HandleEvent(s, es[0]).session, es[1..]);
    }
  }
}
