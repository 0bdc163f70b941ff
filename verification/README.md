# spy, modelled in Dafny

`spy` reruns a program whenever files under a directory change. This project
models its core in Dafny and proves properties of that model. The core has
three parts, each in two generations: the newer `spy` package and the older
`watcher` package.

- **Glob matcher** (`Glob`, `SpyMatcher`, `WatcherMatcher`). A pattern such
  as `src/**/*.go` becomes two anchored predicates: one for files and one
  for the directories worth descending into.
  - `*` stands for a non-empty run of characters other than `/`.
  - `/**/` stands for `/` followed by zero or more `name/` groups.
  - Every other character stands for itself.

  The model's `Glob.Match` is a token-level matcher. It is proved equal to
  a reference language (`Glob.Spec`). The `include`/`exclude` polarity,
  the hidden-entry rule and the directory-scope rule are layered on top,
  exactly as in `match`.
- **Watch manager** (`SpySession`, `WatcherSession`, over the tree and
  event records of `FsTree`).
  - It walks the directory tree from the root and registers every
    directory the matcher admits.
  - It classifies each change event as ignore, restart, extend the watch,
    or stop.
  - It ends the session at most once (`stopWith` / `sync.Once`).

  The walk is a pure function over a `Dir` tree. Each tree node carries the
  error its registration would report.
- **Process supervisor** (`Supervisor`). The restartable child process is
  modelled as a sequential state machine over the source's fields:
  - the `ready` channel of capacity one, as a count of pending launches;
  - `restarting`, `stopped` and `killed`;
  - whether a command is live.

  The `start` goroutine's position in its loop is a `Phase`. Exec, wait,
  sleep and kill become inputs and effects. The `Flavor` selects between
  `spy/process.go` and `watcher/process.go`.

In five places the code does something other than what it evidently means
(see "## Findings"). There the model takes a `Readings.Reading`:
`AsWritten` follows the code, and `Intended` is the corrected definition.
The supervisor, both sessions and the spy matcher's `SpyMatcher.SetAs`
take that parameter, and every lemma about the difference names its
reading.

`Paths` holds the parts of Go's `strings`, `path` and `path/filepath`
packages that the core relies on, written out for a Unix host:
`LastIndex`, `Base`, `Split`, `Join`, and `Clean` (as a segment stack).

Where the code behaves in ways a user may not expect, the model follows
the code:

- **Registration failures.** In `spy`, a failed registration of any
  directory, the root or one found during the walk, ends the session
  (spy/spy.go:122-126).
  See `SpySession.StartFailure`.
- **The hidden-entry option is never wired up.** `spy`'s matcher starts
  with `hidden` false, and `Spy.IncludeHidden` is never copied into it, so
  hidden entries are always rejected.
- **Removed directories stay registered.** `spy` never removes a path from
  `dirs`: removing a registered directory other than the root does nothing
  (`SpySession.SubdirRemoval`).
- **Renames in the watcher.** `watcher` drops Rename events altogether.
- **Root removal can go unnoticed.** `spy` filters every event through
  `matchFile` *before* it checks for root removal. An include pattern that
  the root path itself does not match therefore hides the root's removal
  (`SpySession.RootRemoval`).
- **`glob` versus `set`.** `Spy.Start` calls `glob` on its matcher, but
  spy/matcher.go only defines `set`. `SpySession.Configure` installs `set`,
  the only setter that file has: `SpyMatcher.Set` as written, and
  `SpyMatcher.SetIntended` in the intended reading.

## Model

| member | source | states |
|---|---|---|
| Glob.TokenizeRenders | spy/matcher.go:13-14 | Reading a pattern into `/**/`, `*` and literal tokens loses and invents nothing: the tokens spell the pattern back |
| Glob.MatchIsSpec | spy/matcher.go:11-24 | The matcher accepts a string exactly when it splits into consecutive words, one per token, each in that token's language, with nothing left over at either end |
| Glob.StarStaysInSegment | spy/matcher.go:14-20 | `*` consumes exactly a non-empty run of characters other than `/`, and never reaches across a `/` |
| Glob.StarAlone | spy/matcher.go:20-22 | The pattern `*` alone matches exactly the non-empty strings without `/` |
| Glob.LiteralPattern | spy/matcher.go:9-22 | A pattern without `*` matches exactly itself: `/ . $ ^` are escaped and the match is anchored at both ends |
| Glob.AnyDepth | spy/matcher.go:13-21 | `a/**/b` (star-free parts) matches exactly `a/`, then zero or more whole `name/` groups, then `b` |
| Glob.AnyDepthNoEmptyGroup | spy/matcher.go:21 | The groups of `/**/` have non-empty names: `a/**/b` does not match `a//b` |
| Glob.StarFile | spy/matcher.go:14-20 | `a/*` matches exactly the names directly inside `a` |
| Glob.DeepNeedsHead | spy/matcher.go:13-22 | Every match of `a/**/b` (star-free `a`) starts with `a/`, whatever the tail `b` |
| Glob.DeepMatchAncestor | spy/matcher.go:75-91 | For a one-segment tail `b`, every `/`-terminated prefix of a path matching `a/**/b` either starts the pattern text or matches the directory part `a/**/` |
| Paths.LastSlash | spy/matcher.go:37 | `strings.LastIndex(s, "/")`: -1 or the position of a `/` with none after it |
| Paths.LastSlashDirPart | spy/matcher.go:37-47 | `s[:i+1]` with `i` the last `/` is the directory part of `s`: the prefix through its last `/`, or empty |
| Paths.WithSlash | spy/matcher.go:82-84 | The directory form of a path ends in `/` and adds at most that one character |
| Paths.BaseOfChild | watcher/watch.go:183-185 | The base name of `d/n` is `n`, so the hidden test of a child path looks at the child's own name |
| Paths.JoinName | spy/spy.go:253 | `path.Join` of a clean absolute directory and an entry name appends one element |
| SpyMatcher.Set | spy/matcher.go:35-48 | `set` as written: it stores the completed pattern, marks `allFiles` exactly when the pattern ends in `**/*`, and keeps the polarity and hidden rule |
| SpyMatcher.SetScope | spy/matcher.go:37-47 | As written, the directory scope is the directory part of the pattern *as given*, before completion |
| SpyMatcher.SetIntended | spy/matcher.go:35-48 | Corrected `set`: the same pattern and `allFiles`, with the scope cut from the completed pattern and ending at its first `/**/` |
| SpyMatcher.IntendedScope | spy/matcher.go:39-47 | Corrected, the scope is the completed pattern through its first `/**/`, or the completed pattern's directory part when it has no `/**/` |
| SpyMatcher.FirstDeepFrom | spy/matcher.go:13 | Finds the first `/**/` at or after a position, the one the left-to-right replacement turns into the first any-depth token: none earlier, and none at all when it finds nothing |
| SpyMatcher.SetAs | spy/matcher.go:35-48 | `set` in the chosen reading stores the completed pattern and `allFiles`; its scope is the directory part of the pattern as given (as written) or the intended scope (as intended) |
| SpyMatcher.NoDeepInHead | spy/matcher.go:13 | No `/**/` starts inside a star-free head `a` of `a/**/b` |
| SpyMatcher.FirstDeepAfterHead | spy/matcher.go:13 | In `a/**/b` with a star-free head `a`, the first `/**/` is the one right after `a` |
| SpyMatcher.IntendedDeepScope | spy/matcher.go:37-47 | Corrected, `a/**/b` (star-free `a`) gets the scope `a/**/`, whatever the tail `b` |
| SpyMatcher.IntendedAgrees | spy/matcher.go:37-47 | The two readings of `set` agree on every pattern that neither ends in `/` nor holds `/**/` |
| SpyMatcher.Flip | spy/matcher.go:50-55 | The flipped verdict holds exactly when the glob's verdict equals the polarity |
| SpyMatcher.MatchFile | spy/matcher.go:57-69 | A matched file is never one the hidden-entry rule rejects |
| SpyMatcher.MatchDir | spy/matcher.go:61-69 | A matched directory is never one the hidden-entry rule rejects |
| SpyMatcher.HiddenRejected | spy/matcher.go:66-69 | Unless hidden entries are admitted, a path whose base name starts with `.` is neither a file nor a directory of interest |
| SpyMatcher.Unconfigured | spy/matcher.go:65-93 | With no pattern set, exactly the visible paths match, as files and as directories |
| SpyMatcher.FileRule | spy/matcher.go:71-73 | A file matches exactly when it is visible and the glob's verdict agrees with the polarity |
| SpyMatcher.ExcludeSomeDescends | spy/matcher.go:76-80 | Excluding a pattern that does not cover every file descends into every visible directory |
| SpyMatcher.DirRule | spy/matcher.go:81-90 | Otherwise a directory, with a trailing `/`, matches when it starts the pattern text (include only) or when the scope's verdict agrees with the polarity |
| SpyMatcher.ScopeBeforeLastName | spy/matcher.go:37-47 | As written, a pattern `q/c` ending in a name `c` is stored unchanged with the scope `q/` |
| SpyMatcher.DeepPatternScope | spy/matcher.go:37-47 | As written, for a one-segment tail `b`, the directory scope of `a/**/b` is `a/**/` |
| SpyMatcher.IncludeDeepLineage | spy/matcher.go:86-90 | For a one-segment tail `b`, including `a/**/b` accepts exactly the directories that start the pattern text or lie at any depth below `a` |
| SpyMatcher.IncludeKeepsAncestors | spy/matcher.go:71-90 | For a one-segment tail `b`, pruning is sound for `a/**/b` under include: every visible directory above a matching file is descended into |
| SpyMatcher.DeepTailPrunedAsWritten | spy/matcher.go:37-90 | As written, including `a/**/b/c` accepts the file `a/x/b/c` but prunes the directory `a/x`, for every star-free name `x` other than `b` |
| SpyMatcher.DeepTailDirOutside | spy/matcher.go:86-90 | `a/x/` neither starts the pattern `a/**/b/c` nor lies in the scope `a/**/b/` |
| SpyMatcher.IntendedKeepsAncestors | spy/matcher.go:37-90 | Corrected, including `a/**/b` accepts every visible directory below `a`, whatever the tail `b`, so every directory that can hold a matching file is descended into |
| SpyMatcher.ExcludeDeepPrunesOnlyExcluded | spy/matcher.go:78-90 | Excluding `a/**/*` prunes only directories whose files are all excluded anyway |
| SpyMatcher.DirectoryPatternCompleted | spy/matcher.go:39-41 | A directory pattern `a/` is stored as `a/**/*` |
| SpyMatcher.DirectoryPatternScope | spy/matcher.go:37-47 | As written, `a/` gets the pattern `a/**/*` with the directory scope `a/` |
| SpyMatcher.IntendedDirectoryPattern | spy/matcher.go:39-47 | Corrected, `a/` (star-free `a`) is read exactly as the explicit pattern `a/**/*`, with the scope `a/**/` |
| SpyMatcher.DeepFileAccepted | spy/matcher.go:71-73 | `a/**/*` accepts every visible file at least one directory below `a` |
| SpyMatcher.ShallowScopeRejectsSubdir | spy/matcher.go:86-90 | With the scope `a/`, including `a/**/*` rejects every subdirectory of `a` |
| SpyMatcher.DeepScopeAcceptsSubdir | spy/matcher.go:86-90 | With the scope `a/**/`, including `a/**/*` accepts every visible subdirectory of `a` |
| SpyMatcher.ShallowExcludePrunesOnlyExcluded | spy/matcher.go:78-90 | With the scope `a/`, excluding `a/**/*` prunes only `a` itself, all of whose files are excluded |
| SpyMatcher.DirectoryPatternPrunesSubdirs | spy/matcher.go:37-90 | As written, including `a/` accepts a file two levels below `a` but prunes the directory holding it |
| SpyMatcher.IntendedDescendsIntoSubdirs | spy/matcher.go:39-90 | Corrected, including `a/` descends into every visible subdirectory of `a` |
| SpyMatcher.ExcludeDirectoryPrunesOnlyExcluded | spy/matcher.go:37-90 | Excluding `a/` as written prunes only directories whose files are all excluded |
| SpyMatcher.GoSourcesExample | spy/matcher.go:65-93 | Including `src/**/*.go` under a root accepts `src/pkg/a.go`, rejects `README.md`, and descends into `src/pkg` |
| SpyMatcher.TmpNamesExample | spy/matcher.go:76-80 | Excluding `tmp/*` still descends into `tmp`, excludes `tmp/x.log` and keeps `main.go` |
| WatcherMatcher.SetGlob | watcher/matcher.go:34-40 | `glob` stores the pattern as given, keeping the polarity and hidden rule |
| WatcherMatcher.GlobScope | watcher/matcher.go:37-39 | The directory scope is the directory part of the pattern |
| WatcherMatcher.Flip | watcher/matcher.go:42-47 | The flipped verdict holds exactly when the glob's verdict equals the polarity |
| WatcherMatcher.MatchFile | watcher/matcher.go:49-61 | A matched file is never one the hidden-entry rule rejects |
| WatcherMatcher.MatchDir | watcher/matcher.go:53-61 | A matched directory is never one the hidden-entry rule rejects |
| WatcherMatcher.HiddenRejected | watcher/matcher.go:58-61 | Unless hidden entries are admitted, hidden paths match neither as files nor as directories |
| WatcherMatcher.Unconfigured | watcher/matcher.go:57-80 | With no pattern, exactly the visible paths match |
| WatcherMatcher.FileRule | watcher/matcher.go:62-65 | A file matches exactly when it is visible and the glob's verdict agrees with the polarity |
| WatcherMatcher.ExcludeDescendsEverywhere | watcher/matcher.go:66-79 | Under exclude every visible directory is descended into, whatever the pattern |
| WatcherMatcher.IncludeDirRule | watcher/matcher.go:67-78 | Under include a visible directory matches when it starts the pattern text or lies in the directory scope |
| WatcherMatcher.IncludeKeepsAncestors | watcher/matcher.go:63-78 | For a one-segment tail `b`, pruning is sound for `a/**/b` under include |
| WatcherMatcher.SameStorage | watcher/matcher.go:34-40 | On patterns not ending in `/`, `glob` stores the same pattern and scope as `spy`'s `set` |
| WatcherMatcher.FilesAgree | watcher/matcher.go:57-65 | Both matchers decide files alike |
| WatcherMatcher.IncludeDirsAgree | watcher/matcher.go:66-78 | Under include both matchers decide directories alike |
| WatcherMatcher.ExcludeDirsDiffer | watcher/matcher.go:66-79 | Under exclude they differ exactly on visible directories in the scope of a pattern that covers every file |
| SpySession.SpyJoin | spy/spy.go:251-258 | `join` is `path.Join` with one `/` added exactly when the last element ends in `/`; the result ends in `/` exactly when that element does or the join is the root |
| SpySession.JoinChild | spy/spy.go:251-258 | Joining a clean absolute directory with an entry name appends one element |
| SpySession.JoinPattern | spy/spy.go:251-258 | A clean relative pattern is appended to the root unchanged |
| SpySession.JoinDirPattern | spy/spy.go:251-258 | A relative pattern ending in `/` keeps that `/` after the join |
| SpySession.Configure | spy/spy.go:70-82 | A non-empty include wins over an exclude; an exclude alone flips the polarity; with neither, no pattern is set. The stored pattern is the completed join of root and pattern, and its scope is the one `set` gives that join in the chosen reading |
| SpySession.IntendedIncludeDescends | spy/spy.go:76-78 | Corrected, including a directory `rel/` below the root descends into every visible subdirectory of it |
| SpySession.AsWrittenIncludePrunes | spy/spy.go:74-136 | As written, including `rel/` accepts a file two levels below `rel` but rejects the directory holding it, and `Start` never registers that directory, whatever the tree |
| SpySession.SpyWalker | spy/spy.go:118-136 | The walk asks the matcher's `matchDir` and forms child paths with `join` |
| SpySession.WatchTree | spy/spy.go:118-136 | Every directory the walk registers passes `matchDir`, and the first is the path itself |
| SpySession.WatchChildren | spy/spy.go:130-135 | Every directory the walk over a listing registers passes `matchDir` |
| SpySession.OpenRegistered | spy/spy.go:118-136 | Every directory whose whole chain from the root passes `matchDir` is registered |
| SpySession.RegisteredOpen | spy/spy.go:118-136 | Every registered directory is such a directory |
| SpySession.FailureReported | spy/spy.go:122-126 | A failing registration anywhere the walk reaches is reported |
| SpySession.ReportedFailure | spy/spy.go:122-126 | Every reported failure comes from a registration the walk reached |
| SpySession.PrunedBelow | spy/spy.go:119-121 | Every directory above a registered one passed `matchDir` |
| SpySession.SpyJoinsNames | spy/spy.go:251-258 | `join` appends the name to a clean absolute path |
| SpySession.NamedPaths | spy/spy.go:133 | With a child rule that appends names, the walk's path for a position is the root's elements followed by the names on the way |
| SpySession.CleanPaths | spy/spy.go:118-136 | From a clean absolute root, the spy's walk forms clean absolute paths |
| SpySession.StopWith | spy/spy.go:105-112 | The first `stopWith` stops the process, closes the watcher and hands its error to `Wait`; later ones do nothing |
| SpySession.Stop | spy/spy.go:114-116 | `Stop` ends a watching session and hands `Wait` no error |
| SpySession.StopAll | spy/spy.go:105-112 | `stopWith` called repeatedly never restarts or starts the process, and keeps root, matcher and `dirs` |
| SpySession.StopOnce | spy/spy.go:105-112 | However many errors arrive, exactly the first reaches `Wait`, and none once finished |
| SpySession.Watch | spy/spy.go:118-136 | `dirs` gains exactly the walk's registrations; the session ends exactly when a registration fails, with the first failure's message |
| SpySession.Start | spy/spy.go:74-90 | `Start` installs the matcher configured in the chosen reading and ends by starting the process |
| SpySession.StartRegisters | spy/spy.go:118-136 | After `Start`, `dirs` holds every directory the walk should reach... |
| SpySession.StartRegistersOnly | spy/spy.go:118-136 | ...and nothing else |
| SpySession.StartFailure | spy/spy.go:122-126 | Any failing registration `Start` reaches ends the session and hands `Wait` exactly one error |
| SpySession.StartFailureCause | spy/spy.go:122-126 | Only such a failure ends the session at `Start` |
| SpySession.HandleEvent | spy/spy.go:152-191 | An event keeps root and matcher, only adds to `dirs`, and adds only directories passing `matchDir` |
| SpySession.RestartRule | spy/spy.go:152-191 | The process restarts exactly for a matched removal or rename of an unregistered path, or a matched creation or write of a file |
| SpySession.DirsRule | spy/spy.go:159-186 | `dirs` changes only on a matched creation or write of a directory |
| SpySession.RootRemoval | spy/spy.go:155-165 | Removing the registered root ends a watching session exactly when the root passes `matchFile` |
| SpySession.SubdirRemoval | spy/spy.go:159-171 | Removing a registered directory other than the root changes nothing and keeps it registered |
| SpySession.StartConsistent | spy/spy.go:119-127 | After `Start` every registered directory passes `matchDir` |
| SpySession.EventConsistent | spy/spy.go:185-186 | One event keeps every registered directory passing `matchDir` |
| SpySession.EventDeliveries | spy/spy.go:105-112 | One event hands `Wait` an error exactly when it ends a watching session, and a finished session stays finished |
| SpySession.Run | spy/spy.go:139-150 | A run of events keeps root and matcher and only adds to `dirs` |
| SpySession.RunDeliversOnce | spy/spy.go:105-112 | Over any run of events, `Wait` gets at most one error, and none once finished |
| SpySession.RunConsistent | spy/spy.go:119-127 | Every registered directory passes `matchDir` over any run of events |
| WatcherSession.WatchFrom | watcher/watch.go:85-102 | `watch` adds exactly its new registrations to the watched set; none was watched before, none is skipped, all lie at or below the path, and none is registered twice |
| WatcherSession.WatchChildrenFrom | watcher/watch.go:96-101 | The recursion over a listing registers only new, unskipped, distinct paths below `path/` |
| WatcherSession.WatchedAlready | watcher/watch.go:90-92 | `watch` on an already watched path changes nothing and does not descend |
| WatcherSession.SkipAsWritten | watcher/watch.go:86-88 | As written, `watch` skips a path exactly when it is hidden *and* hidden entries are to be included |
| WatcherSession.SkipIntended | watcher/watch.go:127-131 | Corrected, a path is skipped exactly when it is hidden and hidden entries are not included |
| WatcherSession.Skip | watcher/watch.go:86-88 | The hidden test of `watch` in the chosen reading: as written a hidden path is skipped exactly when hidden entries are included, as intended exactly when they are not |
| WatcherSession.HiddenWatchedAsWritten | watcher/watch.go:86-101 | As written, with the default setting, a hidden subdirectory is registered |
| WatcherSession.HiddenSkippedAsWritten | watcher/watch.go:86-88 | As written, with hidden entries included, a hidden subdirectory is skipped |
| WatcherSession.OptionSwappedAsWritten | watcher/watch.go:86-88 | As written, `watch` behaves as the corrected one would for the opposite setting |
| WatcherSession.IntendedSkipsHidden | watcher/watch.go:86-88 | Corrected, with the default setting no hidden path is ever registered |
| WatcherSession.LeafAdded | watcher/watch.go:90-94 | `watch` on a new, unskipped directory without subdirectories registers just that path |
| WatcherSession.Reached | watcher/watch.go:85-102 | Over a tree with proper, distinct names, every directory whose chain is unskipped ends up watched |
| WatcherSession.AddedReached | watcher/watch.go:85-102 | Every registered path is the chain path of a reachable directory |
| WatcherSession.Watch | watcher/watch.go:85-102 | In the chosen reading the watched set only grows; it gains only paths at or below the path that the hidden test does not skip; and the path itself ends up watched unless skipped |
| WatcherSession.WatchIdempotent | watcher/watch.go:90-93 | Watching the same tree twice is watching it once |
| WatcherSession.Start | watcher/watch.go:54-67 | `Start` keeps the configured directory string, watches the working directory (unless skipped) and only paths below it, none of them one the hidden test skips |
| WatcherSession.Unwatch | watcher/watch.go:104-114 | `unwatch` reports whether the path was watched and removes exactly that path; it terminates exactly when the path was watched and equals the configured directory |
| WatcherSession.UnwatchUndoesWatch | watcher/watch.go:85-114 | `unwatch` undoes the `watch` of a directory without subdirectories |
| WatcherSession.HandleEvent | watcher/watch.go:127-158 | An event keeps the configured directory and the hidden setting and asks for at most one effect; it removes at most the event's own path and adds only unskipped paths below it |
| WatcherSession.RestartRule | watcher/watch.go:127-158 | The process restarts exactly for a visible removal of an unwatched path, or a visible creation or write of a file |
| WatcherSession.TerminateRule | watcher/watch.go:104-139 | The watcher ends exactly when a visible removal hits a watched path equal to the configured directory string |
| WatcherSession.RelativeDirNeverEnds | watcher/watch.go:104-114 | With the directory given as `.`, no event ends the watcher |
| WatcherSession.RemovalUnwatches | watcher/watch.go:104-135 | A visible removal of a watched path takes exactly that path out of the watched set |
| WatcherSession.Run | watcher/watch.go:116-125 | A run of events keeps the configured directory and the hidden setting, with at most one effect per event |
| WatcherSession.EventKeepsUnskipped | watcher/watch.go:127-158 | In either reading, an event never brings a path the hidden test of `watch` skips into the watched set |
| WatcherSession.RunKeepsUnskipped | watcher/watch.go:116-158 | In either reading, no run of events does |
| WatcherSession.StartKeepsUnskipped | watcher/watch.go:54-79 | From `Start` on, through any run of events, no watched path is one the hidden test of `watch` skips |
| WatcherSession.IntendedEventKeepsHiddenOut | watcher/watch.go:127-158 | Corrected, with hidden entries excluded, an event never brings a hidden path into the watched set |
| WatcherSession.IntendedRunKeepsHiddenOut | watcher/watch.go:116-131 | Corrected, with hidden entries excluded, no run of events does |
| WatcherSession.IntendedStartKeepsHiddenOut | watcher/watch.go:54-79 | Corrected, from `Start` on no hidden path is watched while hidden entries are excluded |
| WatcherSession.AsWrittenStartWatchesHidden | watcher/watch.go:54-102 | As written, `Start` with hidden entries excluded (the default) watches a hidden subdirectory of the root such as `.git` |
| WatcherSession.AsWrittenIncludedHiddenOut | watcher/watch.go:54-158 | As written, it is with hidden entries *included* that no hidden path is ever watched, from `Start` through any run of events |
| Supervisor.NewProcess | spy/process.go:26-37 | Fails with "No program specified" exactly on empty arguments; otherwise the program and its arguments spell the input back, with nothing pending and no flag set |
| Supervisor.ExitCodeOf | spy/process.go:64-73 | The exit code is non-zero only for an `ExitError`: the wait status's code when present, else 1 exactly for an unsuccessful exit |
| Supervisor.ExitSuccess | watcher/process.go:64-68 | An exit is unsuccessful exactly for an unsuccessful `ExitError` |
| Supervisor.ReportsAgree | spy/process.go:64-73 | For coherent wait results, `spy` reports code 0 exactly when `watcher` reports success |
| Supervisor.ExitReport | spy/process.go:76-78 | `spy` reports the exit code `ExitCodeOf` computes and `watcher` a success verdict, each zero or successful exactly for a successful exit |
| Supervisor.Kill | spy/process.go:108-118 | `kill` does nothing without a live command; otherwise it kills the group first, and the single process exactly when the group kill fails |
| Supervisor.Begin | spy/process.go:42 | As written, the first send needs a free slot and adds one launch; as intended it never blocks, fills an empty slot with one launch and leaves a full slot as it is; either way the loop is entered |
| Supervisor.LoopTest | spy/process.go:44 | The loop condition: a stopped supervisor returns, any other goes on to the receive |
| Supervisor.Launch | spy/process.go:46-61 | The receive takes one pending launch, and the child runs exactly when its start succeeds; a failed start pauses two seconds and goes back to the loop test. `killed` is false for every started child, and after a failed start it is still set only in `spy`. As intended, a stopped supervisor returns from the receive instead |
| Supervisor.ChildExit | spy/process.go:62-80 | At exit the command is dropped, the loop goes round, and the exit is reported exactly when the child was not killed |
| Supervisor.RestartBegin | spy/process.go:86-90 | A restart already under way absorbs a new one; otherwise the restart marks itself and sleeps for the delay |
| Supervisor.RestartEnd | spy/process.go:91-98 | After the sleep the child is marked killed and killed, a launch is queued only into an empty slot, and the restart ends |
| Supervisor.Stop | spy/process.go:101-106 | `stop` sets `stopped` and kills only a live command |
| Supervisor.RunInv | spy/process.go:35-97 | Over any run, at most one launch is pending, a command is live exactly while the loop waits for it, and the loop returns only once stopped |
| Supervisor.AtMostOnePending | spy/process.go:35-97 | From `newProcess`, no run of events ever leaves more than one launch pending |
| Supervisor.RestartsQueueOne | spy/process.go:86-98 | Any number of completed restarts with no launch between them queue exactly one launch and leave the child marked killed |
| Supervisor.RestartAbsorbed | spy/process.go:86-88 | A restart arriving while another sleeps changes nothing |
| Supervisor.RestartSilencesExit | spy/process.go:76-94 | A child killed by a restart exits without an exit report |
| Supervisor.UnkilledExitReported | spy/process.go:76-78 | A child the supervisor did not kill has its exit reported |
| Supervisor.StartedChildUnkilled | spy/process.go:58 | Every started child begins unkilled, so its own exit is reported in the flavour's form |
| Supervisor.FailedStartKilled | watcher/process.go:46-56 | After a failed start `spy` still has `killed` set, while `watcher` cleared it before the attempt |
| Supervisor.StopExitReported | spy/process.go:76-106 | `stop` does not set `killed`: the exit of a child ended by `stop` is still reported |
| Supervisor.StoppedNeverSpawns | spy/process.go:44-46 | Corrected, once stopped, no run of events ever starts the program again, wherever the loop is |
| Supervisor.StopEndsLoop | spy/process.go:44 | After `stop`, a loop at its head returns at the next test, in either reading |
| Supervisor.StopLeavesReceiveBlocked | spy/process.go:46 | As written, `stop` does not wake a loop already waiting on an empty slot |
| Supervisor.ReceivingAfterFirstExit | spy/process.go:40-81 | As written, a new supervisor whose first child has exited reaches the receive with an empty slot, no restart under way and not stopped |
| Supervisor.SpawnAfterStop | spy/process.go:44-61 | As written, a restart after `stop` wakes that waiting loop, which starts the program although the supervisor is stopped |
| Supervisor.StopWakesReceive | spy/process.go:46 | Corrected, `stop` wakes a waiting receive, which returns without starting anything |
| Supervisor.EarlyRestartBlocksStart | spy/process.go:42-97 | As written, with the slot already full, `start`'s first send blocks for good and the program never starts |
| Supervisor.RestartBeforeStart | spy/process.go:35-97 | In either reading, a restart that completes before `start` runs leaves the slot full |
| Supervisor.EarlyRestartStarts | spy/process.go:42 | Corrected, with the slot already full, `start` enters its loop, takes the pending launch and starts the program |

## Left out

- **Regex metacharacters.** `Glob.GlobMatch` reads every character other
  than `*` as a literal. The source escapes only `/ . $ ^`, so other regex
  metacharacters in a pattern (`+ ? ( ) [ ] { } |` and `\`) reach Go's
  regexp engine with their regex meaning. The placeholder text `GLOB!ALL`
  / `GLOB!STAR` inside a user's pattern is also not modelled.
- **Timing.** Sleeping, the restart delay and the retry pause are not
  modelled. They appear only as `Pause` effects; nothing waits.
- **Concurrency.** Goroutines and concurrent event handlers are modelled
  as one sequence of inputs applied in order. Races between the handlers
  are not modelled. Neither is the double `close` of the watcher's
  channel by `Stop` after a root removal.
- **Operating-system calls.** These are left out or become parameters:
  - `os.Stat`, `ioutil.ReadDir` and fsnotify: the `Dir` tree and `Event`
    records;
  - `filepath.Abs`, `os.Chdir` and `os.Getwd`: the root is a parameter;
  - exec, wait and kill: inputs and effects;
  - the platform files process_win.go and process_unix.go: the group kill
    is an input that may fail.
- **The walk after a failure.** In `spy`, the walk goes on after a failed
  registration even though the session has ended. The model keeps
  walking and reports every failure; `stopWith` hands on only the first.
  The first `stopWith` also closes the fsnotify watcher
  (spy/spy.go:105-112), so every later `Add` of that walk fails as well
  (spy/spy.go:122-126). The model takes a registration's outcome from the
  tree alone, so after the first failure it may still register
  directories that the source would fail on.
- **Registration errors in the watcher.** The watcher ignores the error
  from `Add`, and so does the model.
- **Output.** Logging, ANSI colour, `shorten` and the command line of
  main.go are not part of this model.
- **Process details.** The process ID and the debug log lines around it
  are not modelled.
- WatcherMatcher.SetGlob: cuts the scope at the pattern's last `/`, as
  written only. The deep-tail pruning in "## Findings" applies to it
  unchanged (watcher/matcher.go:37-39), and the corrected scope is
  modelled for the spy matcher only.
- Supervisor.Launch: as intended, `stop` wakes a waiting receive. How it
  would do so (closing a channel, a `select`) is not modelled.
- **Wait-status coupling.** `Supervisor.ExitCodeOf` does not tie a
  wait-status code to the `ExitError`'s success flag. `Coherent` states
  that coupling where a lemma needs it.

## Findings

| source | as written | input that shows it | evidently intended | confidence | as-written member | corrected member |
|---|---|---|---|---|---|---|
| spy/matcher.go:37-47 | For a pattern ending in `/`, `set` appends `**/*` but cuts the directory scope at `i`, the last `/` found *before* the append. So `a/` gets the scope `a/` instead of `a/**/`. | Include `a/`. The file `a/b/c` matches, but `matchDir("a/b")` is false, so `a/b` is never watched. | The scope of `a/` is `a/**/`, as for the explicit pattern `a/**/*`, so that subdirectories are descended into. | not executed | SpyMatcher.DirectoryPatternPrunesSubdirs | SpyMatcher.IntendedDescendsIntoSubdirs |
| spy/matcher.go:37-47 | The directory scope is everything before the pattern's last `/`, including literal segments after a `/**/`. | Include `a/**/b/c`: the scope is `a/**/b/`. The file `a/x/b/c` matches, but `matchDir("a/x")` is false, so `a/x` is never watched. watcher/matcher.go:37-39 cuts the scope the same way. | Cut the scope after the first `/**/`, so that every directory below `a` is descended into. | not executed | SpyMatcher.DeepTailPrunedAsWritten | SpyMatcher.IntendedKeepsAncestors |
| watcher/watch.go:86-88 | `watch` returns early for a hidden path when `IncludeHidden` is *true*. | With the default `IncludeHidden == false`, the root's subdirectory `.git` is walked and registered; with `IncludeHidden == true` it is skipped. | Skip hidden paths unless `IncludeHidden` is set, as `handleEvent` does at line 129 and as the field's comment at line 20 says. | not executed | WatcherSession.AsWrittenStartWatchesHidden | WatcherSession.IntendedStartKeepsHiddenOut |
| spy/process.go:44-46 | The loop tests `stopped` and then blocks on `<-p.ready`. `stop` does not wake that receive, and nothing tests `stopped` after it. watcher/process.go:42-44 has the same shape. | The first child exits and the loop waits on an empty slot. Then `stop` arrives, followed by a restart, which queues a launch. The loop wakes and starts the program although the supervisor is stopped. | After the receive, test `stopped` again and return; `stop` wakes a waiting receive. | not executed | Supervisor.SpawnAfterStop | Supervisor.StoppedNeverSpawns |
| spy/process.go:42 | `start`'s first send blocks while the slot already holds a launch. watcher/process.go:40 has the same send. | A restart completes before the `start` goroutine makes its first send. The slot is full, the send blocks for good, and the program never starts. | A send that does not block, since a pending launch already asks for a start. | not executed | Supervisor.EarlyRestartBlocksStart | Supervisor.EarlyRestartStarts |

Each corrected definition is what the `Intended` reading uses:

- `SpySession.Configure` installs `SpyMatcher.SetIntended`, so including
  `rel/` descends into its subdirectories
  (`SpySession.IntendedIncludeDescends`).
- `WatcherSession.Watch` uses `WatcherSession.SkipIntended`.
- `Supervisor.Begin` never blocks, and `Supervisor.Launch` re-tests
  `stopped`.

The `AsWritten` reading runs the same operations on `SpyMatcher.Set`,
`WatcherSession.SkipAsWritten` and the blocking channel operations.
