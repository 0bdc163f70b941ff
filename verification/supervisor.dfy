/** The process supervisor of spy/process.go and watcher/process.go as a
    sequential state machine. The fields are the source's: the `ready`
    channel (capacity one) as a count of pending launches, the
    `restarting`, `stopped` and `killed` flags, and whether a command is
    live. The `start` goroutine's position in its loop is a `Phase`; the
    exec, wait, sleep and kill calls become inputs and effects. The two
    packages differ in where `killed` is reset and in how a child's exit is
    reported, which the `Flavor` selects.

    Two blocking channel operations behave differently from what the code
    evidently means, and a `Reading` selects one or the other: `start`'s
    first send blocks when a restart has already filled the slot, and a
    loop that has passed its `stopped` test and waits on `ready` starts the
    program once more after `stop`. */
module Supervisor {
  import opened Wrappers
  import opened Readings

  /** spy/process.go or watcher/process.go. */
  datatype Flavor = SpyFlavor | WatcherFlavor

  /** Capacity of the `ready` channel. */
  const ReadyCapacity: nat := 1

  /** Pause after a failed start, in nanoseconds (two seconds). */
  const RetryPause: int := 2_000_000_000

  const NoProgram: string := "No program specified"

  /** Where the `start` goroutine is: not yet running, at the head of its
      loop (about to test `stopped`), past that test and receiving from
      `ready`, waiting for a live child, or returned. */
  datatype Phase = Unstarted | LoopHead | Receiving | Running | Done

  datatype Proc = Proc(
    flavor: Flavor,
    prog: string,
    args: seq<string>,
    delay: int,
    phase: Phase,
    ready: nat,
    restarting: bool,
    stopped: bool,
    killed: bool,
    cmd: bool)

  /** What `cmd.Wait` returned: no error, an `ExitError` (with the wait
      status's exit code when the platform provides one, and its success
      flag), or another error. */
  datatype WaitResult = Clean | ExitErr(status: Option<int>, success: bool) | OtherErr

  /** The observable effects: an exec attempt and its failure, a sleep, the
      two forms of exit report, the restart notice, and the two kills. */
  datatype Effect =
    | Spawn(prog: string, args: seq<string>)
    | SpawnFailed
    | Pause(ns: int)
    | ExitCode(code: int)
    | ExitStatus(success: bool)
    | Restarting
    | GroupKill
    | SingleKill

  datatype Step = Step(proc: Proc, effects: seq<Effect>)

  /** A supervisor as created: nothing pending, no flag set, no command. */
  predicate Fresh(p: Proc) {
    p.phase == Unstarted && p.ready == 0 && !p.restarting && !p.stopped && !p.killed && !p.cmd
  }

  /** `newProcess`: the first argument is the program, the rest its
      arguments; with no arguments there is nothing to run. */
  function NewProcess(flavor: Flavor, args: seq<string>, delay: int): (r: Result<Proc>)
    ensures r.Failure? <==> args == []
    ensures r.Failure? ==> r.error == NoProgram
    ensures r.Success? ==> [r.value.prog] + r.value.args == args
    ensures r.Success? ==> Fresh(r.value) && r.value.flavor == flavor && r.value.delay == delay
  {
    if args == [] then Failure(NoProgram)
    else Success(Proc(flavor, args[0], args[1..], delay, Unstarted, 0, false, false, false, false))
  }

  // ---------------------------------------------------------------------
  // Exit reports

  /** spy's exit code: zero unless `Wait` returned an `ExitError`; then the
      wait status's code when there is one, else one for an unsuccessful
      exit. */
  function ExitCodeOf(w: WaitResult): (code: int)
    ensures code != 0 ==> w.ExitErr?
    ensures w.ExitErr? && w.status.Some? ==> code == w.status.value
    ensures w.ExitErr? && w.status.None? ==> (code == 0 <==> w.success)
  {
    match w
    case ExitErr(status, success) =>
      if status.Some? then status.value else if !success then 1 else 0
    case _ => 0
  }

  /** watcher's verdict: successful unless `Wait` returned an unsuccessful
      `ExitError`. */
  function ExitSuccess(w: WaitResult): (ok: bool)
    ensures !ok <==> w.ExitErr? && !w.success
  {
    !(w.ExitErr? && !w.success)
  }

  /** A wait result as an operating system produces it: an exit code, when
      present, is zero exactly for a successful exit. */
  predicate Coherent(w: WaitResult) {
    w.ExitErr? && w.status.Some? ==> (w.success <==> w.status.value == 0)
  }

  /** The two packages agree on which exits are failures: spy reports a
      zero code exactly when watcher reports success. */
  lemma ReportsAgree(w: WaitResult)
    requires Coherent(w)
    ensures ExitCodeOf(w) == 0 <==> ExitSuccess(w)
  {
  }

  /** The report one flavour gives for a child's exit. */
  function ExitReport(f: Flavor, w: WaitResult): (e: Effect)
    ensures f == SpyFlavor ==> e == ExitCode(ExitCodeOf(w))
    ensures f == SpyFlavor ==> e.ExitCode? && (e.code == 0 <==> ExitCodeOf(w) == 0)
    ensures f == WatcherFlavor ==> e.ExitStatus? && (e.success <==> ExitSuccess(w))
  {
    if f == SpyFlavor then ExitCode(ExitCodeOf(w)) else ExitStatus(ExitSuccess(w))
  }

  predicate IsExitReport(e: Effect) {
    e.ExitCode? || e.ExitStatus?
  }

  // ---------------------------------------------------------------------
  // Transitions

  /** `kill`: nothing without a live command; otherwise a group kill, and
      a single-process kill when the group kill fails. */
  function Kill(p: Proc, groupFails: bool): (effects: seq<Effect>)
    ensures effects == [] <==> !p.cmd
    ensures p.cmd ==> effects[0] == GroupKill
    ensures SingleKill in effects <==> p.cmd && groupFails
    ensures forall e :: e in effects ==> e == GroupKill || e == SingleKill
  {
    if !p.cmd then [] else [GroupKill] + (if groupFails then [SingleKill] else [])
  }

  /** Whether `start`'s first send can happen: as written it blocks while
      the slot is full; as intended it never blocks, since a launch that
      is already pending is all the first send asks for. */
  predicate CanBegin(rd: Reading, p: Proc) {
    p.phase == Unstarted && (rd == Intended || p.ready < ReadyCapacity)
  }

  /** The send `start` makes before its loop. */
  function Begin(rd: Reading, p: Proc): (r: Step)
    requires CanBegin(rd, p)
    ensures r.proc.phase == LoopHead && r.proc.ready >= 1 && r.effects == []
    ensures rd == AsWritten ==> r.proc.ready == p.ready + 1
    ensures p.ready >= 1 ==> r.proc.ready == p.ready
    ensures rd == Intended && p.ready == 0 ==> r.proc.ready == 1
    ensures r.proc.(phase := p.phase, ready := p.ready) == p
  {
    Step(p.(phase := LoopHead, ready := if p.ready == 0 then 1 else p.ready), [])
  }

  /** The loop condition: a stopped supervisor returns, any other goes on
      to receive from `ready`. */
  function LoopTest(p: Proc): (r: Step)
    requires p.phase == LoopHead
    ensures r.proc.phase == Done <==> p.stopped
    ensures r.proc.phase == Done || r.proc.phase == Receiving
    ensures r.proc.(phase := p.phase) == p && r.effects == []
  {
    if p.stopped then Step(p.(phase := Done), []) else Step(p.(phase := Receiving), [])
  }

  /** Whether the receive re-tests `stopped` when it wakes: only as
      intended, where `stop` also wakes a waiting receive. */
  predicate Rechecks(rd: Reading, p: Proc) {
    rd == Intended && p.stopped
  }

  /** Whether the receive can complete: a launch is pending, or, as
      intended, the supervisor has been stopped. */
  predicate CanLaunch(rd: Reading, p: Proc) {
    p.phase == Receiving && (p.ready > 0 || Rechecks(rd, p))
  }

  /** The receive and what follows it: a pending launch is taken and the
      program is started, `started` telling whether `cmd.Start` succeeded.
      spy resets `killed` after a successful start, watcher before every
      attempt. As intended, a stopped supervisor returns instead. */
  function Launch(rd: Reading, p: Proc, started: bool): (r: Step)
    requires CanLaunch(rd, p)
    ensures Rechecks(rd, p) ==> r == Step(p.(phase := Done), [])
    ensures !Rechecks(rd, p) ==> r.proc.ready + 1 == p.ready
    ensures !Rechecks(rd, p) ==> (r.proc.phase == Running <==> started)
    ensures !Rechecks(rd, p) && !started ==> r.proc.phase == LoopHead
    ensures !Rechecks(rd, p) ==> r.proc.cmd == (started || p.cmd)
    ensures !Rechecks(rd, p) ==> (Spawn(p.prog, p.args) in r.effects <==> started)
    ensures !Rechecks(rd, p) && !started ==> r.effects == [SpawnFailed, Pause(RetryPause)]
    ensures !Rechecks(rd, p) && started ==> !r.proc.killed
    ensures !Rechecks(rd, p) && !started ==> (r.proc.killed <==> p.flavor.SpyFlavor? && p.killed)
    ensures r.proc.flavor == p.flavor && r.proc.prog == p.prog && r.proc.args == p.args
    ensures r.proc.restarting == p.restarting && r.proc.stopped == p.stopped
  {
    if Rechecks(rd, p) then Step(p.(phase := Done), [])
    else
      var taken := p.(ready := p.ready - 1);
      var tried := if p.flavor.SpyFlavor? then taken else taken.(killed := false);
      if !started then Step(tried.(phase := LoopHead), [SpawnFailed, Pause(RetryPause)])
      else Step(tried.(killed := false, cmd := true, phase := Running), [Spawn(p.prog, p.args)])
  }

  /** The child exits: its exit is reported unless the supervisor killed
      it, the command is dropped, and the loop goes round again. */
  function ChildExit(p: Proc, w: WaitResult): (r: Step)
    requires p.phase == Running
    ensures r.proc.phase == LoopHead && !r.proc.cmd
    ensures r.proc.(phase := p.phase, cmd := p.cmd) == p
    ensures |r.effects| == (if p.killed then 0 else 1)
    ensures forall e :: e in r.effects ==> e == ExitReport(p.flavor, w)
  {
    Step(p.(phase := LoopHead, cmd := false),
         if p.killed then [] else [ExitReport(p.flavor, w)])
  }

  /** `restart` up to its sleep: a restart already under way absorbs this
      one. */
  function RestartBegin(p: Proc): (r: Step)
    ensures p.restarting ==> r == Step(p, [])
    ensures !p.restarting ==> r.proc.restarting && r.proc.(restarting := false) == p
    ensures !p.restarting ==> r.effects == [Pause(p.delay)]
  {
    if p.restarting then Step(p, []) else Step(p.(restarting := true), [Pause(p.delay)])
  }

  /** `restart` after its sleep: mark the child as killed, kill it, queue a
      launch unless one is already pending, and finish the restart. */
  function RestartEnd(p: Proc, groupFails: bool): (r: Step)
    requires p.restarting
    ensures r.proc.killed && !r.proc.restarting
    ensures r.proc.ready == if p.ready == 0 then 1 else p.ready
    ensures r.proc.phase == p.phase && r.proc.cmd == p.cmd && r.proc.stopped == p.stopped
    ensures r.effects == [Restarting] + Kill(p, groupFails)
  {
    var killed := p.(killed := true);
    var queued := if killed.ready == 0 then killed.(ready := 1) else killed;
    Step(queued.(restarting := false), [Restarting] + Kill(killed, groupFails))
  }

  /** `stop`: set the flag and kill a live command. */
  function Stop(p: Proc, groupFails: bool): (r: Step)
    ensures r.proc.stopped && r.proc.(stopped := p.stopped) == p
    ensures r.effects == Kill(p, groupFails)
  {
    Step(p.(stopped := true), if p.cmd then Kill(p, groupFails) else [])
  }

  // ---------------------------------------------------------------------
  // Runs

  /** What can happen next, from the supervisor's own loop or from the
      code that drives it. */
  datatype Input =
    | BeginInput
    | TestInput
    | LaunchInput(started: bool)
    | ExitInput(w: WaitResult)
    | RestartBeginInput
    | RestartEndInput(groupFails: bool)
    | StopInput(groupFails: bool)

  /** Whether the input can happen now: the goroutine is at the right
      place and not blocked on the channel. */
  predicate Enabled(rd: Reading, p: Proc, i: Input) {
    match i
    case BeginInput => CanBegin(rd, p)
    case TestInput => p.phase == LoopHead
    case LaunchInput(_) => CanLaunch(rd, p)
    case ExitInput(_) => p.phase == Running
    case RestartBeginInput => true
    case RestartEndInput(_) => p.restarting
    case StopInput(_) => true
  }

  function Next(rd: Reading, p: Proc, i: Input): (r: Step)
    requires Enabled(rd, p, i)
    ensures r.proc.flavor == p.flavor && r.proc.prog == p.prog && r.proc.args == p.args
    ensures p.stopped ==> r.proc.stopped
  {
    match i
    case BeginInput => Begin(rd, p)
    case TestInput => LoopTest(p)
    case LaunchInput(started) => Launch(rd, p, started)
    case ExitInput(w) => ChildExit(p, w)
    case RestartBeginInput => RestartBegin(p)
    case RestartEndInput(groupFails) => RestartEnd(p, groupFails)
    case StopInput(groupFails) => Stop(p, groupFails)
  }

  /** Apply the inputs in order; one that cannot happen yet is passed
      over. */
  function Run(rd: Reading, p: Proc, ins: seq<Input>): (r: Step)
    ensures r.proc.flavor == p.flavor && r.proc.prog == p.prog && r.proc.args == p.args
    ensures p.stopped ==> r.proc.stopped
    decreases |ins|
  {
    if ins == [] then Step(p, [])
    else
      var first := if Enabled(rd, p, ins[0]) then Next(rd, p, ins[0]) else Step(p, []);
      var rest := Run(rd, first.proc, ins[1..]);
      Step(rest.proc, first.effects + rest.effects)
  }

  /** A run starting with an input that can happen. */
  lemma RunCons(rd: Reading, p: Proc, i: Input, ins: seq<Input>)
    requires Enabled(rd, p, i)
    ensures var first := Next(rd, p, i);
            var rest := Run(rd, first.proc, ins);
            Run(rd, p, [i] + ins) == Step(rest.proc, first.effects + rest.effects)
  {
    assert ([i] + ins)[0] == i;
    assert ([i] + ins)[1..] == ins;
  }

  // ---------------------------------------------------------------------
  // Invariants

  /** At most one launch is pending, a command is live exactly while the
      loop waits for it, and the loop only returns once stopped. */
  predicate Inv(p: Proc) {
    p.ready <= ReadyCapacity && (p.cmd <==> p.phase == Running) && (p.phase == Done ==> p.stopped)
  }

  lemma FreshInv(p: Proc)
    requires Fresh(p)
    ensures Inv(p)
  {
  }

  lemma NextInv(rd: Reading, p: Proc, i: Input)
    requires Inv(p) && Enabled(rd, p, i)
    ensures Inv(Next(rd, p, i).proc)
  {
  }

  /** Every run keeps the invariant, so the ready slot never holds more
      than one launch. */
  lemma {:induction false} RunInv(rd: Reading, p: Proc, ins: seq<Input>)
    requires Inv(p)
    ensures Inv(Run(rd, p, ins).proc)
    decreases |ins|
  {
    if ins != [] {
      var first := if Enabled(rd, p, ins[0]) then Next(rd, p, ins[0]) else Step(p, []);
      if Enabled(rd, p, ins[0]) {
        NextInv(rd, p, ins[0]);
      }
      RunInv(rd, first.proc, ins[1..]);
    }
  }

  /** From a new supervisor, whatever happens, at most one launch is ever
      pending. */
  lemma AtMostOnePending(rd: Reading, flavor: Flavor, args: seq<string>, delay: int, ins: seq<Input>)
    requires args != []
    ensures Run(rd, NewProcess(flavor, args, delay).value, ins).proc.ready <= ReadyCapacity
  {
    var p := NewProcess(flavor, args, delay).value;
    FreshInv(p);
    RunInv(rd, p, ins);
  }

  // ---------------------------------------------------------------------
  // Restart coalescing

  /** `n` complete restarts, each its begin and end. */
  function Restarts(n: nat, groupFails: bool): (ins: seq<Input>)
    ensures |ins| == 2 * n
  {
    if n == 0 then [] else [RestartBeginInput, RestartEndInput(groupFails)] + Restarts(n - 1, groupFails)
  }

  /** Restarts that arrive while no launch is taken queue exactly one
      launch, however many there are, and leave the child marked as
      killed. */
  lemma {:induction false} RestartsQueueOne(rd: Reading, p: Proc, n: nat, groupFails: bool)
    requires Inv(p) && !p.restarting && n >= 1
    ensures Run(rd, p, Restarts(n, groupFails)).proc.ready == 1
    ensures Run(rd, p, Restarts(n, groupFails)).proc.killed
    ensures !Run(rd, p, Restarts(n, groupFails)).proc.restarting
    ensures Run(rd, p, Restarts(n, groupFails)).proc.phase == p.phase
    decreases n
  {
    var rest := Restarts(n - 1, groupFails);
    var a := RestartBegin(p);
    var b := RestartEnd(a.proc, groupFails);
    assert Restarts(n, groupFails) == [RestartBeginInput] + ([RestartEndInput(groupFails)] + rest);
    RunCons(rd, p, RestartBeginInput, [RestartEndInput(groupFails)] + rest);
    RunCons(rd, a.proc, RestartEndInput(groupFails), rest);
    if n > 1 {
      RestartsQueueOne(rd, b.proc, n - 1, groupFails);
    }
  }

  /** A restart arriving while another sleeps changes nothing. */
  lemma RestartAbsorbed(rd: Reading, p: Proc)
    requires p.restarting
    ensures Next(rd, p, RestartBeginInput) == Step(p, [])
  {
  }

  // ---------------------------------------------------------------------
  // Exit reports and `killed`

  /** A child killed by a restart exits silently: the restart sleeps,
      announces itself and kills, and no exit report follows. */
  lemma RestartSilencesExit(rd: Reading, p: Proc, groupFails: bool, w: WaitResult)
    requires p.phase == Running && p.cmd && !p.restarting
    ensures var a := Next(rd, p, RestartBeginInput);
            var b := Next(rd, a.proc, RestartEndInput(groupFails));
            var c := Next(rd, b.proc, ExitInput(w));
            a.effects + b.effects == [Pause(p.delay), Restarting, GroupKill] + (if groupFails then [SingleKill] else []) &&
            c.effects == []
  {
  }

  /** A child the supervisor did not kill has its exit reported, in the
      flavour's form. */
  lemma UnkilledExitReported(p: Proc, w: WaitResult)
    requires p.phase == Running && !p.killed
    ensures ChildExit(p, w).effects == [ExitReport(p.flavor, w)]
  {
  }

  /** Every child starts out unkilled, in both flavours, so its own exit
      will be reported unless a restart intervenes. */
  lemma StartedChildUnkilled(rd: Reading, p: Proc)
    requires p.phase == Receiving && !p.stopped && p.ready > 0
    ensures var q := Launch(rd, p, true).proc;
            !q.killed && q.phase == Running && q.cmd &&
            forall w :: ChildExit(q, w).effects == [ExitReport(p.flavor, w)]
  {
  }

  /** After a failed start spy still remembers a kill, while watcher has
      already forgotten it. */
  lemma FailedStartKilled(rd: Reading, p: Proc)
    requires p.phase == Receiving && !p.stopped && p.ready > 0 && p.killed
    ensures Launch(rd, p, false).proc.killed <==> p.flavor.SpyFlavor?
  {
  }

  /** `stop` does not mark the child as killed: the exit of a child ended
      by `stop` is still reported. */
  lemma StopExitReported(rd: Reading, p: Proc, groupFails: bool, w: WaitResult)
    requires p.phase == Running && p.cmd && !p.killed
    ensures var a := Next(rd, p, StopInput(groupFails));
            var b := Next(rd, a.proc, ExitInput(w));
            a.effects == [GroupKill] + (if groupFails then [SingleKill] else []) &&
            b.effects == [ExitReport(p.flavor, w)]
  {
  }

  // ---------------------------------------------------------------------
  // Stopping

  predicate NoSpawn(effects: seq<Effect>) {
    forall k :: 0 <= k < |effects| ==> !effects[k].Spawn?
  }

  /** After `stop`, a loop at its head returns at the next test. */
  lemma StopEndsLoop(rd: Reading, p: Proc, groupFails: bool)
    requires p.phase == LoopHead
    ensures var s := Stop(p, groupFails).proc;
            Enabled(rd, s, TestInput) && Next(rd, s, TestInput) == Step(s.(phase := Done), [])
  {
  }

  /** As written, `stop` does not reach a loop that is already waiting on
      an empty slot: the receive stays blocked. */
  lemma StopLeavesReceiveBlocked(p: Proc, groupFails: bool, started: bool)
    requires p.phase == Receiving && p.ready == 0
    ensures !Enabled(AsWritten, Stop(p, groupFails).proc, LaunchInput(started))
    ensures Stop(p, groupFails).proc.phase == Receiving
  {
  }

  /** A waiting loop is reached, as written, from a new supervisor whose
      first child has exited: its first send, the loop test, a successful
      start, the exit and the next loop test leave it receiving from an
      empty slot. */
  lemma ReceivingAfterFirstExit(flavor: Flavor, args: seq<string>, delay: int, w: WaitResult)
    requires args != []
    ensures var p0 := NewProcess(flavor, args, delay).value;
            var p1 := Next(AsWritten, p0, BeginInput).proc;
            var p2 := Next(AsWritten, p1, TestInput).proc;
            Enabled(AsWritten, p2, LaunchInput(true)) &&
            var p3 := Next(AsWritten, p2, LaunchInput(true)).proc;
            var p4 := Next(AsWritten, p3, ExitInput(w)).proc;
            var p5 := Next(AsWritten, p4, TestInput).proc;
            p5.phase == Receiving && p5.ready == 0 && !p5.restarting && !p5.stopped
  {
  }

  /** As written, a restart that follows `stop` wakes the waiting receive,
      and the program is started again though the supervisor is
      stopped. */
  lemma SpawnAfterStop(p: Proc, groupFails: bool)
    requires p.phase == Receiving && p.ready == 0 && !p.restarting
    ensures var a := Next(AsWritten, p, StopInput(groupFails)).proc;
            var b := Next(AsWritten, a, RestartBeginInput).proc;
            var c := Next(AsWritten, b, RestartEndInput(groupFails)).proc;
            Enabled(AsWritten, c, LaunchInput(true)) &&
            var d := Next(AsWritten, c, LaunchInput(true));
            d.proc.stopped && d.proc.phase == Running && d.effects == [Spawn(p.prog, p.args)]
  {
  }

  /** As intended, `stop` wakes a waiting receive, which re-tests the flag
      and returns. */
  lemma StopWakesReceive(p: Proc, groupFails: bool, started: bool)
    requires p.phase == Receiving
    ensures var s := Stop(p, groupFails).proc;
            Enabled(Intended, s, LaunchInput(started)) &&
            Next(Intended, s, LaunchInput(started)) == Step(s.(phase := Done), [])
  {
  }

  /** As intended, once stopped the supervisor never starts the program
      again, whatever follows and wherever the loop is. */
  lemma {:induction false} StoppedNeverSpawns(p: Proc, ins: seq<Input>)
    requires p.stopped
    ensures NoSpawn(Run(Intended, p, ins).effects)
    ensures Run(Intended, p, ins).proc.stopped
    decreases |ins|
  {
    if ins != [] {
      var first := if Enabled(Intended, p, ins[0]) then Next(Intended, p, ins[0]) else Step(p, []);
      assert NoSpawn(first.effects);
      StoppedNeverSpawns(first.proc, ins[1..]);
    }
  }

  // ---------------------------------------------------------------------
  // An early restart

  /** As written, a restart that completes before `start` makes its first
      send fills the slot, so that send blocks for good and the program
      never starts. */
  lemma {:induction false} EarlyRestartBlocksStart(p: Proc, ins: seq<Input>)
    requires p.phase == Unstarted && p.ready == ReadyCapacity
    ensures NoSpawn(Run(AsWritten, p, ins).effects)
    ensures Run(AsWritten, p, ins).proc.phase == Unstarted
    decreases |ins|
  {
    if ins != [] {
      var first := if Enabled(AsWritten, p, ins[0]) then Next(AsWritten, p, ins[0]) else Step(p, []);
      assert NoSpawn(first.effects);
      EarlyRestartBlocksStart(first.proc, ins[1..]);
    }
  }

  /** A fresh supervisor restarted once before `start` runs is in that
      state, in either reading. */
  lemma RestartBeforeStart(rd: Reading, flavor: Flavor, args: seq<string>, delay: int, groupFails: bool)
    requires args != []
    ensures var r := Run(rd, NewProcess(flavor, args, delay).value, Restarts(1, groupFails)).proc;
            r.phase == Unstarted && r.ready == ReadyCapacity
  {
    var p := NewProcess(flavor, args, delay).value;
    FreshInv(p);
    RestartsQueueOne(rd, p, 1, groupFails);
  }

  /** As intended, the first send does not block on a full slot: `start`
      enters its loop, takes the pending launch and starts the program. */
  lemma EarlyRestartStarts(p: Proc)
    requires p.phase == Unstarted && p.ready == ReadyCapacity && !p.stopped
    ensures var a := Next(Intended, p, BeginInput).proc;
            var b := Next(Intended, a, TestInput).proc;
            Enabled(Intended, b, LaunchInput(true)) &&
            var c := Next(Intended, b, LaunchInput(true));
            c.effects == [Spawn(p.prog, p.args)] && c.proc.phase == Running && c.proc.ready == 0
  {
  }
}
