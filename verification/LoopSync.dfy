/** The recursive loop lock of src/pomp_loop_sync.c, as a labelled transition system.
    Every access to `owner`, `count` and `waiters` happens with the internal mutex held, so the code
    between two points where the mutex is free (entry, a condition wait, exit) is one step. */
module LoopSync {
  import opened Wrappers
  import opened Collections

  type Thread = nat

  /** Where a thread stands with respect to the lock. */
  datatype Pc =
    | Outside                     // in user code, possibly owning the lock
    | WaitWaiters                 // blocking caller parked on `cond_waiters`
    | WaitCount(willblock: bool, inCallback: bool)  // parked on `cond_count`
    | Polling                     // owner, asleep in the poll of wait_and_process
    | Processing                  // running the callbacks of wait_and_process

  datatype State = State(
    owner: Option<Thread>,
    count: int,
    waiters: int,
    pc: map<Thread, Pc>,
    signalled: set<Thread>,       // parked threads with a pending wake-up
    wakeup: bool,                 // the loop's wake-up event is pending
    depth: map<Thread, int>)      // locks minus unlocks performed by each thread

  /** `pick` is the thread chosen by the condition signal of the step, if it signals. */
  datatype Label =
    | Lock(t: Thread, willblock: bool, pick: Option<Thread>)
    | Wake(t: Thread, pick: Option<Thread>)  // signalled or spurious return of a condition wait
    | Unlock(t: Thread, pick: Option<Thread>)
    | PollReturn(t: Thread)
    | ConsumeWakeup(t: Thread)
    | Finish(t: Thread, pick: Option<Thread>)
    | LoopWakeup

  predicate IsWaiting(pc: Pc) {
    pc.WaitWaiters? || pc.WaitCount?
  }

  /** Inside a blocking wait_and_process. */
  predicate IsBlocking(pc: Pc) {
    pc.WaitWaiters? || (pc.WaitCount? && (pc.willblock || pc.inCallback)) || pc.Polling? || pc.Processing?
  }

  /** Where a thread goes once it has the lock. */
  function Granted(willblock: bool, inCallback: bool): Pc {
    if willblock then Polling else if inCallback then Processing else Outside
  }

  function Waiting(pc: map<Thread, Pc>): set<Thread> {
    set t | t in pc && IsWaiting(pc[t])
  }

  function OnCount(pc: map<Thread, Pc>): set<Thread> {
    set t | t in pc && pc[t].WaitCount?
  }

  function OnWaiters(pc: map<Thread, Pc>): set<Thread> {
    set t | t in pc && pc[t].WaitWaiters?
  }

  /** A signal wakes one parked thread that has no pending wake-up, if there is one. */
  predicate ValidPick(s: State, parked: set<Thread>, pick: Option<Thread>) {
    match pick
    case Some(w) => w in parked - s.signalled
    case None => parked - s.signalled == {}
  }

  function Picked(pick: Option<Thread>): set<Thread> {
    match pick
    case Some(w) => {w}
    case None => {}
  }

  /** Leaving the waiting section with the lock. */
  ghost predicate Acquire(s: State, t: Thread, to: Pc, pick: Option<Thread>, s': State)
    requires t in s.pc && t in s.depth
  {
    var left := s.(waiters := s.waiters - 1, owner := Some(t), count := s.count + 1,
                   pc := s.pc[t := to],
                   signalled := s.signalled - {t},
                   depth := s.depth[t := s.depth[t] + 1]);
    if left.waiters <= 1 then
      ValidPick(left, OnWaiters(left.pc), pick) && s' == left.(signalled := left.signalled + Picked(pick))
    else
      s' == left
  }

  /** The loop on `count`: park on `cond_count` after waking the loop, or acquire. */
  ghost predicate CountLoop(s: State, t: Thread, willblock: bool, inCallback: bool,
                            pick: Option<Thread>, s': State)
    requires t in s.pc && t in s.depth
  {
    if s.count != 0 then
      s' == s.(wakeup := true, pc := s.pc[t := WaitCount(willblock, inCallback)], signalled := s.signalled - {t})
    else
      Acquire(s, t, Granted(willblock, inCallback), pick, s')
  }

  /** The loop on `waiters`, taken by blocking callers only. */
  ghost predicate WaitersLoop(s: State, t: Thread, pick: Option<Thread>, s': State)
    requires t in s.pc && t in s.depth
  {
    if s.waiters > 1 then
      s' == s.(pc := s.pc[t := WaitWaiters], signalled := s.signalled - {t})
    else
      CountLoop(s, t, true, false, pick, s')
  }

  ghost predicate LockStep(s: State, t: Thread, willblock: bool, pick: Option<Thread>, s': State)
    requires t in s.pc && t in s.depth
  {
    if s.owner == Some(t) then
      s' == s.(count := s.count + 1, depth := s.depth[t := s.depth[t] + 1],
               pc := if willblock then s.pc[t := Polling] else s.pc)
    else
      var entered := s.(waiters := s.waiters + 1);
      if willblock then WaitersLoop(entered, t, pick, s')
      else CountLoop(entered, t, false, s.pc[t].Processing?, pick, s')
  }

  /** Unlock by a thread that is not the owner answers -EPERM and changes nothing. */
  ghost predicate UnlockStep(s: State, t: Thread, pick: Option<Thread>, s': State)
    requires t in s.depth
  {
    if s.owner != Some(t) then
      s' == s
    else if s.count - 1 != 0 then
      s' == s.(count := s.count - 1, depth := s.depth[t := s.depth[t] - 1])
    else
      var freed := s.(count := 0, owner := None, depth := s.depth[t := s.depth[t] - 1]);
      ValidPick(freed, OnCount(freed.pc), pick) && s' == freed.(signalled := freed.signalled + Picked(pick))
  }

  ghost predicate Step(s: State, l: Label, s': State) {
    match l
    case Lock(t, willblock, pick) =>
      t in s.pc && t in s.depth
      && (s.pc[t].Outside? || (s.pc[t].Processing? && !willblock))
      && LockStep(s, t, willblock, pick, s')
    case Wake(t, pick) =>
      t in s.pc && t in s.depth
      && (match s.pc[t]
          case WaitWaiters => WaitersLoop(s, t, pick, s')
          case WaitCount(willblock, inCallback) => CountLoop(s, t, willblock, inCallback, pick, s')
          case _ => false)
    case Unlock(t, pick) =>
      t in s.pc && t in s.depth
      && (s.pc[t].Outside? || s.pc[t].Processing?)
      && UnlockStep(s, t, pick, s')
    case PollReturn(t) =>
      t in s.pc && s.pc[t].Polling? && s' == s.(pc := s.pc[t := Processing])
    case ConsumeWakeup(t) =>
      t in s.pc && s.pc[t].Processing? && s' == s.(wakeup := false)
    case Finish(t, pick) =>
      t in s.pc && t in s.depth && s.pc[t].Processing?
      && UnlockStep(s.(pc := s.pc[t := Outside]), t, pick, s')
    case LoopWakeup =>
      s' == s.(wakeup := true)
  }

  /** The usage rule: one blocking caller at a time, holding no outer lock. Callbacks may release locks they did not
      take, and return with locks they took. */
  predicate Allowed(s: State, l: Label) {
    l.Lock? && l.willblock ==> s.owner != Some(l.t) && forall b | b in s.pc :: !IsBlocking(s.pc[b])
  }

  ghost predicate Init(s: State) {
    && s.owner == None && s.count == 0 && s.waiters == 0
    && s.signalled == {} && !s.wakeup
    && s.depth.Keys == s.pc.Keys
    && (forall t | t in s.pc :: s.pc[t] == Outside && s.depth[t] == 0)
  }

  ghost predicate IsRun(states: seq<State>, labels: seq<Label>) {
    && |states| == |labels| + 1
    && Init(states[0])
    && forall i | 0 <= i < |labels| :: Step(states[i], labels[i], states[i + 1])
  }

  ghost predicate Disciplined(states: seq<State>, labels: seq<Label>) {
    |states| == |labels| + 1 && forall i | 0 <= i < |labels| :: Allowed(states[i], labels[i])
  }

  // ----- Invariant -----

  ghost predicate Counted(s: State) {
    s.waiters == |Waiting(s.pc)|
  }

  /** `count` is the nesting depth of the owner, who is not waiting. */
  ghost predicate Owned(s: State) {
    && s.depth.Keys == s.pc.Keys
    && s.count >= 0
    && (s.owner.Some? <==> s.count > 0)
    && (forall t | t in s.pc :: s.depth[t] == if s.owner == Some(t) then s.count else 0)
    && (forall t | t in s.pc && s.owner == Some(t) :: !IsWaiting(s.pc[t]))
    && (s.owner.Some? ==> s.owner.value in s.pc)
    && (forall t | t in s.pc && s.pc[t].Polling? :: s.owner == Some(t))
  }

  ghost predicate Parked(s: State) {
    forall t | t in s.signalled :: t in s.pc && IsWaiting(s.pc[t])
  }

  /** Lock safety: the counters mean what their names say. */
  ghost predicate Safe(s: State) {
    Owned(s) && Counted(s) && Parked(s)
  }

  ghost predicate OneBlocker(s: State) {
    forall a, b | a in s.pc && b in s.pc && IsBlocking(s.pc[a]) && IsBlocking(s.pc[b]) :: a == b
  }

  ghost predicate PollsOnce(s: State) {
    forall t | t in s.pc && s.pc[t].Polling? :: s.count == 1
  }

  /** A parked blocking caller that nobody will wake has someone to wait for. */
  ghost predicate WaitersLive(s: State) {
    forall b | b in s.pc && s.pc[b].WaitWaiters? && b !in s.signalled :: s.waiters > 1
  }

  /** If the lock is free and threads are parked on `cond_count`, one of them has a wake-up pending. */
  ghost predicate CountLive(s: State) {
    forall t | t in s.pc && s.pc[t].WaitCount? && s.count == 0 :: CountWakePending(s)
  }

  ghost predicate CountWakePending(s: State) {
    exists w :: w in s.signalled && w in s.pc && s.pc[w].WaitCount?
  }

  /** The blocking caller never sleeps in poll, or heads for it, over the head of another thread. */
  ghost predicate PollLive(s: State) {
    forall b, t | b in s.pc && t in s.pc && s.pc[t].WaitCount? && b != t :: HeadsForPoll(s.pc[b]) ==> s.wakeup
  }

  predicate HeadsForPoll(pc: Pc) {
    (pc.WaitCount? && pc.willblock) || pc.Polling?
  }

  ghost predicate Live(s: State) {
    OneBlocker(s) && PollsOnce(s) && WaitersLive(s) && CountLive(s) && PollLive(s)
  }

  // ----- Moving one thread -----

  function Inside(pc: Pc): int {
    if IsWaiting(pc) then 1 else 0
  }

  lemma Recount(pc: map<Thread, Pc>, t: Thread, p: Pc)
    requires t in pc
    ensures |Waiting(pc[t := p])| == |Waiting(pc)| + Inside(p) - Inside(pc[t])
  {
    var rest := Waiting(pc) - {t};
    assert Waiting(pc) == if IsWaiting(pc[t]) then rest + {t} else rest;
    assert Waiting(pc[t := p]) == if IsWaiting(p) then rest + {t} else rest;
  }

  lemma OthersCount(pc: map<Thread, Pc>, t: Thread, u: Thread)
    requires t in pc && u in pc && t != u && IsWaiting(pc[u])
    ensures |Waiting(pc)| >= 1 + Inside(pc[t])
  {
    var two := if IsWaiting(pc[t]) then {t, u} else {u};
    assert two <= Waiting(pc);
    Subset(two, Waiting(pc));
  }

  /** `s` is `was` with `t`, which is not the owner, counted in the waiting section. */
  ghost predicate Entered(was: State, t: Thread, s: State) {
    && t in was.pc && t in was.depth && was.owner != Some(t)
    && s == was.(waiters := was.waiters + 1 - Inside(was.pc[t]))
  }

  // ----- Safety of each step -----

  lemma AcquireSafe(was: State, s: State, t: Thread, to: Pc, pick: Option<Thread>, s': State)
    requires Safe(was) && Entered(was, t, s) && was.count == 0
    requires Acquire(s, t, to, pick, s') && !IsWaiting(to)
    ensures Safe(s')
  {
    Recount(was.pc, t, to);
  }

  lemma ParkSafe(was: State, s: State, t: Thread, p: Pc, s': State)
    requires Safe(was) && Entered(was, t, s) && IsWaiting(p)
    requires s' == s.(wakeup := s'.wakeup, pc := s.pc[t := p], signalled := s.signalled - {t})
    ensures Safe(s')
  {
    Recount(was.pc, t, p);
  }

  lemma CountLoopSafe(was: State, s: State, t: Thread, willblock: bool, inCallback: bool,
                      pick: Option<Thread>, s': State)
    requires Safe(was) && Entered(was, t, s) && CountLoop(s, t, willblock, inCallback, pick, s')
    ensures Safe(s')
  {
    if s.count != 0 {
      ParkSafe(was, s, t, WaitCount(willblock, inCallback), s');
    } else {
      AcquireSafe(was, s, t, Granted(willblock, inCallback), pick, s');
    }
  }

  lemma WaitersLoopSafe(was: State, s: State, t: Thread, pick: Option<Thread>, s': State)
    requires Safe(was) && Entered(was, t, s) && WaitersLoop(s, t, pick, s')
    ensures Safe(s')
  {
    if s.waiters > 1 {
      ParkSafe(was, s, t, WaitWaiters, s');
    } else {
      CountLoopSafe(was, s, t, true, false, pick, s');
    }
  }

  lemma LockSafe(s: State, t: Thread, willblock: bool, pick: Option<Thread>, s': State)
    requires Safe(s) && Step(s, Lock(t, willblock, pick), s')
    ensures Safe(s')
  {
    if s.owner == Some(t) {
      RelockSafe(s, t, willblock, s');
    } else {
      hide Safe, CountLoop, WaitersLoop;
      var entered := s.(waiters := s.waiters + 1);
      NotWaiting(s, t, willblock, pick, s');
      if willblock {
        WaitersLoopSafe(s, entered, t, pick, s');
      } else {
        CountLoopSafe(s, entered, t, false, s.pc[t].Processing?, pick, s');
      }
    }
  }

  lemma NotWaiting(s: State, t: Thread, willblock: bool, pick: Option<Thread>, s': State)
    requires Step(s, Lock(t, willblock, pick), s')
    ensures t in s.pc && Inside(s.pc[t]) == 0
  {
  }

  /** The owner locks again. */
  lemma RelockSafe(s: State, t: Thread, willblock: bool, s': State)
    requires Safe(s) && s.owner == Some(t) && t in s.pc && t in s.depth
    requires s' == s.(count := s.count + 1, depth := s.depth[t := s.depth[t] + 1],
                      pc := if willblock then s.pc[t := Polling] else s.pc)
    ensures Safe(s')
  {
    Recount(s.pc, t, Polling);
  }

  lemma WakeSafe(s: State, t: Thread, pick: Option<Thread>, s': State)
    requires Safe(s) && Step(s, Wake(t, pick), s')
    ensures Safe(s')
  {
    assert s.(waiters := s.waiters + 1 - Inside(s.pc[t])) == s;
    if s.pc[t].WaitWaiters? {
      WaitersLoopSafe(s, s, t, pick, s');
    } else {
      CountLoopSafe(s, s, t, s.pc[t].willblock, s.pc[t].inCallback, pick, s');
    }
  }

  lemma UnlockSafe(s: State, t: Thread, pick: Option<Thread>, s': State)
    requires t in s.pc && (s.pc[t].Outside? || s.pc[t].Processing?)
    requires Safe(s) && UnlockStep(s, t, pick, s')
    ensures Safe(s')
  {
    assert s'.pc == s.pc;
  }

  lemma RelabelSafe(s: State, t: Thread, p: Pc, s': State)
    requires Safe(s) && t in s.pc && (s.pc[t].Polling? || s.pc[t].Processing?)
    requires p.Processing? || p.Outside?
    requires s' == s.(pc := s.pc[t := p])
    ensures Safe(s')
  {
    Recount(s.pc, t, p);
  }

  /** Safety does not need the usage rule: callbacks may even release locks they did not take. */
  lemma StepSafe(s: State, l: Label, s': State)
    requires Safe(s) && Step(s, l, s')
    ensures Safe(s')
  {
    match l
    case Lock(t, willblock, pick) => LockSafe(s, t, willblock, pick, s');
    case Wake(t, pick) => WakeSafe(s, t, pick, s');
    case Unlock(t, pick) => UnlockSafe(s, t, pick, s');
    case PollReturn(t) => RelabelSafe(s, t, Processing, s');
    case ConsumeWakeup(t) =>
    case Finish(t, pick) =>
      var left := s.(pc := s.pc[t := Outside]);
      RelabelSafe(s, t, Outside, left);
      UnlockSafe(left, t, pick, s');
    case LoopWakeup =>
  }

  // ----- Liveness of each step -----

  ghost predicate MayBlock(was: State, t: Thread, willblock: bool, inCallback: bool) {
    && (willblock || inCallback ==> forall b | b in was.pc && b != t :: !IsBlocking(was.pc[b]))
    && (t in was.pc && IsWaiting(was.pc[t]) ==> (willblock || inCallback) == IsBlocking(was.pc[t]))
    && (t in was.pc && was.pc[t].WaitCount? ==> was.pc[t].willblock == willblock)
  }

  /** When `t` takes the free lock. */
  ghost predicate Takes(was: State, s: State, t: Thread, willblock: bool, inCallback: bool,
                        pick: Option<Thread>, s': State)
  {
    && Owned(was) && Entered(was, t, s) && was.count == 0 && MayBlock(was, t, willblock, inCallback)
    && (willblock && !was.pc[t].WaitCount? ==> forall u | u in was.pc && u != t :: !IsWaiting(was.pc[u]))
    && t in s.pc && t in s.depth && Acquire(s, t, Granted(willblock, inCallback), pick, s')
  }

  lemma AcquirePolls(was: State, s: State, t: Thread, willblock: bool, inCallback: bool,
                     pick: Option<Thread>, s': State)
    requires Live(was) && Takes(was, s, t, willblock, inCallback, pick, s')
    ensures OneBlocker(s') && PollsOnce(s')
  {
    hide WaitersLive, CountLive, PollLive, ValidPick;
  }

  lemma AcquireHeads(was: State, s: State, t: Thread, willblock: bool, inCallback: bool,
                     pick: Option<Thread>, s': State)
    requires Live(was) && Takes(was, s, t, willblock, inCallback, pick, s')
    ensures PollLive(s')
  {
    hide WaitersLive, CountLive, PollsOnce, ValidPick;
  }

  lemma AcquireWakes(was: State, s: State, t: Thread, willblock: bool, inCallback: bool,
                     pick: Option<Thread>, s': State)
    requires Live(was) && Takes(was, s, t, willblock, inCallback, pick, s')
    ensures WaitersLive(s') && CountLive(s')
  {
  }

  lemma AcquireLive(was: State, s: State, t: Thread, willblock: bool, inCallback: bool,
                    pick: Option<Thread>, s': State)
    requires Live(was) && Takes(was, s, t, willblock, inCallback, pick, s')
    ensures Live(s')
  {
    hide Takes;
    AcquirePolls(was, s, t, willblock, inCallback, pick, s');
    AcquireHeads(was, s, t, willblock, inCallback, pick, s');
    AcquireWakes(was, s, t, willblock, inCallback, pick, s');
  }

  lemma ParkOnCountLive(was: State, s: State, t: Thread, willblock: bool, inCallback: bool, s': State)
    requires Live(was) && Owned(was) && Entered(was, t, s) && MayBlock(was, t, willblock, inCallback) && s.count != 0
    requires s' == s.(wakeup := true, pc := s.pc[t := WaitCount(willblock, inCallback)], signalled := s.signalled - {t})
    ensures Live(s')
  {
  }

  lemma ParkOnWaitersLive(was: State, s: State, t: Thread, s': State)
    requires Live(was) && Owned(was) && Entered(was, t, s) && MayBlock(was, t, true, false) && s.waiters > 1
    requires !was.pc[t].WaitCount?
    requires s' == s.(pc := s.pc[t := WaitWaiters], signalled := s.signalled - {t})
    ensures Live(s')
  {
    if CountWakePending(was) {
      var w :| w in was.signalled && w in was.pc && was.pc[w].WaitCount?;
      assert w in s'.signalled && w in s'.pc && s'.pc[w].WaitCount?;
    }
  }

  lemma CountLoopLive(was: State, s: State, t: Thread, willblock: bool, inCallback: bool,
                      pick: Option<Thread>, s': State)
    requires Live(was) && Safe(was) && Entered(was, t, s) && MayBlock(was, t, willblock, inCallback)
    requires willblock ==> s.waiters <= 1 || was.pc[t].WaitCount?
    requires CountLoop(s, t, willblock, inCallback, pick, s')
    ensures Live(s')
  {
    if s.count != 0 {
      ParkOnCountLive(was, s, t, willblock, inCallback, s');
    } else {
      forall u | u in was.pc && u != t && s.waiters <= 1 ensures !IsWaiting(was.pc[u]) {
        if IsWaiting(was.pc[u]) {
          OthersCount(was.pc, t, u);
        }
      }
      AcquireLive(was, s, t, willblock, inCallback, pick, s');
    }
  }

  lemma WaitersLoopLive(was: State, s: State, t: Thread, pick: Option<Thread>, s': State)
    requires Live(was) && Safe(was) && Entered(was, t, s) && MayBlock(was, t, true, false) && !was.pc[t].WaitCount?
    requires WaitersLoop(s, t, pick, s')
    ensures Live(s')
  {
    if s.waiters > 1 {
      ParkOnWaitersLive(was, s, t, s');
    } else {
      CountLoopLive(was, s, t, true, false, pick, s');
    }
  }

  lemma LockLive(s: State, t: Thread, willblock: bool, pick: Option<Thread>, s': State)
    requires Live(s) && Safe(s) && Step(s, Lock(t, willblock, pick), s') && Allowed(s, Lock(t, willblock, pick))
    ensures Live(s')
  {
    if s.owner != Some(t) {
      var entered := s.(waiters := s.waiters + 1);
      if willblock {
        WaitersLoopLive(s, entered, t, pick, s');
      } else {
        CountLoopLive(s, entered, t, false, s.pc[t].Processing?, pick, s');
      }
    }
  }

  lemma WakeLive(s: State, t: Thread, pick: Option<Thread>, s': State)
    requires Live(s) && Safe(s) && Step(s, Wake(t, pick), s')
    ensures Live(s')
  {
    assert s.(waiters := s.waiters + 1 - Inside(s.pc[t])) == s;
    if s.pc[t].WaitWaiters? {
      WaitersLoopLive(s, s, t, pick, s');
    } else {
      CountLoopLive(s, s, t, s.pc[t].willblock, s.pc[t].inCallback, pick, s');
    }
  }

  lemma UnlockLive(s: State, t: Thread, pick: Option<Thread>, s': State)
    requires t in s.pc && (s.pc[t].Outside? || s.pc[t].Processing?)
    requires Live(s) && Owned(s) && UnlockStep(s, t, pick, s')
    ensures Live(s')
  {
    assert s'.pc == s.pc;
    forall c | c in s'.pc && s'.pc[c].WaitCount? && s'.count == 0 ensures CountWakePending(s') {
      assert c in OnCount(s.pc);
      if s.owner == Some(t) {
        assert c in s.signalled || pick.Some?;
      }
    }
  }

  lemma RelabelLive(s: State, t: Thread, p: Pc, s': State)
    requires Live(s) && Owned(s) && t in s.pc && (s.pc[t].Polling? || s.pc[t].Processing?)
    requires p.Processing? || p.Outside?
    requires s' == s.(pc := s.pc[t := p])
    ensures Live(s')
  {
    if CountWakePending(s) {
      var w :| w in s.signalled && w in s.pc && s.pc[w].WaitCount?;
      assert w in s'.signalled && w in s'.pc && s'.pc[w].WaitCount?;
    }
  }

  lemma StepLive(s: State, l: Label, s': State)
    requires Live(s) && Safe(s) && Step(s, l, s') && Allowed(s, l)
    ensures Live(s')
  {
    match l
    case Lock(t, willblock, pick) => LockLive(s, t, willblock, pick, s');
    case Wake(t, pick) => WakeLive(s, t, pick, s');
    case Unlock(t, pick) => UnlockLive(s, t, pick, s');
    case PollReturn(t) => RelabelLive(s, t, Processing, s');
    case ConsumeWakeup(t) =>
    case Finish(t, pick) =>
      var left := s.(pc := s.pc[t := Outside]);
      RelabelSafe(s, t, Outside, left);
      RelabelLive(s, t, Outside, left);
      UnlockLive(left, t, pick, s');
    case LoopWakeup =>
  }

  // ----- Theorems over runs -----

  lemma {:induction false} RunSafe(states: seq<State>, labels: seq<Label>, i: nat)
    requires IsRun(states, labels) && i < |states|
    ensures Safe(states[i])
  {
    if i == 0 {
      assert Waiting(states[0].pc) == {};
    } else {
      RunSafe(states, labels, i - 1);
      StepSafe(states[i - 1], labels[i - 1], states[i]);
    }
  }

  lemma {:induction false} RunLive(states: seq<State>, labels: seq<Label>, i: nat)
    requires IsRun(states, labels) && Disciplined(states, labels) && i < |states|
    ensures Safe(states[i]) && Live(states[i])
  {
    RunSafe(states, labels, i);
    if i > 0 {
      RunLive(states, labels, i - 1);
      StepLive(states[i - 1], labels[i - 1], states[i]);
    }
  }

  /** Over every interleaving, spurious wake-ups included: at most one thread holds the lock, `count` is
      the owner's nesting depth, and `waiters` counts the threads inside the waiting section. */
  lemma MutualExclusion(states: seq<State>, labels: seq<Label>, i: nat)
    requires IsRun(states, labels) && i < |states|
    ensures var s := states[i];
      && (s.count > 0 <==> s.owner.Some?)
      && s.waiters == |Waiting(s.pc)|
      && (forall t | t in s.depth :: s.depth[t] == if s.owner == Some(t) then s.count else 0)
      && (forall a, b | a in s.depth && b in s.depth && s.depth[a] > 0 && s.depth[b] > 0 :: a == b)
  {
    RunSafe(states, labels, i);
  }

  /** A thread that is due to wake up, and that owns the lock once it has run. */
  ghost predicate WillAcquire(s: State, t: Thread) {
    && t in s.pc && t in s.depth && t in s.signalled
    && (exists pick, s' :: Step(s, Wake(t, pick), s'))
    && (forall pick, s' :: Step(s, Wake(t, pick), s') ==> s'.owner == Some(t))
  }

  /** A signal always has a valid outcome, so acquiring is never stuck. */
  lemma AcquireEnabled(s: State, t: Thread, to: Pc)
    requires t in s.pc && t in s.depth
    ensures exists pick, s' :: Acquire(s, t, to, pick, s')
  {
    var left := s.(waiters := s.waiters - 1, owner := Some(t), count := s.count + 1,
                   pc := s.pc[t := to],
                   signalled := s.signalled - {t},
                   depth := s.depth[t := s.depth[t] + 1]);
    var parked := OnWaiters(left.pc) - left.signalled;
    if left.waiters > 1 {
      assert Acquire(s, t, to, None, left);
    } else if parked == {} {
      assert Acquire(s, t, to, None, left.(signalled := left.signalled + Picked(None)));
    } else {
      var w :| w in parked;
      assert Acquire(s, t, to, Some(w), left.(signalled := left.signalled + Picked(Some(w))));
    }
  }

  lemma WakeAcquires(s: State, t: Thread)
    requires Safe(s) && s.count == 0 && t in s.signalled
    requires s.pc[t].WaitCount? || s.waiters <= 1
    ensures WillAcquire(s, t)
  {
    var to := if s.pc[t].WaitWaiters? then Polling else Granted(s.pc[t].willblock, s.pc[t].inCallback);
    AcquireEnabled(s, t, to);
    var pick, s' :| Acquire(s, t, to, pick, s');
    assert Step(s, Wake(t, pick), s');
  }

  /** Lock progress: a free lock with waiters is about to be taken by one of them. */
  lemma FreeLockIsTaken(states: seq<State>, labels: seq<Label>, i: nat)
    requires IsRun(states, labels) && Disciplined(states, labels) && i < |states|
    requires states[i].count == 0 && Waiting(states[i].pc) != {}
    ensures exists t :: WillAcquire(states[i], t)
  {
    RunLive(states, labels, i);
    var s := states[i];
    var w :| w in Waiting(s.pc);
    if c :| c in s.pc && s.pc[c].WaitCount? {
      assert CountWakePending(s);
      var t :| t in s.signalled && t in s.pc && s.pc[t].WaitCount?;
      WakeAcquires(s, t);
    } else {
      assert Waiting(s.pc) == {w};
      WakeAcquires(s, w);
    }
  }

  /** Poll progress: the loop never sleeps holding the lock while another thread waits for it, unless
      its wake-up event is already pending. */
  lemma SleeperIsWoken(states: seq<State>, labels: seq<Label>, i: nat, b: Thread, t: Thread)
    requires IsRun(states, labels) && Disciplined(states, labels) && i < |states|
    requires b in states[i].pc && states[i].pc[b].Polling?
    requires t in states[i].pc && IsWaiting(states[i].pc[t])
    ensures states[i].owner == Some(b) && states[i].count == 1 && states[i].wakeup
  {
    RunLive(states, labels, i);
  }

  // ----- Locks held, counted from the calls -----

  /** A call that asked for the lock returned with it: at once, or when it was woken. */
  predicate Obtains(l: Label, after: State, t: Thread) {
    ((l.Lock? && l.t == t) || (l.Wake? && l.t == t)) && t in after.pc && !IsWaiting(after.pc[t])
  }

  predicate Releases(l: Label, t: Thread) {
    (l.Unlock? || l.Finish?) && l.t == t
  }

  /** Locks granted to a thread minus locks it gave back, over the first `i` steps. Giving back a lock one does not
      hold is refused. */
  function Holds(states: seq<State>, labels: seq<Label>, i: nat, t: Thread): nat
    requires |states| == |labels| + 1 && i <= |labels|
  {
    if i == 0 then 0
    else
      var before := Holds(states, labels, i - 1, t);
      if Obtains(labels[i - 1], states[i], t) then before + 1
      else if Releases(labels[i - 1], t) && before > 0 then before - 1
      else before
  }

  /** What a step does to the number of locks of a thread. */
  lemma StepCounts(s: State, l: Label, s': State, t: Thread)
    requires Safe(s) && Step(s, l, s') && t in s.pc
    ensures t in s'.pc && t in s.depth && t in s'.depth
    ensures s'.depth[t] ==
      if Obtains(l, s', t) then s.depth[t] + 1
      else if Releases(l, t) && s.depth[t] > 0 then s.depth[t] - 1
      else s.depth[t]
  {
    hide Counted, Parked, ValidPick, Waiting, OnCount, OnWaiters, CountLoop, UnlockStep;
    match l {
      case Lock(u, willblock, pick) =>
        if s.owner != Some(u) && (!willblock || s.waiters + 1 <= 1) {
          LoopCounts(s.(waiters := s.waiters + 1), u, willblock, !willblock && s.pc[u].Processing?, pick, s', t);
        }
      case Wake(u, pick) =>
        match s.pc[u] {
          case WaitWaiters => if s.waiters <= 1 { LoopCounts(s, u, true, false, pick, s', t); }
          case WaitCount(willblock, inCallback) => LoopCounts(s, u, willblock, inCallback, pick, s', t);
        }
      case Unlock(u, pick) => UnlockCounts(s, u, pick, s', t);
      case Finish(u, pick) => UnlockCounts(s.(pc := s.pc[u := Outside]), u, pick, s', t);
      case _ =>
    }
  }

  lemma LoopCounts(s: State, u: Thread, willblock: bool, inCallback: bool, pick: Option<Thread>, s': State, t: Thread)
    requires s.depth.Keys == s.pc.Keys && u in s.pc && t in s.pc && CountLoop(s, u, willblock, inCallback, pick, s')
    ensures t in s'.pc && t in s'.depth
    ensures s'.depth[t] == s.depth[t] + if u == t && !IsWaiting(s'.pc[u]) then 1 else 0
  {
    hide ValidPick, OnWaiters;
  }

  lemma UnlockCounts(s: State, u: Thread, pick: Option<Thread>, s': State, t: Thread)
    requires s.depth.Keys == s.pc.Keys && u in s.pc && t in s.pc && UnlockStep(s, u, pick, s')
    requires s.depth[u] > 0 <==> s.owner == Some(u)
    ensures t in s'.pc && t in s'.depth
    ensures s'.depth[t] == s.depth[t] - if u == t && s.depth[u] > 0 then 1 else 0
  {
    hide ValidPick, OnCount;
  }

  lemma {:induction false} HoldsIsDepth(states: seq<State>, labels: seq<Label>, i: nat, t: Thread)
    requires IsRun(states, labels) && i <= |labels| && t in states[0].pc
    ensures t in states[i].pc && t in states[i].depth && states[i].depth[t] == Holds(states, labels, i, t)
  {
    hide Step, Safe, Obtains, Releases;
    if i > 0 {
      HoldsIsDepth(states, labels, i - 1, t);
      RunSafe(states, labels, i - 1);
      StepCounts(states[i - 1], labels[i - 1], states[i], t);
    }
  }

  /** In every interleaving a thread owns the lock exactly while it holds it at least once, by its own calls; `count`
      is how many times, and no other thread holds it at all. */
  lemma OwnerHolds(states: seq<State>, labels: seq<Label>, i: nat, t: Thread)
    requires IsRun(states, labels) && i <= |labels| && t in states[0].pc
    ensures
      var s, n := states[i], Holds(states, labels, i, t);
      && (s.owner == Some(t) <==> n > 0) && (n > 0 ==> s.count == n)
      && (forall u | u in states[0].pc && u != t && n > 0 :: Holds(states, labels, i, u) == 0)
      && (s.count == 0 <==> s.owner.None?)
  {
    RunSafe(states, labels, i);
    HoldsIsDepth(states, labels, i, t);
    forall u | u in states[0].pc && u != t && Holds(states, labels, i, t) > 0
      ensures Holds(states, labels, i, u) == 0
    {
      HoldsIsDepth(states, labels, i, u);
    }
    hide Holds, Counted, Parked;
  }

  /** Giving back a lock frees it exactly when it was held once. */
  lemma UnlockFrees(states: seq<State>, labels: seq<Label>, i: nat, t: Thread)
    requires IsRun(states, labels) && i < |labels| && t in states[0].pc && Releases(labels[i], t)
    requires Holds(states, labels, i, t) > 0
    ensures states[i + 1].owner.None? <==> Holds(states, labels, i, t) == 1
    ensures Holds(states, labels, i + 1, t) == Holds(states, labels, i, t) - 1
  {
    OwnerHolds(states, labels, i, t);
    OwnerHolds(states, labels, i + 1, t);
    HoldsIsDepth(states, labels, i, t);
    ReleaseOwner(states[i], labels[i], states[i + 1], t) by {
      assert Step(states[i], labels[i], states[i + 1]);
    }
  }

  lemma ReleaseOwner(s: State, l: Label, s': State, t: Thread)
    requires Step(s, l, s') && Releases(l, t) && s.owner == Some(t)
    ensures !Obtains(l, s', t) && (s'.owner == Some(t) || s'.owner.None?)
  {
  }

  /** A call for the lock has it on return, unless it must wait: another thread has the lock, or, for a caller that
      will block, others wait already. A thread that has the lock never waits for it. */
  lemma LockWaits(states: seq<State>, labels: seq<Label>, i: nat)
    requires IsRun(states, labels) && i < |labels| && labels[i].Lock?
    ensures
      var s, s', t := states[i], states[i + 1], labels[i].t;
      && t in s.pc && t in s'.pc
      && (IsWaiting(s'.pc[t]) <==>
            s.owner != Some(t) && (s.owner.Some? || (labels[i].willblock && Waiting(s.pc) != {})))
      && (!IsWaiting(s'.pc[t]) ==> s'.owner == Some(t))
  {
    var s, s', t := states[i], states[i + 1], labels[i].t;
    RunSafe(states, labels, i);
    assert Step(s, labels[i], s');
    hide ValidPick, Parked;
    if Waiting(s.pc) != {} {
      var u :| u in Waiting(s.pc);
      Subset({u}, Waiting(s.pc));
    } else {
      assert |Waiting(s.pc)| == 0;
    }
  }
}
