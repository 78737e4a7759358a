/** The watchdog of src/pomp_watchdog.c: a thread that calls back when the loop stays too long in a block of
    callbacks. Each step below is what happens between two releases of the mutex. */
module Watchdog {
  // ----- Time -----

  const BILLION: int := 1_000_000_000

  datatype Timespec = Timespec(sec: nat, nsec: nat)

  function Nanos(t: Timespec): nat {
    t.sec * BILLION + t.nsec
  }

  predicate Normal(t: Timespec) {
    t.nsec < BILLION
  }

  function Carry(t: Timespec): Timespec
    decreases t.nsec
  {
    if t.nsec >= BILLION then Carry(Timespec(t.sec + 1, t.nsec - BILLION)) else t
  }

  /** The time a delay in milliseconds from now. */
  function Deadline(now: Timespec, delay: nat): Timespec {
    Carry(Timespec(now.sec + delay / 1000, now.nsec + delay % 1000 * 1_000_000))
  }

  lemma {:induction false} CarryKeeps(t: Timespec)
    ensures Nanos(Carry(t)) == Nanos(t) && Normal(Carry(t))
    decreases t.nsec
  {
    if t.nsec >= BILLION {
      CarryKeeps(Timespec(t.sec + 1, t.nsec - BILLION));
    }
  }

  /** It is that much later, and its nanoseconds are below one billion. */
  lemma DeadlineExact(now: Timespec, delay: nat)
    ensures Nanos(Deadline(now, delay)) == Nanos(now) + delay * 1_000_000 && Normal(Deadline(now, delay))
  {
    CarryKeeps(Timespec(now.sec + delay / 1000, now.nsec + delay % 1000 * 1_000_000));
    assert delay == delay / 1000 * 1000 + delay % 1000;
  }

  method AbsoluteTimeout(now: Timespec, delay: nat) returns (timeout: Timespec)
    ensures timeout == Deadline(now, delay)
    ensures Nanos(timeout) == Nanos(now) + delay * 1_000_000 && Normal(timeout)
  {
    DeadlineExact(now, delay);
    var sec: nat, nsec: nat := now.sec + delay / 1000, now.nsec + delay % 1000 * 1_000_000;
    while nsec >= BILLION
      invariant Carry(Timespec(sec, nsec)) == Deadline(now, delay)
    {
      sec, nsec := sec + 1, nsec - BILLION;
    }
    timeout := Timespec(sec, nsec);
  }

  /** The code's test that a time has passed. */
  predicate Passed(now: Timespec, timeout: Timespec) {
    (now.sec - timeout.sec) * BILLION + (now.nsec - timeout.nsec) >= 0
  }

  lemma PassedExact(now: Timespec, timeout: Timespec)
    ensures Passed(now, timeout) <==> Nanos(now) >= Nanos(timeout)
  {
  }

  // ----- The thread and the loop -----

  const TWO_32: int := 0x1_0000_0000

  /** Where the thread is: about to wait for the first time, waiting with no limit, or waiting with the counter
      and the limit it saw. `saved` is the block that was current then. */
  datatype Thread = Starting | Forever | Until(counter: nat, timeout: Timespec, saved: nat) | Ended

  /** A call of the callback: in which block, when, and when that block had been entered with what delay. */
  datatype Fired = Fired(block: nat, active: bool, at: Timespec, entered: Timespec, delay: nat)

  /** `block` numbers the blocks entered; the code keeps it on 32 bits. `active` tells whether the loop is
      inside the block, and the last fields describe the entry; none of these is seen by the code. */
  datatype State = State(now: Timespec, delay: nat, counter: nat, monitoring: bool, next: Timespec,
                         thread: Thread, signalled: bool, fired: seq<Fired>,
                         block: nat, active: bool, entered: Timespec, delayThen: nat)

  datatype Label = Tick(now: Timespec) | SetDelay(delay: nat) | Enter | Leave | Wake | Timeout | Stop

  /** The thread reads the state before it waits again. */
  function Rearm(s: State): State {
    s.(thread := if s.monitoring then Until(s.counter, s.next, s.block) else Forever, signalled := false)
  }

  /** What the thread does when its wait timed out. */
  function Expire(s: State): State
    requires s.thread.Until?
  {
    if s.monitoring && s.counter == s.thread.counter && Passed(s.now, s.thread.timeout)
    then s.(monitoring := false, fired := s.fired + [Fired(s.block, s.active, s.now, s.entered, s.delayThen)])
    else s
  }

  predicate Step(s: State, l: Label, t: State) {
    match l
    case Tick(now) => Nanos(now) >= Nanos(s.now) && t == s.(now := now)
    case SetDelay(delay) => t == s.(delay := delay)
    case Enter =>
      !s.active && t == s.(counter := (s.counter + 1) % TWO_32, monitoring := true, signalled := true,
                           next := Deadline(s.now, s.delay), block := s.block + 1, active := true,
                           entered := s.now, delayThen := s.delay)
    case Leave => s.active && t == s.(monitoring := false, next := Timespec(0, 0), signalled := true, active := false)
    case Wake => !s.thread.Ended? && t == Rearm(s)
    case Timeout => s.thread.Until? && t == Rearm(Expire(s))
    case Stop => !s.thread.Ended? && t == s.(thread := Ended)
  }

  predicate Init(s: State) {
    && s.counter == 0 && s.block == 0 && !s.monitoring && !s.active && s.thread == Starting && s.fired == []
  }

  // ----- What every step keeps -----

  predicate CounterOk(s: State) {
    s.counter == s.block % TWO_32
  }

  predicate MonitoringOk(s: State) {
    s.monitoring ==> s.active && s.next == Deadline(s.entered, s.delayThen)
  }

  /** The thread waits for the limit of the block it saw. */
  predicate ThreadOk(s: State) {
    s.thread.Until? ==>
      && s.thread.saved <= s.block && s.thread.counter == s.thread.saved % TWO_32
      && (s.thread.saved == s.block && s.monitoring ==> s.thread.timeout == s.next)
  }

  /** Calls were made for different blocks, and never again for the one still monitored. */
  predicate OncePerBlock(s: State) {
    && (forall i | 0 <= i < |s.fired| :: s.fired[i].block <= s.block && (s.monitoring ==> s.fired[i].block < s.block))
    && (forall i, j | 0 <= i < j < |s.fired| :: s.fired[i].block < s.fired[j].block)
  }

  /** A monitored block is the one the thread waits for, or the thread is about to look again. */
  predicate Watched(s: State) {
    s.monitoring ==>
      s.thread.Ended? || s.thread.Starting? || s.signalled || (s.thread.Until? && s.thread.saved == s.block)
  }

  predicate Inv(s: State) {
    && CounterOk(s) && MonitoringOk(s) && ThreadOk(s) && OncePerBlock(s) && Watched(s)
    && (forall i | 0 <= i < |s.fired| :: s.fired[i].active)
  }

  lemma ExpireKeeps(s: State)
    requires Inv(s) && s.thread.Until?
    ensures Inv(Expire(s))
  {
    var t := Expire(s);
    if t != s {
      assert forall i | 0 <= i < |s.fired| :: t.fired[i] == s.fired[i];
    }
  }

  lemma RearmKeeps(s: State)
    requires Inv(s)
    ensures Inv(Rearm(s))
  {
  }

  lemma EnterKeeps(s: State, t: State)
    requires Inv(s) && Step(s, Enter, t)
    ensures Inv(t)
  {
    assert (s.block % TWO_32 + 1) % TWO_32 == (s.block + 1) % TWO_32;
  }

  lemma StepKeeps(s: State, l: Label, t: State)
    requires Inv(s) && Step(s, l, t)
    ensures Inv(t)
  {
    match l {
      case Enter => EnterKeeps(s, t);
      case Wake => RearmKeeps(s);
      case Timeout =>
        ExpireKeeps(s);
        RearmKeeps(Expire(s));
      case _ =>
    }
  }

  predicate IsRun(states: seq<State>, labels: seq<Label>) {
    && |states| == |labels| + 1 && Init(states[0])
    && (forall i | 0 <= i < |labels| :: Step(states[i], labels[i], states[i + 1]))
  }

  lemma {:induction false} RunKeeps(states: seq<State>, labels: seq<Label>, i: nat)
    requires IsRun(states, labels) && i < |states|
    ensures Inv(states[i])
  {
    hide Inv, Step;
    if i == 0 {
      InitInv(states[0]);
    } else {
      RunKeeps(states, labels, i - 1);
      StepKeeps(states[i - 1], labels[i - 1], states[i]);
    }
  }

  lemma InitInv(s: State)
    requires Init(s)
    ensures Inv(s)
  {
  }

  /** In every interleaving, the callback is called at most once per block. */
  lemma AtMostOncePerBlock(states: seq<State>, labels: seq<Label>, i: nat, j: nat, k: nat)
    requires IsRun(states, labels) && i < |states| && j < |states[i].fired| && k < |states[i].fired|
    requires states[i].fired[j].block == states[i].fired[k].block
    ensures j == k
  {
    RunKeeps(states, labels, i);
  }

  /** It is called only by a timeout, while the current block is active and monitored, for that block, and once
      the limit the thread waited for has passed. */
  lemma FiredWhileActive(states: seq<State>, labels: seq<Label>, i: nat)
    requires IsRun(states, labels) && i < |labels| && |states[i + 1].fired| != |states[i].fired|
    ensures
      var s := states[i];
      && labels[i] == Timeout && s.thread.Until? && s.active && s.monitoring && s.thread.saved <= s.block
      && s.counter == s.thread.counter && Passed(s.now, s.thread.timeout)
      && states[i + 1].fired == s.fired + [Fired(s.block, true, s.now, s.entered, s.delayThen)]
  {
    RunKeeps(states, labels, i);
    var s, t := states[i], states[i + 1];
    assert Step(s, labels[i], t);
    assert t.fired == Expire(s).fired;
  }

  /** No block escapes: in every reachable state, if the current block is monitored and the thread runs, it
      waits for the deadline of that very block, or a wake-up is on its way to it. */
  lemma BlockIsWatched(states: seq<State>, labels: seq<Label>, i: nat)
    requires IsRun(states, labels) && i < |states| && states[i].monitoring && !states[i].thread.Ended?
    ensures
      var s := states[i];
      s.thread.Starting? || s.signalled || (s.thread.Until? && s.thread.timeout == Deadline(s.entered, s.delayThen))
  {
    RunKeeps(states, labels, i);
  }

  /** A call ends the monitoring of its block: until the next entry nothing more is called. */
  lemma QuietAfterFiring(s: State, l: Label, t: State)
    requires !s.monitoring && Step(s, l, t) && !l.Enter?
    ensures !t.monitoring && t.fired == s.fired
  {
  }

  // ----- Not before the delay -----

  /** The call was made no sooner than the delay after the entry of its block. */
  predicate InTime(f: Fired) {
    Nanos(f.at) >= Nanos(f.entered) + f.delay * 1_000_000
  }

  /** Fewer than 2^32 blocks were entered since the thread began to wait. */
  predicate NotWrapped(s: State) {
    s.thread.Until? ==> s.block - s.thread.saved < TWO_32
  }

  lemma SameBlock(a: nat, b: nat)
    requires a <= b && a % TWO_32 == b % TWO_32
    ensures a == b <==> b - a < TWO_32
  {
  }

  /** At a call, the thread waited for the block that is current if and only if the counter did not come round;
      and then the call is not early. */
  lemma FiredForItsBlock(states: seq<State>, labels: seq<Label>, i: nat)
    requires IsRun(states, labels) && i < |labels| && |states[i + 1].fired| != |states[i].fired|
    ensures
      var s, fired := states[i], states[i + 1].fired;
      && s.thread.Until? && (s.thread.saved == s.block <==> NotWrapped(s))
      && |fired| == |s.fired| + 1 && (NotWrapped(s) ==> InTime(fired[|s.fired|]))
  {
    RunKeeps(states, labels, i);
    FiredWhileActive(states, labels, i);
    var s := states[i];
    SameBlock(s.thread.saved, s.block);
    PassedExact(s.now, s.thread.timeout);
    DeadlineExact(s.entered, s.delayThen);
  }

  /** A call at step `i`, with `d` blocks entered since the thread began to wait. */
  predicate CallsAfter(states: seq<State>, labels: seq<Label>, i: nat, d: nat) {
    && i < |labels| && |states| == |labels| + 1 && |states[i + 1].fired| == |states[i].fired| + 1
    && states[i].thread.Until? && states[i].block - states[i].thread.saved == d
  }

  /** In every run, no call with that many blocks entered during the wait is early. */
  ghost predicate NeverEarly(d: nat) {
    forall states: seq<State>, labels: seq<Label>, i: nat ::
      IsRun(states, labels) && CallsAfter(states, labels, i, d) ==> InTime(states[i + 1].fired[|states[i].fired|])
  }

  const ONE := Timespec(1, 0)

  /** The thread timed out in the first block, a second after its entry, but has yet to take the mutex; since then
      the loop has left that block and gone through `n` others. */
  function Lapped(n: nat): State {
    State(ONE, 1000, (n + 1) % TWO_32, false, Timespec(0, 0), Until(1, ONE, 1), true, [],
          n + 1, false, if n == 0 then Timespec(0, 0) else ONE, 1000)
  }

  lemma Extend(states: seq<State>, labels: seq<Label>, l: Label, t: State)
    requires IsRun(states, labels) && Step(states[|labels|], l, t)
    ensures IsRun(states + [t], labels + [l])
  {
    var states', labels' := states + [t], labels + [l];
    forall i | 0 <= i < |labels'|
      ensures Step(states'[i], labels'[i], states'[i + 1])
    {
      assert i < |labels| ==> Step(states[i], labels[i], states[i + 1]);
    }
  }

  lemma FirstLap() returns (states: seq<State>, labels: seq<Label>)
    ensures IsRun(states, labels) && states[|labels|] == Lapped(0)
  {
    var zero := Timespec(0, 0);
    var a := State(zero, 1000, 0, false, zero, Starting, false, [], 0, false, zero, 1000);
    var b := a.(counter := 1, monitoring := true, signalled := true, next := ONE, block := 1, active := true);
    var c := b.(thread := Until(1, ONE, 1), signalled := false);
    var d := c.(now := ONE);
    assert Deadline(zero, 1000) == ONE;
    assert Step(a, Enter, b) && Step(b, Wake, c) && Step(c, Tick(ONE), d) && Step(d, Leave, Lapped(0));
    states, labels := [a], [];
    Extend(states, labels, Enter, b);
    states, labels := states + [b], labels + [Enter];
    Extend(states, labels, Wake, c);
    states, labels := states + [c], labels + [Wake];
    Extend(states, labels, Tick(ONE), d);
    states, labels := states + [d], labels + [Tick(ONE)];
    Extend(states, labels, Leave, Lapped(0));
    states, labels := states + [Lapped(0)], labels + [Leave];
  }

  /** The next block is entered. */
  function Entered(s: State): State {
    s.(counter := (s.counter + 1) % TWO_32, monitoring := true, signalled := true, next := Deadline(s.now, s.delay),
       block := s.block + 1, active := true, entered := s.now, delayThen := s.delay)
  }

  lemma NextLap(n: nat)
    ensures Step(Lapped(n), Enter, Entered(Lapped(n))) && Step(Entered(Lapped(n)), Leave, Lapped(n + 1))
    ensures Entered(Lapped(n)).counter == (n + 2) % TWO_32
  {
    assert ((n + 1) % TWO_32 + 1) % TWO_32 == (n + 2) % TWO_32;
  }

  lemma {:induction false} Laps(n: nat) returns (states: seq<State>, labels: seq<Label>)
    ensures IsRun(states, labels) && states[|labels|] == Lapped(n)
  {
    hide Step, Init, Lapped, Entered;
    if n == 0 {
      states, labels := FirstLap();
    } else {
      states, labels := Laps(n - 1);
      var inside := Entered(Lapped(n - 1));
      NextLap(n - 1);
      Extend(states, labels, Enter, inside);
      states, labels := states + [inside], labels + [Enter];
      Extend(states, labels, Leave, Lapped(n));
      states, labels := states + [Lapped(n)], labels + [Leave];
    }
  }

  /** When the counter comes round exactly, the thread takes the last block for the first one: it calls back as
      soon as that block is entered, however long its delay. */
  lemma WrappedFiresEarly(d: nat) returns (states: seq<State>, labels: seq<Label>, i: nat)
    requires d > 0 && d % TWO_32 == 0
    ensures IsRun(states, labels) && CallsAfter(states, labels, i, d)
    ensures !InTime(states[i + 1].fired[|states[i].fired|])
  {
    states, labels := Laps(d - 1);
    var s := Entered(Lapped(d - 1));
    NextLap(d - 1);
    assert s.counter == 1;
    DeadlineExact(ONE, 1000);
    var t := Rearm(Expire(s));
    Extend(states, labels, Enter, s);
    states, labels := states + [s], labels + [Enter];
    Extend(states, labels, Timeout, t);
    i := |labels|;
    states, labels := states + [t], labels + [Timeout];
  }

  /** Calls are never early, in any run, if and only if the blocks entered while the thread waited are none or not
      a multiple of 2^32. */
  lemma NeverEarlyIff(d: nat)
    ensures NeverEarly(d) <==> d == 0 || d % TWO_32 != 0
  {
    if d == 0 || d % TWO_32 != 0 {
      forall states: seq<State>, labels: seq<Label>, i: nat | IsRun(states, labels) && CallsAfter(states, labels, i, d)
        ensures InTime(states[i + 1].fired[|states[i].fired|])
      {
        CallIsLate(states, labels, i, d);
      }
    } else {
      var states, labels, i := WrappedFiresEarly(d);
    }
  }

  lemma CallIsLate(states: seq<State>, labels: seq<Label>, i: nat, d: nat)
    requires IsRun(states, labels) && CallsAfter(states, labels, i, d) && (d == 0 || d % TWO_32 != 0)
    ensures InTime(states[i + 1].fired[|states[i].fired|])
  {
    RunKeeps(states, labels, i);
    FiredWhileActive(states, labels, i);
    FiredForItsBlock(states, labels, i);
    var s := states[i];
    hide Step, Inv, InTime;
    if d != 0 {
      Multiple(s.thread.saved, s.block);
    }
  }

  lemma Multiple(a: nat, b: nat)
    requires a <= b && a % TWO_32 == b % TWO_32
    ensures (b - a) % TWO_32 == 0
  {
  }

  // ----- Overruns are reported -----

  /** The loop has been in the current block for its delay at least. */
  predicate Overrun(s: State) {
    s.active && Nanos(s.now) >= Nanos(s.entered) + s.delayThen * 1_000_000
  }

  function Report(s: State): Fired {
    Fired(s.block, true, s.now, s.entered, s.delayThen)
  }

  /** A block is monitored from its entry until it is left or reported. */
  lemma {:induction false} MonitoredUntil(states: seq<State>, labels: seq<Label>, i: nat)
    requires IsRun(states, labels) && i < |states|
    ensures states[i].active ==>
      (states[i].monitoring <==> forall j | 0 <= j < |states[i].fired| :: states[i].fired[j].block != states[i].block)
    ensures !states[i].active ==> !states[i].monitoring
  {
    if i > 0 {
      MonitoredUntil(states, labels, i - 1);
      RunKeeps(states, labels, i - 1);
      RunKeeps(states, labels, i);
      var s, l, t := states[i - 1], labels[i - 1], states[i];
      assert Step(s, l, t);
      if l == Timeout && t.fired != s.fired {
        assert t.fired[|s.fired|].block == t.block;
      }
      assert t.fired != s.fired ==> l == Timeout;
    }
  }

  /** In every run, an overrun that has not been reported is, as soon as the thread runs: at once if it waits for that
      block; after it looks at the state again in any case. */
  lemma OverrunIsReported(states: seq<State>, labels: seq<Label>, i: nat, t: State, u: State)
    requires IsRun(states, labels) && i < |states| && Overrun(states[i]) && !states[i].thread.Ended?
    requires forall j | 0 <= j < |states[i].fired| :: states[i].fired[j].block != states[i].block
    requires Step(states[i], Wake, t) && Step(t, Timeout, u)
    ensures u.fired == states[i].fired + [Report(states[i])] && !u.monitoring
  {
    var s := states[i];
    RunKeeps(states, labels, i);
    MonitoredUntil(states, labels, i);
    PassedExact(s.now, s.next);
    DeadlineExact(s.entered, s.delayThen);
  }

  lemma OverrunIsReportedAtOnce(states: seq<State>, labels: seq<Label>, i: nat, u: State)
    requires IsRun(states, labels) && i < |states| && Overrun(states[i]) && !states[i].signalled
    requires !states[i].thread.Ended? && !states[i].thread.Starting?
    requires forall j | 0 <= j < |states[i].fired| :: states[i].fired[j].block != states[i].block
    ensures states[i].thread.Until?
    ensures Step(states[i], Timeout, u) ==> u.fired == states[i].fired + [Report(states[i])]
  {
    var s := states[i];
    RunKeeps(states, labels, i);
    MonitoredUntil(states, labels, i);
    PassedExact(s.now, s.next);
    DeadlineExact(s.entered, s.delayThen);
  }

  /** What the loop does, told from the outside: each entry begins a new block, watched from then with the delay in
      force; leaving ends it; nothing else changes which block is current, nor when it was entered. */
  lemma BlocksAre(states: seq<State>, labels: seq<Label>, i: nat)
    requires IsRun(states, labels) && i < |labels|
    ensures
      var s, l, t := states[i], labels[i], states[i + 1];
      && (l == Enter ==>
            t.block == s.block + 1 && t.active && t.entered == s.now && t.delayThen == s.delay && t.monitoring)
      && (l == Leave ==> t.block == s.block && !t.active && !t.monitoring)
      && (l != Enter ==> t.block == s.block && t.entered == s.entered && t.delayThen == s.delayThen)
      && (l != Enter && l != Leave ==> t.active == s.active)
      && (l.SetDelay? ==> t.delay == l.delay) && (!l.SetDelay? ==> t.delay == s.delay)
  {
    assert Step(states[i], labels[i], states[i + 1]);
  }
}
