/** The idle queue of src/pomp_loop.c under concurrent use, as a labelled transition system.
    An actor is one call in progress, whichever thread makes it. The queue is touched with the loop mutex
    held, so the code between two mutex releases is one step; the event is signalled and cleared outside
    the mutex where the code does so. */
module IdleQueue {

  type Actor = nat

  /** `id` is the registration rank of the entry. */
  datatype Entry = Entry(id: nat, cb: nat, userdata: nat, cookie: nat)

  datatype Selector = ByCallback(cb: nat, userdata: nat) | ByCookie(cookie: nat)

  predicate Matches(e: Entry, sel: Selector) {
    match sel
    case ByCallback(cb, userdata) => e.cb == cb && e.userdata == userdata
    case ByCookie(cookie) => e.cookie == cookie
  }

  datatype Pc =
    | Resting
    | Appended                     // adder, before it signals the event
    | Cleared                      // dispatcher, after it cleared the event
    | Dispatching                  // dispatcher, in the callback of the entry it took
    | Flushing                     // flush, in the callback of the entry it took
    | FlushingCookie(cookie: nat)  // flush by cookie, likewise

  /** `inOrder` holds for entries taken from the head of the queue. */
  datatype Ran = Ran(id: nat, inOrder: bool)

  datatype State = State(
    queue: seq<Entry>,
    event: bool,
    pc: map<Actor, Pc>,
    nextId: nat,        // number of registrations so far
    ran: seq<Ran>,      // entries whose callback was started, in that order
    removed: set<nat>)  // entries taken out without being run

  datatype Label =
    | Append(a: Actor, cb: nat, userdata: nat, cookie: nat)
    | Signal(a: Actor)
    | Clear(a: Actor)
    | Dispatch(a: Actor)
    | Recheck(a: Actor)
    | Flush(a: Actor)
    | FlushCookie(a: Actor, cookie: nat)
    | Remove(a: Actor, sel: Selector)

  /** The queue without the matching entries. */
  function Without(queue: seq<Entry>, sel: Selector): seq<Entry> {
    if queue == [] then []
    else if Matches(queue[0], sel) then Without(queue[1..], sel)
    else [queue[0]] + Without(queue[1..], sel)
  }

  /** Position of the first matching entry, the length when there is none. */
  function FirstMatch(queue: seq<Entry>, sel: Selector): (k: nat)
    ensures k <= |queue|
    ensures k < |queue| ==> Matches(queue[k], sel)
    ensures forall i | 0 <= i < k :: !Matches(queue[i], sel)
  {
    if queue == [] || Matches(queue[0], sel) then 0 else 1 + FirstMatch(queue[1..], sel)
  }

  function Take(s: State, k: nat, a: Actor, pc: Pc): State
    requires k < |s.queue|
  {
    s.(queue := s.queue[..k] + s.queue[k + 1..],
       ran := s.ran + [Ran(s.queue[k].id, !pc.FlushingCookie?)],
       pc := s.pc[a := pc])
  }

  predicate Enabled(s: State, l: Label) {
    && l.a in s.pc
    && match l
       case Signal(a) => s.pc[a].Appended?
       case Dispatch(a) => s.pc[a].Cleared?
       case Recheck(a) => s.pc[a].Dispatching?
       case Flush(a) => s.pc[a].Resting? || s.pc[a].Flushing?
       case FlushCookie(a, cookie) => s.pc[a].Resting? || s.pc[a] == FlushingCookie(cookie)
       case _ => s.pc[l.a].Resting?
  }

  function Next(s: State, l: Label): State
    requires Enabled(s, l)
  {
    match l
    case Append(a, cb, userdata, cookie) =>
      s.(queue := s.queue + [Entry(s.nextId, cb, userdata, cookie)],
         nextId := s.nextId + 1, pc := s.pc[a := Appended])
    case Signal(a) =>
      s.(event := true, pc := s.pc[a := Resting])
    case Clear(a) =>
      s.(event := false, pc := s.pc[a := Cleared])
    case Dispatch(a) =>
      if s.queue == [] then s.(pc := s.pc[a := Resting]) else Take(s, 0, a, Dispatching)
    case Recheck(a) =>
      s.(event := s.event || s.queue != [], pc := s.pc[a := Resting])
    case Flush(a) =>
      if s.queue == [] then s.(event := false, pc := s.pc[a := Resting]) else Take(s, 0, a, Flushing)
    case FlushCookie(a, cookie) =>
      var k := FirstMatch(s.queue, ByCookie(cookie));
      if k < |s.queue| then Take(s, k, a, FlushingCookie(cookie))
      else s.(event := s.event && s.queue != [], pc := s.pc[a := Resting])
    case Remove(a, sel) =>
      var queue := Without(s.queue, sel);
      s.(queue := queue, event := s.event && queue != [],
         removed := s.removed + (set e | e in s.queue && Matches(e, sel) :: e.id))
  }

  ghost predicate Init(s: State) {
    s.queue == [] && !s.event && s.nextId == 0 && s.ran == [] && s.removed == {}
    && forall a | a in s.pc :: s.pc[a].Resting?
  }

  ghost predicate IsRun(states: seq<State>, labels: seq<Label>) {
    && |states| == |labels| + 1
    && Init(states[0])
    && forall i | 0 <= i < |labels| :: Enabled(states[i], labels[i]) && states[i + 1] == Next(states[i], labels[i])
  }

  // ----- Invariant -----

  predicate WillSignal(pc: Pc) {
    pc.Appended? || pc.Cleared? || pc.Dispatching?
  }

  /** Pending entries always have someone who will look at them. */
  ghost predicate NoLostWakeup(s: State) {
    s.queue != [] ==> s.event || exists a :: a in s.pc && WillSignal(s.pc[a])
  }

  ghost predicate Ascending(queue: seq<Entry>) {
    forall i, j | 0 <= i < j < |queue| :: queue[i].id < queue[j].id
  }

  /** The queue is in registration order, behind everything taken from its head. */
  ghost predicate InOrder(s: State) {
    && Ascending(s.queue)
    && (forall i, j | 0 <= i < j < |s.ran| && s.ran[i].inOrder && s.ran[j].inOrder :: s.ran[i].id < s.ran[j].id)
    && (forall i, j | 0 <= i < |s.ran| && 0 <= j < |s.queue| && s.ran[i].inOrder :: s.ran[i].id < s.queue[j].id)
  }

  predicate Pending(s: State, id: nat) {
    exists i :: 0 <= i < |s.queue| && s.queue[i].id == id
  }

  predicate Started(s: State, id: nat) {
    exists i :: 0 <= i < |s.ran| && s.ran[i].id == id
  }

  /** Every registered entry is pending, run or removed, and only one of these. */
  ghost predicate Accounted(s: State) {
    && (forall id: nat :: id < s.nextId <==> Pending(s, id) || Started(s, id) || id in s.removed)
    && (forall i | 0 <= i < |s.queue| :: s.queue[i].id !in s.removed && !Started(s, s.queue[i].id))
    && (forall i | 0 <= i < |s.ran| :: s.ran[i].id !in s.removed)
    && (forall i, j | 0 <= i < j < |s.ran| :: s.ran[i].id != s.ran[j].id)
  }

  ghost predicate Inv(s: State) {
    NoLostWakeup(s) && InOrder(s) && Accounted(s)
  }

  // ----- Filtering -----

  /** Removal keeps exactly the other entries. */
  lemma {:induction false} WithoutMembers(queue: seq<Entry>, sel: Selector)
    ensures forall e :: e in Without(queue, sel) <==> e in queue && !Matches(e, sel)
  {
    if queue != [] {
      WithoutMembers(queue[1..], sel);
      assert queue == [queue[0]] + queue[1..];
    }
  }

  /** Removal keeps the order. */
  lemma {:induction false} WithoutAscending(queue: seq<Entry>, sel: Selector)
    requires Ascending(queue)
    ensures Ascending(Without(queue, sel))
  {
    if queue != [] {
      WithoutAscending(queue[1..], sel);
      WithoutMembers(queue[1..], sel);
      var rest := Without(queue[1..], sel);
      forall j | 0 <= j < |rest| ensures queue[0].id < rest[j].id {
        assert rest[j] in queue[1..];
      }
    }
  }

  // ----- Preservation -----

  lemma WakeupKept(s: State, a: Actor, s': State, pc: Pc)
    requires NoLostWakeup(s) && a in s.pc && s'.pc == s.pc[a := pc]
    requires s'.queue != [] ==> s.queue != []
    requires s.event ==> s'.event || s'.queue == []
    requires WillSignal(s.pc[a]) ==> WillSignal(pc) || s'.event || s'.queue == []
    ensures NoLostWakeup(s')
  {
    if s'.queue != [] && !s'.event {
      var b :| b in s.pc && WillSignal(s.pc[b]);
      assert b in s'.pc && WillSignal(s'.pc[b]);
    }
  }

  lemma TakeInOrder(s: State, k: nat, a: Actor, pc: Pc)
    requires InOrder(s) && k < |s.queue| && (pc.FlushingCookie? || k == 0)
    ensures InOrder(Take(s, k, a, pc))
  {
  }

  lemma StartedAfterTake(s: State, k: nat, a: Actor, pc: Pc, id: nat)
    requires k < |s.queue|
    ensures Started(Take(s, k, a, pc), id) <==> Started(s, id) || id == s.queue[k].id
  {
    var s' := Take(s, k, a, pc);
    if Started(s, id) {
      var i :| 0 <= i < |s.ran| && s.ran[i].id == id;
      assert s'.ran[i].id == id;
    }
    assert s'.ran[|s.ran|].id == s.queue[k].id;
  }

  lemma PendingAfterTake(s: State, k: nat, a: Actor, pc: Pc, id: nat)
    requires k < |s.queue|
    ensures Pending(s, id) <==> Pending(Take(s, k, a, pc), id) || id == s.queue[k].id
  {
    var s' := Take(s, k, a, pc);
    if Pending(s, id) {
      var i :| 0 <= i < |s.queue| && s.queue[i].id == id;
      assert i < k ==> s'.queue[i].id == id;
      assert i > k ==> s'.queue[i - 1].id == id;
    }
    if Pending(s', id) {
      var i :| 0 <= i < |s'.queue| && s'.queue[i].id == id;
      assert s.queue[if i < k then i else i + 1].id == id;
    }
  }

  lemma TakeAccounted(s: State, k: nat, a: Actor, pc: Pc)
    requires Ascending(s.queue) && Accounted(s) && k < |s.queue|
    ensures Accounted(Take(s, k, a, pc))
  {
    var s' := Take(s, k, a, pc);
    forall id: nat ensures id < s'.nextId <==> Pending(s', id) || Started(s', id) || id in s'.removed {
      StartedAfterTake(s, k, a, pc, id);
      PendingAfterTake(s, k, a, pc, id);
    }
    forall i | 0 <= i < |s'.queue| ensures s'.queue[i].id !in s'.removed && !Started(s', s'.queue[i].id) {
      var j := if i < k then i else i + 1;
      assert s'.queue[i] == s.queue[j];
      StartedAfterTake(s, k, a, pc, s.queue[j].id);
    }
    forall i | 0 <= i < |s.ran| ensures s.ran[i].id != s.queue[k].id {
      assert Started(s, s.ran[i].id);
    }
  }

  lemma AppendKeeps(s: State, a: Actor, cb: nat, userdata: nat, cookie: nat)
    requires Inv(s) && Enabled(s, Append(a, cb, userdata, cookie))
    ensures Inv(Next(s, Append(a, cb, userdata, cookie)))
  {
    var s' := Next(s, Append(a, cb, userdata, cookie));
    assert WillSignal(s'.pc[a]);
    forall i | 0 <= i < |s.queue| ensures s.queue[i].id < s.nextId {
      assert Pending(s, s.queue[i].id);
    }
    forall i | 0 <= i < |s.ran| ensures s.ran[i].id < s.nextId {
      assert Started(s, s.ran[i].id);
    }
    forall id: nat ensures Pending(s', id) <==> Pending(s, id) || id == s.nextId {
      assert s'.queue[|s.queue|].id == s.nextId;
      if Pending(s, id) {
        var i :| 0 <= i < |s.queue| && s.queue[i].id == id;
        assert s'.queue[i].id == id;
      }
    }
    forall id: nat ensures Started(s', id) <==> Started(s, id) {
    }
  }

  lemma RemoveKeeps(s: State, a: Actor, sel: Selector)
    requires Inv(s) && Enabled(s, Remove(a, sel))
    ensures Inv(Next(s, Remove(a, sel)))
  {
    var s' := Next(s, Remove(a, sel));
    assert s.pc[a := s.pc[a]] == s.pc;
    WakeupKept(s, a, s', s.pc[a]);
    WithoutMembers(s.queue, sel);
    WithoutAscending(s.queue, sel);
    forall i | 0 <= i < |s'.queue| ensures s'.queue[i] in s.queue && !Matches(s'.queue[i], sel) {
      assert s'.queue[i] in s'.queue;
    }
    forall id: nat ensures Started(s', id) <==> Started(s, id) {
    }
    forall id: nat ensures Pending(s, id) <==> Pending(s', id) || (id in s'.removed && id !in s.removed) {
      PendingAfterRemove(s, sel, s', id);
    }
  }

  lemma PendingAfterRemove(s: State, sel: Selector, s': State, id: nat)
    requires Accounted(s)
    requires s'.queue == Without(s.queue, sel)
    requires s'.removed == s.removed + (set e | e in s.queue && Matches(e, sel) :: e.id)
    ensures Pending(s, id) <==> Pending(s', id) || (id in s'.removed && id !in s.removed)
  {
    WithoutMembers(s.queue, sel);
    if Pending(s, id) {
      var i :| 0 <= i < |s.queue| && s.queue[i].id == id;
      var e := s.queue[i];
      if Matches(e, sel) {
        assert e in s.queue;
      } else {
        assert e in s'.queue;
      }
    }
    if Pending(s', id) {
      var i :| 0 <= i < |s'.queue| && s'.queue[i].id == id;
      assert s'.queue[i] in s.queue;
    }
  }

  /** Entries and their history are as before. */
  lemma SameBooks(s: State, s': State)
    requires InOrder(s) && Accounted(s)
    requires s'.queue == s.queue && s'.ran == s.ran && s'.removed == s.removed && s'.nextId == s.nextId
    ensures InOrder(s') && Accounted(s')
  {
    forall id: nat ensures (Pending(s', id) <==> Pending(s, id)) && (Started(s', id) <==> Started(s, id)) {
    }
  }

  lemma FlushKeeps(s: State, l: Label)
    requires Inv(s) && Enabled(s, l) && (l.Flush? || l.FlushCookie?)
    ensures Inv(Next(s, l))
  {
    hide Accounted;
    var s' := Next(s, l);
    WakeupKept(s, l.a, s', s'.pc[l.a]);
    var k := if l.Flush? then 0 else FirstMatch(s.queue, ByCookie(l.cookie));
    if k < |s.queue| {
      var pc := if l.Flush? then Flushing else FlushingCookie(l.cookie);
      TakeInOrder(s, k, l.a, pc);
      TakeAccounted(s, k, l.a, pc);
    } else {
      SameBooks(s, s');
    }
  }

  lemma DispatchKeeps(s: State, a: Actor)
    requires Inv(s) && Enabled(s, Dispatch(a))
    ensures Inv(Next(s, Dispatch(a)))
  {
    if s.queue != [] {
      TakeInOrder(s, 0, a, Dispatching);
      TakeAccounted(s, 0, a, Dispatching);
      assert WillSignal(Next(s, Dispatch(a)).pc[a]);
    }
  }

  /** Steps that only touch the event. */
  lemma EventKeeps(s: State, l: Label)
    requires Inv(s) && Enabled(s, l) && (l.Signal? || l.Clear? || l.Recheck?)
    ensures Inv(Next(s, l))
  {
    var s' := Next(s, l);
    if l.Clear? {
      assert WillSignal(s'.pc[l.a]);
    }
    forall id: nat ensures (Pending(s', id) <==> Pending(s, id)) && (Started(s', id) <==> Started(s, id)) {
    }
  }

  lemma StepKeeps(s: State, l: Label)
    requires Inv(s) && Enabled(s, l)
    ensures Inv(Next(s, l))
  {
    match l
    case Append(a, cb, userdata, cookie) => AppendKeeps(s, a, cb, userdata, cookie);
    case Signal(_) => EventKeeps(s, l);
    case Clear(_) => EventKeeps(s, l);
    case Dispatch(a) => DispatchKeeps(s, a);
    case Recheck(_) => EventKeeps(s, l);
    case Flush(_) => FlushKeeps(s, l);
    case FlushCookie(_, _) => FlushKeeps(s, l);
    case Remove(a, sel) => RemoveKeeps(s, a, sel);
  }

  // ----- Theorems over runs -----

  lemma {:induction false} RunKeeps(states: seq<State>, labels: seq<Label>, i: nat)
    requires IsRun(states, labels) && i < |states|
    ensures Inv(states[i])
  {
    if i > 0 {
      RunKeeps(states, labels, i - 1);
      StepKeeps(states[i - 1], labels[i - 1]);
    }
  }

  /** No lost wake-up: a non-empty queue has its event signalled, or an adder about to signal it, or a
      dispatcher that cleared it and has yet to look again. */
  lemma EntriesAreNeverStranded(states: seq<State>, labels: seq<Label>, i: nat)
    requires IsRun(states, labels) && i < |states| && states[i].queue != []
    ensures states[i].event || exists a :: a in states[i].pc && WillSignal(states[i].pc[a])
  {
    RunKeeps(states, labels, i);
  }

  /** Each registered entry is pending, or its callback was started once, or it was removed: one of the
      three, and never two. What is taken from the head is taken in registration order. */
  lemma EntriesRunOnceInOrder(states: seq<State>, labels: seq<Label>, i: nat, id: nat)
    requires IsRun(states, labels) && i < |states| && id < states[i].nextId
    ensures var s := states[i];
      && (Pending(s, id) || Started(s, id) || id in s.removed)
      && !(Pending(s, id) && Started(s, id))
      && !(Pending(s, id) && id in s.removed)
      && !(Started(s, id) && id in s.removed)
    ensures var ran := states[i].ran;
      forall j, k | 0 <= j < k < |ran| ::
        ran[j].id != ran[k].id && (ran[j].inOrder && ran[k].inOrder ==> ran[j].id < ran[k].id)
  {
    RunKeeps(states, labels, i);
  }

  /** When every call has returned and the event is not signalled, nothing is left to run. */
  lemma QuietMeansDone(states: seq<State>, labels: seq<Label>, i: nat, id: nat)
    requires IsRun(states, labels) && i < |states| && id < states[i].nextId
    requires !states[i].event && forall a | a in states[i].pc :: states[i].pc[a].Resting?
    ensures Started(states[i], id) || id in states[i].removed
  {
    RunKeeps(states, labels, i);
  }

  // ----- What each call has achieved -----

  /** The entries of one queue that the other has lost, on their fields: exactly those, and the others in order. */
  ghost predicate OnlyLost(before: seq<Entry>, after: seq<Entry>, lost: Entry -> bool) {
    && (forall e :: e in after <==> e in before && !lost(e))
    && Ascending(before) && Ascending(after)
  }

  /** A flush returns when the queue is empty, and only then: until then each of its turns runs the first entry. */
  lemma FlushEmpties(states: seq<State>, labels: seq<Label>, i: nat, a: Actor)
    requires IsRun(states, labels) && i < |labels| && labels[i] == Flush(a)
    ensures
      var s, t := states[i], states[i + 1];
      if s.queue == [] then t == s.(event := false, pc := s.pc[a := Resting])
      else
        && t.pc == s.pc[a := Flushing] && t.queue == s.queue[1..] && t.ran == s.ran + [Ran(s.queue[0].id, true)]
        && t.event == s.event && t.removed == s.removed && t.nextId == s.nextId
    ensures states[i + 1].pc[a].Resting? ==> states[i + 1].queue == []
  {
    assert Enabled(states[i], labels[i]);
  }

  /** Whatever the step, a flusher is back at rest only with an empty queue, or none of its cookie left. */
  lemma FlusherReturns(states: seq<State>, labels: seq<Label>, i: nat, a: Actor)
    requires IsRun(states, labels) && i < |labels| && a in states[i].pc && a in states[i + 1].pc
    requires states[i + 1].pc[a].Resting?
    ensures states[i].pc[a].Flushing? ==> states[i + 1].queue == [] && labels[i] == Flush(a)
    ensures states[i].pc[a].FlushingCookie? ==>
      forall e | e in states[i + 1].queue :: e.cookie != states[i].pc[a].cookie
  {
    var s, l, t := states[i], labels[i], states[i + 1];
    assert Enabled(s, l) && t == Next(s, l);
    if s.pc[a].FlushingCookie? {
      assert l == FlushCookie(a, s.pc[a].cookie);
      CookieFlushed(states, labels, i, a, s.pc[a].cookie);
    }
  }

  /** A flush by cookie runs the first entry of that cookie, in its place in the queue, and returns when none is left;
      the other entries are untouched. */
  lemma CookieFlushed(states: seq<State>, labels: seq<Label>, i: nat, a: Actor, cookie: nat)
    requires IsRun(states, labels) && i < |labels| && labels[i] == FlushCookie(a, cookie)
    ensures
      var s, t := states[i], states[i + 1];
      if forall e | e in s.queue :: e.cookie != cookie then
        t == s.(event := s.event && s.queue != [], pc := s.pc[a := Resting])
      else
        exists k: nat ::
          && k < |s.queue| && s.queue[k].cookie == cookie && (forall j | 0 <= j < k :: s.queue[j].cookie != cookie)
          && t.queue == s.queue[..k] + s.queue[k + 1..] && t.ran == s.ran + [Ran(s.queue[k].id, false)]
          && t.pc == s.pc[a := FlushingCookie(cookie)] && t.event == s.event && t.removed == s.removed
          && t.nextId == s.nextId
  {
    var s := states[i];
    assert Enabled(s, labels[i]);
    var k := FirstMatch(s.queue, ByCookie(cookie));
    if k < |s.queue| {
      assert s.queue[k] in s.queue && s.queue[k].cookie == cookie;
    } else {
      forall e | e in s.queue
        ensures e.cookie != cookie
      {
        var j :| 0 <= j < |s.queue| && s.queue[j] == e;
        assert !Matches(s.queue[j], ByCookie(cookie));
      }
    }
  }

  /** A removal takes out exactly the entries with that callback and that user data, or with that cookie, and runs
      none of them. */
  lemma RemovalRemoves(states: seq<State>, labels: seq<Label>, i: nat)
    requires IsRun(states, labels) && i < |labels| && labels[i].Remove?
    ensures
      var s, t, sel := states[i], states[i + 1], labels[i].sel;
      && (sel.ByCallback? ==>
            && OnlyLost(s.queue, t.queue, (e: Entry) => e.cb == sel.cb && e.userdata == sel.userdata)
            && t.removed == s.removed + set e | e in s.queue && e.cb == sel.cb && e.userdata == sel.userdata :: e.id)
      && (sel.ByCookie? ==>
            && OnlyLost(s.queue, t.queue, (e: Entry) => e.cookie == sel.cookie)
            && t.removed == s.removed + set e | e in s.queue && e.cookie == sel.cookie :: e.id)
      && t.ran == s.ran && t.pc == s.pc && t.nextId == s.nextId && t.event == (s.event && t.queue != [])
  {
    RunKeeps(states, labels, i);
    assert Enabled(states[i], labels[i]);
    WithoutMembers(states[i].queue, labels[i].sel);
    WithoutAscending(states[i].queue, labels[i].sel);
  }

  /** An addition puts its entry last and then signals; a dispatch clears the event, runs exactly the first entry if
      there is one, and signals again if others are left. */
  lemma OthersDo(states: seq<State>, labels: seq<Label>, i: nat)
    requires IsRun(states, labels) && i < |labels|
    ensures
      var s, l, t := states[i], labels[i], states[i + 1];
      && (l.Append? ==>
            t == s.(queue := s.queue + [Entry(s.nextId, l.cb, l.userdata, l.cookie)], nextId := s.nextId + 1,
                    pc := s.pc[l.a := Appended]))
      && (l.Signal? ==> t == s.(event := true, pc := s.pc[l.a := Resting]))
      && (l.Clear? ==> t == s.(event := false, pc := s.pc[l.a := Cleared]))
      && (l.Recheck? ==> t == s.(event := s.event || s.queue != [], pc := s.pc[l.a := Resting]))
      && (l.Dispatch? && s.queue == [] ==> t == s.(pc := s.pc[l.a := Resting]))
      && (l.Dispatch? && s.queue != [] ==>
            && t.queue == s.queue[1..] && t.ran == s.ran + [Ran(s.queue[0].id, true)]
            && t.pc == s.pc[l.a := Dispatching] && t.event == s.event && t.removed == s.removed
            && t.nextId == s.nextId)
  {
    assert Enabled(states[i], labels[i]) && states[i + 1] == Next(states[i], labels[i]);
    assert states[i].queue != [] ==> states[i].queue[..0] + states[i].queue[1..] == states[i].queue[1..];
  }
}
