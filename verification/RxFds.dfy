/** The receiving side of src/pomp_conn.c: the tables of descriptors as they are changed in place. Ghost
    fields record every descriptor received, put in a message, or closed. */
module RxFds {
  import opened Bytes
  import opened Collections
  import opened Wrappers
  import opened RxTables
  import opened Args
  import X = Fixup

  /** The bytes of a complete message, header included. */
  type Message = seq<byte>

  /** How many slots the walk over each message meets. */
  function SlotsOf(ms: seq<Message>): (r: seq<nat>)
    ensures |r| == |ms|
  {
    seq(|ms|, i requires 0 <= i < |ms| => X.SlotsMet(Msg(ms[i], []), 12))
  }

  // ----- Histories -----

  /** What happens to a connection and to the messages it received. A read brings descriptors and completes
      messages; the user, or the decoder, gives up one of the messages still around, in any order. */
  datatype Event = ReadEvent(fds: seq<Fd>, ms: seq<Message>, partial: bool) | ReleaseEvent(i: nat)

  /** The tables, the descriptors of each message still around, and those closed so far, in order. */
  datatype Ledger = Ledger(tables: Tables, held: seq<seq<Fd>>, closed: seq<Fd>)

  /** Every descriptor of the read finds room. */
  predicate Stores(t: Tables, fds: seq<Fd>) {
    |fds| <= Room(if fds != [] && t.current != [] && t.next != [] then [] else t.next)
  }

  /** Which is to say that none of them is closed. */
  lemma StoresIff(t: Tables, fds: seq<Fd>)
    requires Ready(t)
    ensures Stores(t, fds) <==>
      Receive(t, fds).closed == if fds != [] && t.current != [] && t.next != [] then t.current else []
  {
    var discard := fds != [] && t.current != [] && t.next != [];
    var room := Min(|fds|, Room(if discard then [] else t.next));
    assert |Receive(t, fds).closed| == (if discard then |t.current| else 0) + |fds| - room;
  }

  /** A read whose descriptors do not all fit fails, and its bytes are not decoded. */
  function Read(l: Ledger, fds: seq<Fd>, ms: seq<Message>, partial: bool): Ledger {
    if Stores(l.tables, fds) then
      var e := Handle(l.tables, fds, SlotsOf(ms), partial);
      Ledger(e.tables, l.held + e.given, l.closed + e.closed)
    else
      var e := Receive(l.tables, fds);
      Ledger(e.tables, l.held, l.closed + e.closed)
  }

  function Release(l: Ledger, i: nat): Ledger {
    if i < |l.held| then Ledger(l.tables, l.held[..i] + l.held[i + 1..], l.closed + l.held[i]) else l
  }

  function Next(l: Ledger, e: Event): Ledger {
    match e
    case ReadEvent(fds, ms, partial) => Read(l, fds, ms, partial)
    case ReleaseEvent(i) => Release(l, i)
  }

  function RunEvents(events: seq<Event>): Ledger {
    if events == [] then Ledger(Tables([], []), [], [])
    else Next(RunEvents(events[..|events| - 1]), events[|events| - 1])
  }

  function FdsOf(e: Event): seq<Fd> {
    if e.ReadEvent? then e.fds else []
  }

  /** All that was received, in order. */
  function ReceivedBy(events: seq<Event>): seq<Fd> {
    if events == [] then [] else ReceivedBy(events[..|events| - 1]) + FdsOf(events[|events| - 1])
  }

  /** All that is closed once the connection is closed and the messages are gone. */
  function ClosedAtEnd(l: Ledger): seq<Fd> {
    l.closed + l.tables.current + l.tables.next + Flatten(l.held)
  }

  /** Every descriptor received is in exactly one place. */
  predicate Accounted(l: Ledger, received: seq<Fd>) {
    && Ready(l.tables)
    && multiset(received) == Held(l.tables) + multiset(Flatten(l.held)) + multiset(l.closed)
  }

  lemma Rebalance(r: multiset<Fd>, f: multiset<Fd>, h: multiset<Fd>, g: multiset<Fd>, c: multiset<Fd>,
                  h': multiset<Fd>, g': multiset<Fd>, c': multiset<Fd>)
    requires r == h + g + c && h + f == h' + g' + c'
    ensures r + f == h' + (g + g') + (c + c')
  {
    forall x
      ensures (r + f)[x] == (h' + (g + g') + (c + c'))[x]
    {
      assert (h + f)[x] == (h' + g' + c')[x];
    }
  }

  lemma EffectAccounts(l: Ledger, received: seq<Fd>, fds: seq<Fd>, e: Effect)
    requires Accounted(l, received) && Conserves(l.tables, fds, e) && Ready(e.tables)
    ensures Accounted(Ledger(e.tables, l.held + e.given, l.closed + e.closed), received + fds)
  {
    FlattenConcat(l.held, e.given);
    Rebalance(multiset(received), multiset(fds), Held(l.tables), multiset(Flatten(l.held)), multiset(l.closed),
              Held(e.tables), multiset(Flatten(e.given)), multiset(e.closed));
  }

  lemma ReadAccounts(l: Ledger, received: seq<Fd>, fds: seq<Fd>, ms: seq<Message>, partial: bool)
    requires Accounted(l, received)
    ensures Accounted(Read(l, fds, ms, partial), received + fds)
  {
    hide Conserves, Handle;
    if Stores(l.tables, fds) {
      HandleConserves(l.tables, fds, SlotsOf(ms), partial);
      EffectAccounts(l, received, fds, Handle(l.tables, fds, SlotsOf(ms), partial));
    } else {
      ReceiveConserves(l.tables, fds);
      EffectAccounts(l, received, fds, Receive(l.tables, fds));
      assert l.held + [] == l.held;
    }
  }

  lemma {:induction false} FlattenMiddle(a: seq<seq<Fd>>, m: seq<Fd>, b: seq<seq<Fd>>)
    ensures multiset(Flatten(a + [m] + b)) == multiset(m) + multiset(Flatten(a + b))
  {
    if a == [] {
      assert a + [m] + b == [m] + b && a + b == b;
    } else {
      FlattenMiddle(a[1..], m, b);
      assert (a + [m] + b)[1..] == a[1..] + [m] + b;
      assert Flatten(a + [m] + b) == a[0] + Flatten(a[1..] + [m] + b);
      assert (a + b)[1..] == a[1..] + b;
      assert Flatten(a + b) == a[0] + Flatten(a[1..] + b);
    }
  }

  /** One of the messages goes: the descriptors of the others are still there. */
  lemma FlattenWithout(held: seq<seq<Fd>>, i: nat)
    requires i < |held|
    ensures multiset(Flatten(held)) == multiset(held[i]) + multiset(Flatten(held[..i] + held[i + 1..]))
  {
    hide Flatten;
    FlattenMiddle(held[..i], held[i], held[i + 1..]);
    assert held[..i] + [held[i]] + held[i + 1..] == held;
  }

  lemma ReleaseAccounts(l: Ledger, received: seq<Fd>, i: nat)
    requires Accounted(l, received)
    ensures Accounted(Release(l, i), received)
  {
    if i < |l.held| {
      FlattenWithout(l.held, i);
    }
  }

  /** After every history, each descriptor received is in a table, in one message, or closed, and only once. */
  lemma {:induction false} RunAccounts(events: seq<Event>)
    ensures Accounted(RunEvents(events), ReceivedBy(events))
  {
    hide Accounted, Read, Release;
    if events == [] {
      StartAccounts();
    } else {
      var before := events[..|events| - 1];
      RunAccounts(before);
      match events[|events| - 1] {
        case ReadEvent(fds, ms, partial) =>
          ReadAccounts(RunEvents(before), ReceivedBy(before), fds, ms, partial);
        case ReleaseEvent(i) =>
          ReleaseAccounts(RunEvents(before), ReceivedBy(before), i);
          assert ReceivedBy(before) + [] == ReceivedBy(before);
      }
    }
  }

  lemma StartAccounts()
    ensures Accounted(Ledger(Tables([], []), [], []), [])
  {
    assert Flatten<Fd>([]) == [];
  }

  /** A life of the connection ends with every descriptor received closed, as many times as it was received. */
  lemma AllClosedAtEnd(events: seq<Event>)
    ensures multiset(ClosedAtEnd(RunEvents(events))) == multiset(ReceivedBy(events))
  {
    RunAccounts(events);
  }

  lemma {:induction false} DistinctOnce(s: seq<Fd>, fd: Fd)
    requires Distinct(s)
    ensures multiset(s)[fd] <= 1
  {
    if s != [] {
      var n := |s| - 1;
      DistinctOnce(s[..n], fd);
      assert s == s[..n] + [s[n]];
      assert fd == s[n] ==> fd !in s[..n];
    }
  }

  /** A descriptor in a message that is still around is not closed, nor given to another message. */
  lemma HeldIsOpen(events: seq<Event>, i: nat, fd: Fd)
    requires Distinct(ReceivedBy(events))
    requires i < |RunEvents(events).held| && fd in RunEvents(events).held[i]
    ensures fd !in RunEvents(events).closed
    ensures forall j | 0 <= j < |RunEvents(events).held| && j != i :: fd !in RunEvents(events).held[j]
  {
    var l, received := RunEvents(events), ReceivedBy(events);
    RunAccounts(events);
    hide RunEvents, ReceivedBy, Ready;
    FlattenWithout(l.held, i);
    DistinctOnce(received, fd);
    assert fd in multiset(l.held[i]);
    forall j | 0 <= j < |l.held| && j != i
      ensures fd !in l.held[j]
    {
      var rest := l.held[..i] + l.held[i + 1..];
      var k := if j < i then j else j - 1;
      assert rest[k] == l.held[j];
      FlattenWithout(rest, k);
    }
  }

  lemma RunStart(events: seq<Event>)
    ensures RunEvents(events[..0]) == Ledger(Tables([], []), [], [])
  {
  }

  lemma RunStep(events: seq<Event>, i: nat)
    requires i < |events|
    ensures RunEvents(events[..i + 1]) == Next(RunEvents(events[..i]), events[i])
    ensures Ready(RunEvents(events[..i]).tables)
  {
    hide Next;
    RunAccounts(events[..i]);
    assert events[..i + 1][..i] == events[..i];
  }

  lemma FlattenStep(held: seq<seq<Fd>>, i: nat)
    requires i <= |held|
    ensures Flatten(held[i..]) == if i == |held| then [] else held[i] + Flatten(held[i + 1..])
    ensures held[0..] == held
  {
    assert i < |held| ==> held[i..][1..] == held[i + 1..];
  }

  // ----- The tables, changed in place -----

  lemma SlotsAt(ms: seq<Message>, i: nat)
    requires i < |ms|
    ensures SlotsOf(ms)[i] == X.SlotsMet(Msg(ms[i], []), 12)
    ensures SlotsOf(ms)[i..] != [] && SlotsOf(ms)[i..][0] == SlotsOf(ms)[i]
    ensures SlotsOf(ms)[i..][1..] == SlotsOf(ms)[i + 1..]
  {
  }

  /** What the walk did and what it has still to do. */
  predicate StillToDo(m0: Msg, fds: seq<Fd>, m: Msg, pos: nat, given: seq<Fd>, left: seq<Fd>) {
    && X.FillSlots(m0, 12, fds) == X.FillSlots(m, pos, left)
    && X.SlotsMet(m0, 12) == |given| + X.SlotsMet(m, pos)
    && X.WalkWith(m0, 12, |fds|).ok == X.WalkWith(m, pos, |left|).ok
  }

  /** What it did in the end. */
  predicate AllDone(m0: Msg, fds: seq<Fd>, m: Msg, given: seq<Fd>, left: seq<Fd>, ok: bool) {
    && X.FillSlots(m0, 12, fds) == m && X.WalkWith(m0, 12, |fds|).ok == ok
    && (if ok then left == [] && X.SlotsMet(m0, 12) > |given| else X.SlotsMet(m0, 12) == |given|)
  }

  lemma Turn(m0: Msg, fds: seq<Fd>, m: Msg, pos: nat, given: seq<Fd>, left: seq<Fd>)
    requires StillToDo(m0, fds, m, pos, given, left) && pos < |m.data| && |m.fdoffs| + |left| <= MAX_FD_COUNT
    ensures
      var r := NextArg(m, pos, false);
      if !r.Got? then AllDone(m0, fds, m, given, left, false)
      else if !r.arg.Descriptor? then StillToDo(m0, fds, m, pos + r.used, given, left)
      else
        && r.used == 5 && pos + 5 <= |m.data|
        && if left == [] then AllDone(m0, fds, m, given, left, true)
           else
             var t := X.WithFd(m, pos + 1, left[0]);
             && |t.data| == |m.data| && |t.fdoffs| == |m.fdoffs| + 1
             && StillToDo(m0, fds, t, pos + 5, given + [left[0]], left[1..])
  {
    hide NextArg, X.FillSlots, X.SlotsMet, Overwrite;
    X.FillTurn(m, pos, left);
    var r := NextArg(m, pos, false);
    if r.Got? && r.arg.Descriptor? {
      X.SlotIsFive(m, pos);
      if left != [] {
        X.WithFdKeeps(m, pos + 1, left[0]);
        var t := X.WithFd(m, pos + 1, left[0]);
        X.SameSlots(m, t, pos + 5);
        X.SameWalk(m, t, pos + 5, |left| - 1);
      }
    }
  }

  lemma TurnEnd(m0: Msg, fds: seq<Fd>, m: Msg, pos: nat, given: seq<Fd>, left: seq<Fd>)
    requires StillToDo(m0, fds, m, pos, given, left) && pos >= |m.data|
    ensures X.FillSlots(m0, 12, fds) == m && X.WalkWith(m0, 12, |fds|).ok && X.SlotsMet(m0, 12) == |given|
  {
  }

  /** What was done, then what is left to do, is all there is to do. */
  predicate Before(all: Effect, given: seq<seq<Fd>>, closed0: seq<Fd>, closed: seq<Fd>, rest: Effect) {
    all.given == given + rest.given && closed0 + all.closed == closed + rest.closed && all.tables == rest.tables
  }

  lemma BeforeStart(t: Tables, slots: seq<nat>, closed: seq<Fd>)
    ensures Before(FixupAll(t, slots), [], closed, closed, FixupAll(t, slots[0..]))
  {
    hide FixupAll;
    assert slots[0..] == slots;
  }

  lemma BeforeEnd(all: Effect, given: seq<seq<Fd>>, closed0: seq<Fd>, closed: seq<Fd>, t: Tables)
    requires Before(all, given, closed0, closed, FixupAll(t, []))
    ensures all.tables == t && all.given == given && closed == closed0 + all.closed
  {
  }

  lemma BeforeStep(all: Effect, given: seq<seq<Fd>>, closed0: seq<Fd>, closed: seq<Fd>, t: Tables, slots: seq<nat>)
    requires slots != [] && Before(all, given, closed0, closed, FixupAll(t, slots))
    ensures
      var e := Fixup(t, slots[0]);
      |e.given| == 1 &&
      Before(all, given + [e.given[0]], closed0, closed + e.closed, FixupAll(e.tables, slots[1..]))
  {
    var e := Fixup(t, slots[0]);
    var rest := FixupAll(e.tables, slots[1..]);
    assert e.given == [e.given[0]];
    assert given + ([e.given[0]] + rest.given) == given + [e.given[0]] + rest.given;
    assert closed + (e.closed + rest.closed) == closed + e.closed + rest.closed;
  }

  class Receiver {
    var current: seq<Fd>
    var next: seq<Fd>

    ghost var closed: seq<Fd>  // in the order they were closed

    ghost function Abs(): Tables
      reads this
    {
      Tables(current, next)
    }

    constructor ()
      ensures Abs() == Tables([], []) && closed == []
    {
      current, next, closed := [], [], [];
    }

    /** Close the descriptors of the current table. */
    method ClearCurrent()
      modifies this`current, this`closed
      ensures current == [] && closed == old(closed) + old(current)
    {
      var i := 0;
      while i < |current|
        invariant i <= |current| && current == old(current)
        invariant closed == old(closed) + current[..i]
      {
        closed := closed + [current[i]];
        i := i + 1;
      }
      current := [];
    }

    method SwapTables()
      modifies this`current, this`next
      ensures Abs() == Swap(old(Abs()))
    {
      current, next := next, current;
    }

    /** Put at the end of the next table, if there is room. */
    method Add(fd: Fd) returns (ok: bool)
      modifies this`next
      ensures ok <==> |old(next)| < MAX_FD_COUNT
      ensures next == if ok then old(next) + [fd] else old(next)
    {
      ok := |next| < MAX_FD_COUNT;
      if ok {
        next := next + [fd];
      }
    }

    /** Take the first descriptor of the current table. */
    method GetNext() returns (fd: Option<Fd>)
      modifies this`current
      ensures old(current) == [] ==> fd.None? && current == []
      ensures old(current) != [] ==> fd == Some(old(current)[0]) && current == old(current)[1..]
    {
      if current == [] {
        return None;
      }
      fd := Some(current[0]);
      current := current[1..];
    }

    /** Put descriptors in the next table until one does not fit; close that one and the following ones. */
    method AddAll(fds: seq<Fd>) returns (ok: bool)
      modifies this`next, this`closed
      ensures var room := Min(|fds|, Room(old(next)));
        && next == old(next) + fds[..room] && closed == old(closed) + fds[room..]
        && (ok <==> room == |fds|)
    {
      ok := true;
      ghost var n := 0;
      var i := 0;
      while i < |fds|
        invariant 0 <= n <= i <= |fds|
        invariant ok <==> n == i
        invariant n == 0 || |old(next)| + n <= MAX_FD_COUNT
        invariant !ok ==> |next| >= MAX_FD_COUNT
        invariant next == old(next) + fds[..n]
        invariant closed == old(closed) + fds[n..i]
      {
        if ok {
          ok := Add(fds[i]);
          if ok {
            n := n + 1;
          }
        }
        if !ok {
          closed := closed + [fds[i]];
          assert fds[n..i + 1] == fds[n..i] + [fds[i]];
        }
        i := i + 1;
      }
      assert n == Min(|fds|, Room(old(next)));
    }

    /** Descriptors that came with a read. */
    method ReceiveFds(fds: seq<Fd>) returns (ok: bool)
      modifies this`current, this`next, this`closed
      ensures Abs() == Receive(old(Abs()), fds).tables
      ensures closed == old(closed) + Receive(old(Abs()), fds).closed
      ensures ok <==> Stores(old(Abs()), fds)
    {
      if |current| > 0 && |next| > 0 && |fds| > 0 {
        ClearCurrent();
        SwapTables();
      }
      ok := AddAll(fds);
      if |current| == 0 {
        SwapTables();
      }
    }

    /** Walk over a message and fill its slots, then drop what it did not use. The walk stops at the first slot
        left without a descriptor, which is no error. */
    method FixupMessage(bytes: Message) returns (filled: Msg, given: seq<Fd>, deliver: bool)
      requires |current| <= MAX_FD_COUNT
      modifies this`current, this`next, this`closed
      ensures
        var e := Fixup(old(Abs()), X.SlotsMet(Msg(bytes, []), 12));
        Abs() == e.tables && [given] == e.given && closed == old(closed) + e.closed
      ensures filled == X.FillSlots(Msg(bytes, []), 12, old(current))
      ensures deliver <==> X.Delivered(bytes, |given|)
    {
      var needed;
      filled, given, needed, deliver := FillSlots(bytes);
      X.DeliveredServed(bytes, |old(current)|);
      assert given == old(current)[..|given|] && current == old(current)[|given|..];
      if needed {
        ClearCurrent();
        SwapTables();
      }
    }

    method FillSlots(bytes: Message) returns (filled: Msg, given: seq<Fd>, needed: bool, ok: bool)
      requires |current| <= MAX_FD_COUNT
      modifies this`current
      ensures given + current == old(current)
      ensures
        var slots := X.SlotsMet(Msg(bytes, []), 12);
        |given| == Min(slots, |old(current)|) && (needed <==> slots > 0)
      ensures filled == X.FillSlots(Msg(bytes, []), 12, old(current))
      ensures ok <==> X.Delivered(bytes, |old(current)|)
    {
      hide NextArg, X.FillSlots, X.SlotsMet, X.WalkWith;
      var m0 := Msg(bytes, []);
      filled, given, needed, ok := m0, [], false, true;
      var pos: nat := 12;
      var going := true;
      while going && pos < |filled.data|
        invariant given + current == old(current) && |filled.fdoffs| + |current| <= MAX_FD_COUNT
        invariant needed <==> given != [] || (!going && ok)
        invariant going ==> ok && StillToDo(m0, old(current), filled, pos, given, current)
        invariant !going ==> AllDone(m0, old(current), filled, given, current, ok)
        decreases going, |filled.data| - pos
      {
        Turn(m0, old(current), filled, pos, given, current);
        var r := NextArg(filled, pos, false);
        if !r.Got? {
          ok, going := false, false;
        } else {
          if r.arg.Descriptor? {
            needed := true;
            var fd := GetNext();
            if fd.None? {
              going := false;
            } else {
              filled := X.WithFd(filled, pos + 1, fd.value);
              given := given + [fd.value];
            }
          }
          pos := pos + r.used;
        }
      }
      if going {
        TurnEnd(m0, old(current), filled, pos, given, current);
      }
    }

    /** The messages completed by a read. */
    method FixupMessages(ms: seq<Message>) returns (given: seq<seq<Fd>>, delivered: seq<bool>)
      requires Ready(Abs())
      modifies this`current, this`next, this`closed
      ensures
        var e := FixupAll(old(Abs()), SlotsOf(ms));
        Abs() == e.tables && given == e.given && closed == old(closed) + e.closed
      ensures |given| == |delivered| == |ms|
      ensures forall i | 0 <= i < |ms| :: delivered[i] <==> X.Delivered(ms[i], |given[i]|)
    {
      hide Fixup, X.Delivered, FixupAll, Before, Conserves, SlotsOf;
      given, delivered := [], [];
      var i := 0;
      ghost var all := FixupAll(Abs(), SlotsOf(ms));
      BeforeStart(Abs(), SlotsOf(ms), closed);
      while i < |ms|
        invariant i <= |ms| && |given| == |delivered| == i && Ready(Abs())
        invariant forall j | 0 <= j < i :: delivered[j] <==> X.Delivered(ms[j], |given[j]|)
        invariant Before(all, given, old(closed), closed, FixupAll(Abs(), SlotsOf(ms)[i..]))
      {
        SlotsAt(ms, i);
        FixupConserves(Abs(), SlotsOf(ms)[i]);
        BeforeStep(all, given, old(closed), closed, Abs(), SlotsOf(ms)[i..]);
        var _, fds, deliver := FixupMessage(ms[i]);
        given, delivered := given + [fds], delivered + [deliver];
        i := i + 1;
      }
      assert SlotsOf(ms)[i..] == [];
      BeforeEnd(all, given, old(closed), closed, Abs());
    }

    /** The messages completed by a read, then the check that nothing is left when no message is partial. */
    method ProcessReadBuf(ms: seq<Message>, partial: bool) returns (given: seq<seq<Fd>>, delivered: seq<bool>)
      requires Ready(Abs())
      modifies this`current, this`next, this`closed
      ensures
        var e := FixupAll(old(Abs()), SlotsOf(ms));
        var f := Finish(e.tables, partial);
        Abs() == f.tables && given == e.given && closed == old(closed) + e.closed + f.closed
      ensures |given| == |delivered| == |ms|
      ensures forall i | 0 <= i < |ms| :: delivered[i] <==> X.Delivered(ms[i], |given[i]|)
    {
      hide FixupAll, X.Delivered, Conserves, SlotsOf;
      FixupAllConserves(Abs(), SlotsOf(ms));
      given, delivered := FixupMessages(ms);
      if !partial {
        DiscardAll();
      }
    }

    method DiscardAll()
      requires Ready(Abs())
      modifies this`current, this`next, this`closed
      ensures Abs() == Tables([], []) && closed == old(closed) + old(current) + old(next)
    {
      while |current| > 0
        invariant closed + current + next == old(closed) + old(current) + old(next)
        invariant current == [] ==> next == []
        decreases |current| + |next|
      {
        ClearCurrent();
        SwapTables();
      }
    }

    /** The buffer of a message is released, with the descriptors in it. */
    method ReleaseMessage(fds: seq<Fd>)
      modifies this`closed
      ensures closed == old(closed) + fds
    {
      var i := 0;
      while i < |fds|
        invariant i <= |fds| && closed == old(closed) + fds[..i]
      {
        closed := closed + [fds[i]];
        i := i + 1;
      }
    }

    /** The connection is closed: its tables are emptied. */
    method Close()
      modifies this`current, this`next, this`closed
      ensures Abs() == Tables([], []) && closed == old(closed) + old(current) + old(next)
    {
      ClearCurrent();
      SwapTables();
      ClearCurrent();
    }
  }

  /** A connection and the messages it gave out go through an event. */
  method Perform(rx: Receiver, held: seq<seq<Fd>>, e: Event) returns (held': seq<seq<Fd>>)
    requires Ready(rx.Abs())
    modifies rx
    ensures Ledger(rx.Abs(), held', rx.closed) == Next(Ledger(old(rx.Abs()), held, old(rx.closed)), e)
  {
    hide Receive, FixupAll, Finish, Stores, Ready;
    held' := held;
    match e {
      case ReadEvent(fds, ms, partial) =>
        ReceiveConserves(rx.Abs(), fds);
        var ok := rx.ReceiveFds(fds);
        if ok {
          var given, _ := rx.ProcessReadBuf(ms, partial);
          held' := held + given;
        }
      case ReleaseEvent(i) =>
        if i < |held| {
          rx.ReleaseMessage(held[i]);
          held' := held[..i] + held[i + 1..];
        }
    }
  }

  /** Any history of reads and releases. */
  method History(events: seq<Event>) returns (rx: Receiver, held: seq<seq<Fd>>)
    ensures fresh(rx) && Ledger(rx.Abs(), held, rx.closed) == RunEvents(events)
  {
    hide Ready, Next, RunEvents, Accounted, Flatten;
    rx := new Receiver();
    held := [];
    RunStart(events);
    for i := 0 to |events|
      invariant fresh(rx) && Ledger(rx.Abs(), held, rx.closed) == RunEvents(events[..i])
    {
      RunStep(events, i);
      held := Perform(rx, held, events[i]);
    }
    assert events[..|events|] == events;
  }

  method ReleaseAll(rx: Receiver, held: seq<seq<Fd>>)
    modifies rx`closed
    ensures rx.closed == old(rx.closed) + Flatten(held)
  {
    hide Flatten;
    FlattenStep(held, 0);
    ghost var all := rx.closed + Flatten(held);
    for i := 0 to |held|
      invariant rx.closed + Flatten(held[i..]) == all
    {
      FlattenStep(held, i);
      rx.ReleaseMessage(held[i]);
    }
    FlattenStep(held, |held|);
  }

  /** Any history of reads and releases, then the end of the connection and of the messages still held. */
  method Life(events: seq<Event>) returns (rx: Receiver)
    ensures rx.Abs() == Tables([], []) && rx.closed == ClosedAtEnd(RunEvents(events))
    ensures multiset(rx.closed) == multiset(ReceivedBy(events))
  {
    AllClosedAtEnd(events);
    hide RunEvents, ReceivedBy, Flatten;
    var held;
    rx, held := History(events);
    rx.Close();
    ReleaseAll(rx, held);
  }
}
