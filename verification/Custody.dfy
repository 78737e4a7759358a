/** The references a connection takes and gives back in src/pomp_conn.c: one for each entry of its write queue and one
    for each pending completion. SendSpec treats sent buffers as values; here they are shared buffers that everybody
    else goes on using, and the bytes of a send are still those it was given. */
module Custody {
  import opened WriteQueue
  import opened SendSpec
  import B = Buffer
  import S = Sharing

  // ----- Holders -----

  /** The entry of the write queue for send `i`, its pending completion, and all the other holders. */
  function Entry(i: nat): nat {
    3 * i
  }

  function Callback(i: nat): nat {
    3 * i + 1
  }

  predicate IsUser(h: nat) {
    h % 3 == 2
  }

  /** `given[i]` is what buffer `i` held when it was sent. Sends from `head` on are in the queue, and those from `told`
      to `finished` wait for their callback. */
  datatype Custody = Custody(mem: S.State, given: seq<S.Content>, head: nat, finished: nat, told: nat)

  /** Exactly those references are held, and what they lead to is what was given. */
  ghost predicate Safe(c: Custody) {
    && S.Counted(c.mem) && c.told <= c.finished <= c.head <= |c.given|
    && (forall i: nat :: Entry(i) in c.mem.holds <==> c.head <= i < |c.given|)
    && (forall i: nat :: Callback(i) in c.mem.holds <==> c.told <= i < c.finished)
    && (forall i: nat | c.head <= i < |c.given| :: S.View(c.mem, Entry(i)) == c.given[i])
    && (forall i: nat | c.told <= i < c.finished :: S.View(c.mem, Callback(i)) == c.given[i])
  }

  lemma TakeRef(s: S.State, h: nat, from: nat)
    requires S.Counted(s) && from in s.holds && h !in s.holds
    ensures
      var t := S.Next(s, S.Share(h, from));
      && S.Counted(t) && t.holds == s.holds[h := s.holds[from]] && S.View(t, h) == S.View(s, from)
      && forall g | g in s.holds :: S.View(t, g) == S.View(s, g)
  {
    S.NextCounted(s, S.Share(h, from));
  }

  lemma GiveBack(s: S.State, h: nat)
    requires S.Counted(s) && h in s.holds
    ensures
      var t := S.Next(s, S.Drop(h));
      && S.Counted(t) && t.holds == s.holds - {h}
      && forall g | g in s.holds && g != h :: g in t.holds && S.View(t, g) == S.View(s, g)
  {
    S.NextCounted(s, S.Drop(h));
    forall g | g in s.holds && g != h
      ensures g in S.Next(s, S.Drop(h)).holds && S.View(S.Next(s, S.Drop(h)), g) == S.View(s, g)
    {
      S.NextIsolated(s, S.Drop(h), g);
    }
  }

  // ----- Moves -----

  datatype Move =
    | Queue(user: nat)      // a send is queued: pomp_io_buffer_new takes a reference
    | Whole(user: nat)      // a send is written at once: only its completion takes one
    | Finish                // the head of the queue is written: its completion takes one, its entry gives one back
    | Tell                  // a completion is told, and gives its own back
    | Abort                 // an entry never written gives its own back
    | Elsewhere(op: S.Op)   // anybody else does anything

  predicate CanMove(c: Custody, m: Move)
    requires S.Wellformed(c.mem)
  {
    match m
    case Queue(user) => user in c.mem.holds && IsUser(user)
    case Whole(user) => user in c.mem.holds && IsUser(user) && c.finished == c.head == |c.given|
    case Finish => c.finished == c.head < |c.given|
    case Tell => c.told < c.finished
    case Abort => c.head < |c.given|
    case Elsewhere(op) => S.Enabled(c.mem, op) && IsUser(S.Actor(op))
  }

  /** `cb` tells whether there is a send callback; without one no completion is made. */
  ghost function Moved(c: Custody, cb: bool, m: Move): Custody
    requires Safe(c) && CanMove(c, m)
  {
    var n := |c.given|;
    match m
    case Queue(user) =>
      c.(mem := S.Next(c.mem, S.Share(Entry(n), user)), given := c.given + [S.View(c.mem, user)])
    case Whole(user) =>
      var d := c.(given := c.given + [S.View(c.mem, user)], head := n + 1, finished := n + 1);
      if cb then OthersFree(c); d.(mem := S.Next(c.mem, S.Share(Callback(n), user))) else d.(told := c.told + 1)
    case Finish =>
      var d := c.(head := c.head + 1, finished := c.finished + 1);
      if cb then
        OthersFree(c);
        TakeRef(c.mem, Callback(c.head), Entry(c.head));
        d.(mem := S.Next(S.Next(c.mem, S.Share(Callback(c.head), Entry(c.head))), S.Drop(Entry(c.head))))
      else d.(mem := S.Next(c.mem, S.Drop(Entry(c.head))), told := c.told + 1)
    case Tell => c.(mem := S.Next(c.mem, S.Drop(Callback(c.told))), told := c.told + 1)
    case Abort => c.(mem := S.Next(c.mem, S.Drop(Entry(c.head))), head := c.head + 1)
    case Elsewhere(op) => c.(mem := S.Next(c.mem, op))
  }

  lemma OthersFree(c: Custody)
    requires Safe(c)
    ensures Entry(|c.given|) !in c.mem.holds && Callback(|c.given|) !in c.mem.holds
    ensures Callback(c.head) !in c.mem.holds
    ensures c.head < |c.given| ==> Entry(c.head) in c.mem.holds
  {
  }

  /** Without a callback nothing waits to be told. */
  predicate Quiet(c: Custody, cb: bool) {
    !cb ==> c.told == c.finished
  }

  lemma QueueSafe(c: Custody, cb: bool, user: nat)
    requires Safe(c) && CanMove(c, Queue(user))
    ensures Safe(Moved(c, cb, Queue(user)))
  {
    hide S.Counted, S.Next, S.View;
    OthersFree(c);
    TakeRef(c.mem, Entry(|c.given|), user);
  }

  lemma WholeSafe(c: Custody, cb: bool, user: nat)
    requires Safe(c) && CanMove(c, Whole(user)) && Quiet(c, cb)
    ensures Safe(Moved(c, cb, Whole(user)))
  {
    hide S.Counted, S.Next, S.View;
    OthersFree(c);
    if cb {
      TakeRef(c.mem, Callback(|c.given|), user);
    }
  }

  lemma FinishSafe(c: Custody, cb: bool)
    requires Safe(c) && CanMove(c, Finish) && Quiet(c, cb)
    ensures Safe(Moved(c, cb, Finish))
  {
    hide S.Counted, S.Next, S.View;
    S.CountedWellformed(c.mem);
    OthersFree(c);
    if cb {
      TakeRef(c.mem, Callback(c.head), Entry(c.head));
      GiveBack(S.Next(c.mem, S.Share(Callback(c.head), Entry(c.head))), Entry(c.head));
    } else {
      GiveBack(c.mem, Entry(c.head));
    }
  }

  lemma TellSafe(c: Custody, cb: bool)
    requires Safe(c) && CanMove(c, Tell)
    ensures Safe(Moved(c, cb, Tell))
  {
    hide S.Counted, S.Next, S.View;
    GiveBack(c.mem, Callback(c.told));
  }

  lemma AbortSafe(c: Custody, cb: bool)
    requires Safe(c) && CanMove(c, Abort)
    ensures Safe(Moved(c, cb, Abort))
  {
    hide S.Counted, S.Next, S.View;
    GiveBack(c.mem, Entry(c.head));
  }

  lemma MovedSafe(c: Custody, cb: bool, m: Move)
    requires Safe(c) && CanMove(c, m) && Quiet(c, cb) && (!cb ==> !m.Tell?)
    ensures Safe(Moved(c, cb, m)) && Quiet(Moved(c, cb, m), cb)
  {
    hide Safe, S.Next, S.View, Entry, Callback, IsUser;
    match m {
      case Queue(user) => QueueSafe(c, cb, user);
      case Whole(user) => WholeSafe(c, cb, user);
      case Finish => FinishSafe(c, cb);
      case Tell => TellSafe(c, cb);
      case Abort => AbortSafe(c, cb);
      case Elsewhere(op) => ElsewhereSafe(c, op);
    }
  }

  lemma OthersStay(s: S.State, op: S.Op, h: nat)
    requires S.Counted(s) && S.Enabled(s, op) && h != S.Actor(op)
    ensures
      var t := S.Next(s, op);
      (h in t.holds <==> h in s.holds) && S.Wellformed(t) && (h in s.holds ==> S.View(t, h) == S.View(s, h))
  {
    S.NextCounted(s, op);
    if h in s.holds {
      S.NextIsolated(s, op, h);
    }
  }

  /** Whatever the others do, the references of the connection and what they lead to stay. */
  lemma ElsewhereSafe(c: Custody, op: S.Op)
    requires Safe(c) && S.Enabled(c.mem, op) && IsUser(S.Actor(op))
    ensures Safe(c.(mem := S.Next(c.mem, op)))
  {
    hide S.Counted, S.Next, S.View, S.Enabled;
    S.CountedWellformed(c.mem);
    S.NextCounted(c.mem, op);
    S.CountedWellformed(S.Next(c.mem, op));
    var t := S.Next(c.mem, op);
    forall i: nat
      ensures Entry(i) in t.holds <==> Entry(i) in c.mem.holds
      ensures Entry(i) in c.mem.holds ==> S.View(t, Entry(i)) == S.View(c.mem, Entry(i))
    {
      OthersStay(c.mem, op, Entry(i));
    }
    forall i: nat
      ensures Callback(i) in t.holds <==> Callback(i) in c.mem.holds
      ensures Callback(i) in c.mem.holds ==> S.View(t, Callback(i)) == S.View(c.mem, Callback(i))
    {
      OthersStay(c.mem, op, Callback(i));
    }
  }

  /** Where a move leaves the counts. */
  lemma MovedCounts(c: Custody, cb: bool, m: Move)
    requires Safe(c) && CanMove(c, m)
    ensures
      var d := Moved(c, cb, m);
      && d.head == (if m.Whole? || m.Finish? || m.Abort? then c.head + 1 else c.head)
      && d.finished == (if m.Whole? || m.Finish? then c.finished + 1 else c.finished)
      && d.told == (if m.Tell? || (!cb && (m.Whole? || m.Finish?)) then c.told + 1 else c.told)
      && d.given == c.given + if m.Queue? || m.Whole? then [S.View(c.mem, m.user)] else []
  {
    hide S.Next, S.View, Entry, Callback;
    OthersFree(c);
  }

  /** A sequence of moves of the connection, which every state on the way allows. */
  ghost predicate Leads(c: Custody, cb: bool, moves: seq<Move>, d: Custody)
    decreases |moves|
  {
    Safe(c) &&
    if moves == [] then c == d
    else CanMove(c, moves[0]) && Leads(Moved(c, cb, moves[0]), cb, moves[1..], d)
  }

  lemma {:induction false} LeadsOn(c: Custody, cb: bool, a: seq<Move>, d: Custody, b: seq<Move>, e: Custody)
    requires Leads(c, cb, a, d) && Leads(d, cb, b, e)
    ensures Leads(c, cb, a + b, e)
    decreases |a|
  {
    hide Safe, Moved, CanMove;
    if a == [] {
      assert a + b == b;
    } else {
      assert (a + b)[1..] == a[1..] + b;
      LeadsOn(Moved(c, cb, a[0]), cb, a[1..], d, b, e);
    }
  }

  lemma OneStep(c: Custody, cb: bool, m: Move)
    requires Safe(c) && CanMove(c, m) && Quiet(c, cb) && (!cb ==> !m.Tell?)
    ensures Leads(c, cb, [m], Moved(c, cb, m)) && Safe(Moved(c, cb, m)) && Quiet(Moved(c, cb, m), cb)
  {
    MovedSafe(c, cb, m);
    assert [m][1..] == [];
  }

  // ----- The moves behind each operation -----

  /** What was given is the buffer that was sent: its bytes, and the descriptors found in them. */
  predicate Matches(content: S.Content, buf: Buffer) {
    content.data == buf.data && B.Owned(content.data, content.fdoffs) == buf.fds
  }

  predicate InStep(s: Spec, c: Custody) {
    && |c.given| == |s.accepted| && (forall i | 0 <= i < |c.given| :: Matches(c.given[i], s.accepted[i]))
    && c.finished == |s.acceptedBy| && Quiet(c, s.hasSendCb)
    && (if s.isOpen then c.head == c.finished && (s.hasSendCb ==> c.told == |s.notified|)
        else c.head == |c.given| && c.told == c.finished)
  }

  function Tells(k: nat): (r: seq<Move>)
    ensures |r| == k
  {
    if k == 0 then [] else [Tell] + Tells(k - 1)
  }

  function Aborted(k: nat): (r: seq<Move>)
    ensures |r| == k
  {
    if k == 0 then [] else [Abort] + Aborted(k - 1)
  }

  /** One completion for each buffer that these system calls write whole. */
  function Finishes(s: Spec, results: seq<WriteResult>): seq<Move>
    requires Feasible(WritableOp(results))
    decreases |results|
  {
    if s.queue == [] || results == [] || s.queue[0].off > |s.queue[0].buf.data| then []
    else
      var r := Clamp(s.queue[0], results[0]);
      if r.Wrote? then
        assert forall i | 0 <= i < |results[1..]| :: results[1..][i] == results[i + 1];
        (if HeadComplete(s, r.n) then [Finish] else []) + Finishes(Turn(s, r), results[1..])
      else []
  }

  predicate AtOnce(s: Spec, buf: Buffer, r: WriteResult) {
    s.queue == [] && Clamp(IoBuffer(buf, 0), r) == Wrote(|buf.data|)
  }

  function MovesOf(s: Spec, op: Op, user: nat): seq<Move>
    requires Feasible(op)
  {
    match op
    case SendOp(buf, r) =>
      if SendAnswer(s, buf, r) != Accepted then []
      else if AtOnce(s, buf, r) then [Whole(user)]
      else [Queue(user)]
    case WritableOp(results) => if !s.isOpen || s.queue == [] || s.isShutdown then [] else Finishes(s, results)
    case IdleOp => if s.idle != [] && s.idle[0].Mine? then [Tell] else []
    case DisconnectOp => if s.isOpen then Tells(|Mines(s.idle)|) else []
    case CloseOp => if s.isOpen then Tells(|Mines(s.idle)|) + Aborted(|s.queue|) else []
    case _ => []
  }

  ghost predicate Follows(s: Spec, c: Custody, cb: bool, moves: seq<Move>, t: Spec, d: Custody) {
    Leads(c, cb, moves, d) && Safe(d) && InStep(t, d)
  }

  lemma {:induction false} TellsLead(c: Custody, cb: bool, k: nat) returns (d: Custody)
    requires Safe(c) && Quiet(c, cb) && c.told + k <= c.finished && (k > 0 ==> cb)
    ensures Leads(c, cb, Tells(k), d) && Safe(d) && Quiet(d, cb)
    ensures d.given == c.given && d.head == c.head && d.finished == c.finished && d.told == c.told + k
    decreases k
  {
    hide Safe;
    d := c;
    if k > 0 {
      SafeWellformed(c);
      OneStep(c, cb, Tell);
      MovedCounts(c, cb, Tell);
      hide Moved, Leads;
      d := TellsLead(Moved(c, cb, Tell), cb, k - 1);
      LeadsOn(c, cb, [Tell], Moved(c, cb, Tell), Tells(k - 1), d);
    }
  }

  lemma {:induction false} AbortsLead(c: Custody, cb: bool, k: nat) returns (d: Custody)
    requires Safe(c) && Quiet(c, cb) && c.head + k <= |c.given|
    ensures Leads(c, cb, Aborted(k), d) && Safe(d) && Quiet(d, cb)
    ensures d.given == c.given && d.head == c.head + k && d.finished == c.finished && d.told == c.told
    decreases k
  {
    hide Safe;
    d := c;
    if k > 0 {
      SafeWellformed(c);
      OneStep(c, cb, Abort);
      MovedCounts(c, cb, Abort);
      hide Moved, Leads;
      d := AbortsLead(Moved(c, cb, Abort), cb, k - 1);
      LeadsOn(c, cb, [Abort], Moved(c, cb, Abort), Aborted(k - 1), d);
    }
  }

  lemma SafeWellformed(c: Custody)
    requires Safe(c)
    ensures S.Counted(c.mem) && S.Wellformed(c.mem)
  {
  }

  /** Counts of an open connection. */
  lemma Counts(s: Spec)
    requires OpenOk(s)
    ensures |s.acceptedBy| + |s.queue| == |s.accepted|
    ensures s.hasSendCb ==> |s.notified| + |Mines(s.idle)| == |s.acceptedBy|
    ensures !s.hasSendCb ==> Mines(s.idle) == []
  {
  }

  lemma SendCounts(s: Spec, buf: Buffer, r: WriteResult)
    requires SendAnswer(s, buf, r) == Accepted && r != Wrote(0)
    ensures
      var t := AfterSend(s, buf, r);
      && t.isOpen == s.isOpen && t.hasSendCb == s.hasSendCb && t.accepted == s.accepted + [buf]
      && t.notified == s.notified
      && |t.acceptedBy| == if AtOnce(s, buf, r) then |s.acceptedBy| + 1 else |s.acceptedBy|
  {
  }

  lemma SendInStep(s: Spec, c: Custody, buf: Buffer, content: S.Content, once: bool, t: Spec, d: Custody)
    requires s.isOpen && InStep(s, c) && Matches(content, buf) && (once ==> c.head == |c.given|)
    requires t.isOpen && t.hasSendCb == s.hasSendCb && t.accepted == s.accepted + [buf] && t.notified == s.notified
    requires |t.acceptedBy| == if once then |s.acceptedBy| + 1 else |s.acceptedBy|
    requires d.given == c.given + [content] && d.head == (if once then c.head + 1 else c.head)
    requires d.finished == if once then c.finished + 1 else c.finished
    requires d.told == if once && !s.hasSendCb then c.told + 1 else c.told
    ensures InStep(t, d)
  {
    hide Matches;
  }

  lemma SendFollows(s: Spec, buf: Buffer, r: WriteResult, user: nat, c: Custody) returns (d: Custody)
    requires s.isOpen && OpenOk(s) && Safe(c) && InStep(s, c) && r != Wrote(0)
    requires SendAnswer(s, buf, r) == Accepted
    requires user in c.mem.holds && IsUser(user) && Matches(S.View(c.mem, user), buf)
    ensures Follows(s, c, s.hasSendCb, MovesOf(s, SendOp(buf, r), user), AfterSend(s, buf, r), d)
  {
    hide OpenOk, Safe, Matches, AfterSend, IsUser, S.View, Leads, AtOnce, SendAnswer, Moved, InStep;
    SafeWellformed(c);
    SendCounts(s, buf, r);
    var once := AtOnce(s, buf, r);
    var m := if once then Whole(user) else Queue(user);
    SendCan(s, buf, r, user, c);
    OneStep(c, s.hasSendCb, m);
    MovedCounts(c, s.hasSendCb, m);
    d := Moved(c, s.hasSendCb, m);
    SendInStep(s, c, buf, S.View(c.mem, user), once, AfterSend(s, buf, r), d);
  }

  lemma SendCan(s: Spec, buf: Buffer, r: WriteResult, user: nat, c: Custody)
    requires s.isOpen && OpenOk(s) && InStep(s, c) && user in c.mem.holds && IsUser(user) && S.Wellformed(c.mem)
    ensures CanMove(c, Queue(user)) && Quiet(c, s.hasSendCb)
    ensures AtOnce(s, buf, r) ==> CanMove(c, Whole(user)) && c.head == |c.given|
  {
    Counts(s);
  }

  lemma {:induction false} WritesFollow(s: Spec, results: seq<WriteResult>, c: Custody) returns (d: Custody)
    requires s.isOpen && OpenOk(s) && Safe(c) && InStep(s, c) && Feasible(WritableOp(results))
    ensures Follows(s, c, s.hasSendCb, Finishes(s, results), Turns(s, results), d)
    decreases |results|
  {
    hide OpenOk, Safe, Matches;
    d := c;
    if s.queue != [] && results != [] && s.queue[0].off <= |s.queue[0].buf.data| {
      var r := Clamp(s.queue[0], results[0]);
      if r.Wrote? {
        TurnOk(s, r);
        HeadIs(s);
        SafeWellformed(c);
        var t := Turn(s, r);
        if HeadComplete(s, r.n) {
          OneStep(c, s.hasSendCb, Finish);
          MovedCounts(c, s.hasSendCb, Finish);
          hide Moved, Leads;
          var e := Moved(c, s.hasSendCb, Finish);
          d := WritesFollow(t, results[1..], e);
          LeadsOn(c, s.hasSendCb, [Finish], e, Finishes(t, results[1..]), d);
        } else {
          d := WritesFollow(t, results[1..], c);
          assert [] + Finishes(t, results[1..]) == Finishes(t, results[1..]);
        }
      }
    }
  }

  lemma SettledInStep(s: Spec, op: Op, c: Custody, d: Custody)
    requires s.isOpen && OpenOk(s) && InStep(s, c) && (op.DisconnectOp? || op.CloseOp?)
    requires d.given == c.given && d.finished == c.finished && d.told == c.told + |Mines(s.idle)|
    requires d.head == if op.CloseOp? then c.head + |s.queue| else c.head
    ensures InStep(Next(s, op), d)
  {
    Counts(s);
    hide Matches, OpenOk;
  }

  lemma SettlesCan(s: Spec, c: Custody)
    requires s.isOpen && OpenOk(s) && InStep(s, c)
    ensures Quiet(c, s.hasSendCb) && (Mines(s.idle) != [] ==> s.hasSendCb)
    ensures c.told + |Mines(s.idle)| <= c.finished && c.head + |s.queue| == |c.given|
  {
    Counts(s);
    hide Matches, OpenOk;
  }

  lemma SettlesFollow(s: Spec, op: Op, c: Custody) returns (d: Custody)
    requires s.isOpen && OpenOk(s) && Safe(c) && InStep(s, c) && (op.DisconnectOp? || op.CloseOp?)
    ensures Follows(s, c, s.hasSendCb, MovesOf(s, op, 0), Next(s, op), d)
  {
    hide OpenOk, Safe, Leads, Tells, Aborted, Mines, InStep, Next;
    SettlesCan(s, c);
    var cb, k := s.hasSendCb, |Mines(s.idle)|;
    d := TellsLead(c, cb, k);
    if op.CloseOp? {
      var e := d;
      d := AbortsLead(e, cb, |s.queue|);
      LeadsOn(c, cb, Tells(k), e, Aborted(|s.queue|), d);
    }
    SettledInStep(s, op, c, d);
  }

  lemma IdleFollows(s: Spec, c: Custody) returns (d: Custody)
    requires Inv(s) && Safe(c) && InStep(s, c)
    ensures Follows(s, c, s.hasSendCb, MovesOf(s, IdleOp, 0), Next(s, IdleOp), d)
  {
    hide Safe, Matches;
    d := c;
    if s.idle != [] && s.idle[0].Mine? {
      assert Mines(s.idle) != [];
      Counts(s);
      SafeWellformed(c);
      OneStep(c, s.hasSendCb, Tell);
      MovedCounts(c, s.hasSendCb, Tell);
      hide Moved, Leads;
      d := Moved(c, s.hasSendCb, Tell);
    }
  }

  /** Every operation of the connection takes and gives back references so that the two stay in step. A send comes from
      a holder of the buffer. */
  lemma NextFollows(s: Spec, op: Op, user: nat, c: Custody) returns (d: Custody)
    requires Inv(s) && Feasible(op) && Safe(c) && InStep(s, c)
    requires op.SendOp? ==> user in c.mem.holds && IsUser(user) && S.Wellformed(c.mem)
    requires op.SendOp? ==> Matches(S.View(c.mem, user), op.buf)
    ensures Follows(s, c, s.hasSendCb, MovesOf(s, op, user), Next(s, op), d)
  {
    hide OpenOk, ClosedOk, Safe, Matches;
    d := c;
    match op {
      case SendOp(buf, r) =>
        if SendAnswer(s, buf, r) == Accepted {
          d := SendFollows(s, buf, r, user, c);
        }
      case WritableOp(results) =>
        if s.isOpen && s.queue != [] && !s.isShutdown {
          d := WritesFollow(s, results, c);
        }
      case IdleOp => d := IdleFollows(s, c);
      case DisconnectOp => if s.isOpen { d := SettlesFollow(s, op, c); }
      case CloseOp => if s.isOpen { d := SettlesFollow(s, op, c); }
      case _ =>
    }
  }

  // ----- Runs -----

  /** The connection does something, or the others do anything with the buffers they hold. */
  datatype Event = Operation(op: Op, user: nat) | Others(act: S.Op)

  datatype World = World(spec: Spec, custody: Custody)

  ghost predicate Step(w: World, e: Event, w': World) {
    Safe(w.custody) &&
    match e
    case Operation(op, user) =>
      && Feasible(op)
      && (op.SendOp? ==> user in w.custody.mem.holds && IsUser(user) && Matches(S.View(w.custody.mem, user), op.buf))
      && w'.spec == Next(w.spec, op)
      && Leads(w.custody, w.spec.hasSendCb, MovesOf(w.spec, op, user), w'.custody)
    case Others(act) =>
      && CanMove(w.custody, Elsewhere(act)) && w'.spec == w.spec
      && w'.custody == Moved(w.custody, w.spec.hasSendCb, Elsewhere(act))
  }

  ghost predicate Init(w: World) {
    && w.spec == Fresh(w.spec.isLocal, w.spec.hasSendCb)
    && Safe(w.custody) && w.custody.given == [] && w.custody.head == 0
  }

  ghost predicate IsRun(worlds: seq<World>, events: seq<Event>) {
    && |worlds| == |events| + 1 && Init(worlds[0])
    && (forall i | 0 <= i < |events| && Safe(worlds[i].custody) :: Step(worlds[i], events[i], worlds[i + 1]))
  }

  lemma {:induction false} LeadsOnce(c: Custody, cb: bool, moves: seq<Move>, d: Custody, e: Custody)
    requires Leads(c, cb, moves, d) && Leads(c, cb, moves, e)
    ensures d == e
    decreases |moves|
  {
    hide Safe, Moved, CanMove;
    if moves != [] {
      LeadsOnce(Moved(c, cb, moves[0]), cb, moves[1..], d, e);
    }
  }

  ghost predicate Kept(w: World) {
    Inv(w.spec) && Safe(w.custody) && InStep(w.spec, w.custody)
  }

  lemma StepKeeps(w: World, e: Event, w': World)
    requires Kept(w) && Step(w, e, w')
    ensures Kept(w')
  {
    hide Inv, Safe, InStep, Matches;
    SafeWellformed(w.custody);
    match e {
      case Operation(op, user) =>
        NextOk(w.spec, op);
        var d := NextFollows(w.spec, op, user, w.custody);
        LeadsOnce(w.custody, w.spec.hasSendCb, MovesOf(w.spec, op, user), d, w'.custody);
      case Others(act) =>
        ElsewhereSafe(w.custody, act);
        SameCounts(w.spec, w.custody, w'.custody);
    }
  }

  lemma SameCounts(s: Spec, c: Custody, d: Custody)
    requires InStep(s, c) && d == c.(mem := d.mem)
    ensures InStep(s, d)
  {
  }

  lemma {:induction false} RunKeeps(worlds: seq<World>, events: seq<Event>, i: nat)
    requires IsRun(worlds, events) && i < |worlds|
    ensures Kept(worlds[i])
  {
    hide Kept, Step;
    if i == 0 {
      InitKept(worlds[0]);
    } else {
      RunKeeps(worlds, events, i - 1);
      KeptSafe(worlds[i - 1]);
      StepKeeps(worlds[i - 1], events[i - 1], worlds[i]);
    }
  }

  lemma InitKept(w: World)
    requires Init(w)
    ensures Kept(w)
  {
    FreshOk(w.spec.isLocal, w.spec.hasSendCb);
  }

  lemma KeptSafe(w: World)
    requires Kept(w)
    ensures Safe(w.custody)
  {
  }

  /** In every run, whatever the user does with the buffers that were sent, reusing and dropping them included: the
      entries of the write queue lead to the very bytes and descriptors that were sent, and so do the completions
      that wait. */
  lemma QueuedIsKept(worlds: seq<World>, events: seq<Event>, i: nat, k: nat)
    requires IsRun(worlds, events) && i < |worlds| && k < |worlds[i].spec.accepted|
    ensures
      var s, c := worlds[i].spec, worlds[i].custody;
      && S.Counted(c.mem)
      && (s.isOpen && k >= |s.acceptedBy| ==>
            && Entry(k) in c.mem.holds && k - |s.acceptedBy| < |s.queue|
            && s.queue[k - |s.acceptedBy|].buf == s.accepted[k] && Matches(S.View(c.mem, Entry(k)), s.accepted[k]))
      && (s.isOpen && s.hasSendCb && |s.notified| <= k < |s.acceptedBy| ==>
            Callback(k) in c.mem.holds && Matches(S.View(c.mem, Callback(k)), s.accepted[k]))
  {
    hide Matches, IsRun, NotesOk, HistoryOk, Flows, Unfinished, S.View, S.Counted;
    RunKeeps(worlds, events, i);
    if worlds[i].spec.isOpen {
      QueueIs(worlds[i].spec);
    }
    SafeWellformed(worlds[i].custody);
  }

  lemma QueueIs(s: Spec)
    requires OpenOk(s)
    ensures |s.acceptedBy| + |s.queue| == |s.accepted|
    ensures forall j | 0 <= j < |s.queue| :: s.queue[j].buf == s.accepted[|s.acceptedBy| + j]
  {
  }

  /** Once closed, the connection holds no reference. */
  lemma NothingIsHeld(worlds: seq<World>, events: seq<Event>, i: nat, k: nat)
    requires IsRun(worlds, events) && i < |worlds| && !worlds[i].spec.isOpen
    ensures Entry(k) !in worlds[i].custody.mem.holds && Callback(k) !in worlds[i].custody.mem.holds
  {
    RunKeeps(worlds, events, i);
  }

  /** In every run the connection holds exactly one reference for each send not complete, and one for each completion
      not told if there is a callback. */
  lemma HeldExactly(worlds: seq<World>, events: seq<Event>, i: nat, k: nat)
    requires IsRun(worlds, events) && i < |worlds| && worlds[i].spec.isOpen
    ensures
      var s, c := worlds[i].spec, worlds[i].custody;
      && (Entry(k) in c.mem.holds <==> |s.acceptedBy| <= k < |s.accepted|)
      && (Callback(k) in c.mem.holds <==> s.hasSendCb && |s.notified| <= k < |s.acceptedBy|)
  {
    RunKeeps(worlds, events, i);
    hide Matches, IsRun, Inv, S.View, S.Counted;
  }
}
