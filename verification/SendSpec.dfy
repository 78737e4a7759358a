/** The sending half of a connection as a function of what happens to it: calls by the user, events of the
    socket, turns of the loop. Module Conn refines it. */
module SendSpec {
  import opened Bytes
  import opened WriteQueue

  /** An entry of the idle queue of the loop: one of our notifications, or somebody else's entry. */
  datatype Waiting = Mine(note: Notification) | Theirs(key: nat)

  datatype Spec = Spec(
    isLocal: bool, hasSendCb: bool, isOpen: bool, isShutdown: bool, removeflag: bool,
    queue: seq<IoBuffer>,
    idle: seq<Waiting>,
    accepted: seq<Buffer>,      // sends that answered 0, in order
    acceptedBy: seq<nat>,       // for each completed send, how many were accepted by then
    wire: seq<byte>,            // bytes taken by the socket
    ancillary: seq<Ancillary>,  // descriptors taken by the socket
    notified: seq<Notification>)

  function Fresh(isLocal: bool, hasSendCb: bool): Spec {
    Spec(isLocal, hasSendCb, true, false, false, [], [], [], [], [], [], [])
  }

  function Mines(idle: seq<Waiting>): seq<Notification> {
    if idle == [] then [] else if idle[0].Mine? then [idle[0].note] + Mines(idle[1..]) else Mines(idle[1..])
  }

  function TheirsIn(idle: seq<Waiting>): seq<Waiting> {
    if idle == [] then [] else if idle[0].Mine? then TheirsIn(idle[1..]) else [idle[0]] + TheirsIn(idle[1..])
  }

  /** Others remove their own entry. */
  function WithoutKey(idle: seq<Waiting>, key: nat): seq<Waiting> {
    if idle == [] then []
    else if idle[0] == Theirs(key) then WithoutKey(idle[1..], key)
    else [idle[0]] + WithoutKey(idle[1..], key)
  }

  // ----- Steps -----

  /** A send is complete, and no longer in the queue: its notification waits for the loop to be idle. */
  function Completed(s: Spec, buf: Buffer): Spec {
    s.(acceptedBy := s.acceptedBy + [|s.accepted|],
       idle := if s.hasSendCb then s.idle + [Mine(Notification(buf, Sent, s.queue == []))] else s.idle)
  }

  /** Bytes of the head of the queue are out. */
  function HeadWritten(s: Spec, n: nat): Spec
    requires s.queue != [] && s.queue[0].off + n <= |s.queue[0].buf.data|
  {
    var io := s.queue[0];
    s.(queue := AfterWrite(s.queue, n), wire := s.wire + io.buf.data[io.off..io.off + n],
       ancillary := Attach(s.ancillary, |s.wire|, io))
  }

  /** One system call for the head of the queue. */
  function Turn(s: Spec, r: WriteResult): Spec
    requires s.queue != [] && Possible(s.queue[0], r)
  {
    if !r.Wrote? then s
    else
      var io, t := s.queue[0], HeadWritten(s, r.n);
      if io.off + r.n == |io.buf.data| then Completed(t, io.buf) else t
  }

  /** What the system call can take, given what it is offered. */
  predicate Possible(io: IoBuffer, r: WriteResult) {
    io.off <= |io.buf.data| &&
    (r.Wrote? ==> r.n <= |io.buf.data| - io.off && (io.off < |io.buf.data| ==> r.n > 0))
  }

  /** System calls with these answers, until one would block or fails, or nothing is left. No more answers
      count as would-block. */
  function Turns(s: Spec, results: seq<WriteResult>): Spec
    requires Feasible(WritableOp(results))
    decreases |results|
  {
    if s.queue == [] || results == [] || s.queue[0].off > |s.queue[0].buf.data| then s
    else
      var r := Clamp(s.queue[0], results[0]);
      if r.Wrote? then
        assert forall i | 0 <= i < |results[1..]| :: results[1..][i] == results[i + 1];
        Turns(Turn(s, r), results[1..])
      else if r.Failed? then s.(removeflag := true)
      else s
  }

  function SendAnswer(s: Spec, buf: Buffer, r: WriteResult): SendStatus {
    if !s.isOpen || !buf.stored then EINVAL
    else if s.isShutdown then ENOTCONN
    else if buf.fds != [] && !s.isLocal then EPERM
    else if s.queue == [] && r.Failed? then EIO
    else Accepted
  }

  function Queued(s: Spec, buf: Buffer): Spec {
    s.(accepted := s.accepted + [buf], queue := s.queue + [IoBuffer(buf, 0)])
  }

  /** A send: if nothing waits, it is written at once as far as possible. */
  function AfterSend(s: Spec, buf: Buffer, r: WriteResult): Spec
    requires r != Wrote(0)
  {
    if SendAnswer(s, buf, r) != Accepted then s
    else if s.queue == [] then Turn(Queued(s, buf), Clamp(IoBuffer(buf, 0), r))
    else Queued(s, buf)
  }

  function Told(s: Spec): Spec {
    s.(notified := s.notified + Mines(s.idle), idle := TheirsIn(s.idle))
  }

  function Aborts(queue: seq<IoBuffer>): (r: seq<Notification>)
    ensures |r| == |queue|
  {
    seq(|queue|, i requires 0 <= i < |queue| => Notification(queue[i].buf, Aborted, i == |queue| - 1))
  }

  function ClosedSpec(s: Spec): Spec {
    if !s.isOpen then s
    else
      var t := Told(s.(isShutdown := true));
      t.(isOpen := false, queue := [], notified := if s.hasSendCb then t.notified + Aborts(s.queue) else t.notified)
  }

  datatype Op = SendOp(buf: Buffer, r: WriteResult) | WritableOp(results: seq<WriteResult>)
              | IdleOp | OtherAddOp(key: nat) | OtherRemoveOp(key: nat) | DisconnectOp | CloseOp

  /** A call that takes bytes takes at least one. */
  predicate Feasible(op: Op) {
    match op
    case SendOp(_, r) => r != Wrote(0)
    case WritableOp(results) => forall i | 0 <= i < |results| :: results[i] != Wrote(0)
    case _ => true
  }

  function Next(s: Spec, op: Op): Spec
    requires Feasible(op)
  {
    match op
    case SendOp(buf, r) => AfterSend(s, buf, r)
    case WritableOp(results) =>
      if !s.isOpen || s.queue == [] then s
      else if s.isShutdown then s.(removeflag := true)
      else Turns(s, results)
    case IdleOp =>
      if s.idle == [] then s
      else if s.idle[0].Mine? then s.(idle := s.idle[1..], notified := s.notified + [s.idle[0].note])
      else s.(idle := s.idle[1..])
    case OtherAddOp(key) => s.(idle := s.idle + [Theirs(key)])
    case OtherRemoveOp(key) => s.(idle := WithoutKey(s.idle, key))
    case DisconnectOp => if s.isOpen then Told(s.(isShutdown := true)) else s
    case CloseOp => ClosedSpec(s)
  }

  function Answer(s: Spec, op: Op): SendStatus {
    match op
    case SendOp(buf, r) => SendAnswer(s, buf, r)
    case DisconnectOp => if s.isOpen then Accepted else ENOTCONN
    case CloseOp => if s.isOpen then Accepted else EINVAL
    case _ => Accepted
  }

  predicate AllFeasible(ops: seq<Op>) {
    forall i | 0 <= i < |ops| :: Feasible(ops[i])
  }

  function RunOps(s: Spec, ops: seq<Op>): Spec
    requires AllFeasible(ops)
  {
    if ops == [] then s else Next(RunOps(s, ops[..|ops| - 1]), ops[|ops| - 1])
  }

  function Answers(s: Spec, ops: seq<Op>): (r: seq<SendStatus>)
    requires AllFeasible(ops)
    ensures |r| == |ops|
  {
    if ops == [] then []
    else
      var before := ops[..|ops| - 1];
      Answers(s, before) + [Answer(RunOps(s, before), ops[|ops| - 1])]
  }

  /** The buffers of the sends that were accepted. */
  function AcceptedIn(ops: seq<Op>, answers: seq<SendStatus>): seq<Buffer>
    requires |answers| == |ops|
  {
    if ops == [] then []
    else
      var n := |ops| - 1;
      var before := AcceptedIn(ops[..n], answers[..n]);
      if ops[n].SendOp? && answers[n] == Accepted then before + [ops[n].buf] else before
  }

  // ----- What every step keeps -----

  predicate OpenOk(s: Spec) {
    && StreamOk(s.accepted, |s.acceptedBy|, s.queue, s.wire, s.ancillary)
    && NotesOk(s.hasSendCb, s.accepted, s.acceptedBy, s.notified, Mines(s.idle))
  }

  predicate ClosedOk(s: Spec) {
    && s.isShutdown && s.queue == [] && Mines(s.idle) == []
    && HistoryOk(s.hasSendCb, s.accepted, s.acceptedBy, s.wire, s.ancillary, s.notified)
  }

  predicate Inv(s: Spec) {
    if s.isOpen then OpenOk(s) else ClosedOk(s)
  }

  lemma {:induction false} MinesAppend(idle: seq<Waiting>, w: Waiting)
    ensures Mines(idle + [w]) == if w.Mine? then Mines(idle) + [w.note] else Mines(idle)
  {
    if idle == [] {
      assert idle + [w] == [w];
    } else {
      assert (idle + [w])[1..] == idle[1..] + [w];
      MinesAppend(idle[1..], w);
    }
  }

  lemma {:induction false} MinesOfTheirs(idle: seq<Waiting>)
    ensures Mines(TheirsIn(idle)) == []
  {
    if idle != [] {
      MinesOfTheirs(idle[1..]);
      assert idle[0].Theirs? ==> ([idle[0]] + TheirsIn(idle[1..]))[1..] == TheirsIn(idle[1..]);
    }
  }

  lemma {:induction false} MinesWithout(idle: seq<Waiting>, key: nat)
    ensures Mines(WithoutKey(idle, key)) == Mines(idle)
  {
    if idle != [] {
      MinesWithout(idle[1..], key);
      assert ([idle[0]] + WithoutKey(idle[1..], key))[1..] == WithoutKey(idle[1..], key);
    }
  }

  lemma CompletedOk(s: Spec, buf: Buffer)
    requires StreamOk(s.accepted, |s.acceptedBy| + 1, s.queue, s.wire, s.ancillary)
    requires NotesOk(s.hasSendCb, s.accepted, s.acceptedBy, s.notified, Mines(s.idle))
    requires |s.acceptedBy| < |s.accepted| && buf == s.accepted[|s.acceptedBy|]
    ensures OpenOk(Completed(s, buf))
  {
    NotesComplete(s.hasSendCb, s.accepted, s.acceptedBy, s.notified, Mines(s.idle));
    MinesAppend(s.idle, Mine(Notification(buf, Sent, s.queue == [])));
  }

  /** The head of the queue is the first buffer that is not complete, and is not written whole. */
  lemma HeadIs(s: Spec)
    requires OpenOk(s) && s.queue != []
    ensures |s.acceptedBy| < |s.accepted| && s.queue[0].buf == s.accepted[|s.acceptedBy|]
    ensures s.queue[0].off < |s.queue[0].buf.data| || s.queue[0].buf.data == []
  {
  }

  predicate HeadComplete(s: Spec, n: nat)
    requires s.queue != []
  {
    s.queue[0].off + n == |s.queue[0].buf.data|
  }

  lemma HeadWrittenOk(s: Spec, n: nat)
    requires OpenOk(s) && s.queue != [] && Possible(s.queue[0], Wrote(n))
    ensures
      var t := HeadWritten(s, n);
      StreamOk(s.accepted, if HeadComplete(s, n) then |s.acceptedBy| + 1 else |s.acceptedBy|,
               t.queue, t.wire, t.ancillary)
  {
    hide StreamOk, NotesOk, Attach, AfterWrite;
    HeadIs(s);
    TurnAfter(s.accepted, |s.acceptedBy|, s.queue, s.wire, s.ancillary, n);
  }

  lemma TurnAfter(accepted: seq<Buffer>, done: nat, queue: seq<IoBuffer>,
                  wire: seq<byte>, ancillary: seq<Ancillary>, n: nat)
    requires StreamOk(accepted, done, queue, wire, ancillary) && queue != []
    requires queue[0].off + n <= |queue[0].buf.data| && (n > 0 || queue[0].off > 0 || queue[0].buf.data == [])
    ensures
      var io := queue[0];
      StreamOk(accepted, if io.off + n == |io.buf.data| then done + 1 else done, AfterWrite(queue, n),
               wire + io.buf.data[io.off..io.off + n], Attach(ancillary, |wire|, io))
  {
    hide StreamOk, Attach;
    TurnStream(accepted, done, queue, wire, ancillary, n);
  }

  lemma TurnOk(s: Spec, r: WriteResult)
    requires OpenOk(s) && s.queue != [] && Possible(s.queue[0], r)
    ensures OpenOk(Turn(s, r))
  {
    hide NotesOk, StreamOk, Attach, AfterWrite, Completed;
    if r.Wrote? {
      HeadIs(s);
      HeadWrittenOk(s, r.n);
      if s.queue[0].off + r.n == |s.queue[0].buf.data| {
        CompletedOk(HeadWritten(s, r.n), s.queue[0].buf);
      }
    }
  }

  lemma QueuedOk(s: Spec, buf: Buffer)
    requires OpenOk(s)
    ensures OpenOk(Queued(s, buf))
  {
    hide StreamOk, NotesOk;
    AcceptStream(s.accepted, |s.acceptedBy|, s.queue, s.wire, s.ancillary, buf);
    NotesAccept(s.hasSendCb, s.accepted, s.acceptedBy, s.notified, Mines(s.idle), buf);
  }

  lemma {:induction false} TurnsOk(s: Spec, results: seq<WriteResult>)
    requires OpenOk(s) && Feasible(WritableOp(results))
    ensures OpenOk(Turns(s, results)) && Turns(s, results).isOpen == s.isOpen
    decreases |results|
  {
    hide OpenOk;
    if s.queue != [] && results != [] && s.queue[0].off <= |s.queue[0].buf.data| {
      var r := Clamp(s.queue[0], results[0]);
      if r.Wrote? {
        TurnOk(s, r);
        TurnsOk(Turn(s, r), results[1..]);
      } else {
        FlagOk(s);
      }
    }
  }

  lemma FlagOk(s: Spec)
    requires OpenOk(s)
    ensures OpenOk(s.(removeflag := true)) && OpenOk(s.(isShutdown := true))
  {
  }

  lemma AfterSendOk(s: Spec, buf: Buffer, r: WriteResult)
    requires OpenOk(s) && r != Wrote(0)
    ensures OpenOk(AfterSend(s, buf, r)) && AfterSend(s, buf, r).isOpen == s.isOpen
  {
    hide OpenOk;
    if SendAnswer(s, buf, r) == Accepted {
      QueuedOk(s, buf);
      if s.queue == [] {
        assert Queued(s, buf).queue == [IoBuffer(buf, 0)];
        TurnOk(Queued(s, buf), Clamp(IoBuffer(buf, 0), r));
      }
    }
  }

  lemma ToldOk(s: Spec)
    requires OpenOk(s)
    ensures OpenOk(Told(s)) && Mines(Told(s).idle) == []
  {
    hide StreamOk;
    var waiting := Mines(s.idle);
    NotesTell(s.hasSendCb, s.accepted, s.acceptedBy, s.notified, waiting, |waiting|);
    MinesOfTheirs(s.idle);
    assert waiting[..|waiting|] == waiting && waiting[|waiting|..] == [];
  }

  lemma AbortsAre(accepted: seq<Buffer>, done: nat, queue: seq<IoBuffer>)
    requires Aligned(accepted, done, queue)
    ensures Aborts(queue) == DueAborted(accepted, done)
  {
  }

  lemma CloseOk(s: Spec)
    requires s.isOpen && OpenOk(s)
    ensures ClosedOk(ClosedSpec(s))
  {
    FlagOk(s);
    var t := Told(s.(isShutdown := true));
    ToldOk(s.(isShutdown := true));
    hide Told, Unwritten, Descriptors;
    StreamLeaves(t.accepted, |t.acceptedBy|, t.queue, t.wire, t.ancillary);
    AbortsAre(t.accepted, |t.acceptedBy|, t.queue);
    assert t.notified + [] == t.notified;
  }

  /** The loop runs the head of its idle queue. */
  lemma IdleStepOk(s: Spec)
    requires Inv(s) && s.idle != []
    ensures Inv(Next(s, IdleOp))
  {
    hide StreamOk, HistoryOk;
    if s.isOpen && s.idle[0].Mine? {
      var waiting := Mines(s.idle);
      NotesTell(s.hasSendCb, s.accepted, s.acceptedBy, s.notified, waiting, 1);
      assert waiting[..1] == [s.idle[0].note] && waiting[1..] == Mines(s.idle[1..]);
    }
  }

  lemma NextOk(s: Spec, op: Op)
    requires Inv(s) && Feasible(op)
    ensures Inv(Next(s, op))
  {
    hide OpenOk, ClosedOk;
    match op {
      case SendOp(buf, r) => if s.isOpen { AfterSendOk(s, buf, r); }
      case WritableOp(results) =>
        if s.isOpen && s.queue != [] && s.isShutdown {
          FlagOk(s);
        } else if s.isOpen && s.queue != [] {
          TurnsOk(s, results);
        }
      case IdleOp => if s.idle != [] { IdleStepOk(s); }
      case OtherAddOp(key) => OthersOk(s, key);
      case OtherRemoveOp(key) => OthersOk(s, key);
      case DisconnectOp =>
        if s.isOpen {
          FlagOk(s);
          ToldOk(s.(isShutdown := true));
        }
      case CloseOp => if s.isOpen { CloseOk(s); }
    }
  }

  /** What others do with the idle queue of the loop is no concern of ours. */
  lemma OthersOk(s: Spec, key: nat)
    requires Inv(s)
    ensures Inv(s.(idle := s.idle + [Theirs(key)])) && Inv(s.(idle := WithoutKey(s.idle, key)))
  {
    hide StreamOk, NotesOk, HistoryOk;
    MinesAppend(s.idle, Theirs(key));
    MinesWithout(s.idle, key);
  }

  lemma {:induction false} RunOk(isLocal: bool, hasSendCb: bool, ops: seq<Op>)
    requires AllFeasible(ops)
    ensures Inv(RunOps(Fresh(isLocal, hasSendCb), ops))
  {
    hide Next;
    if ops == [] {
      FreshOk(isLocal, hasSendCb);
    } else {
      RunOk(isLocal, hasSendCb, ops[..|ops| - 1]);
      NextOk(RunOps(Fresh(isLocal, hasSendCb), ops[..|ops| - 1]), ops[|ops| - 1]);
    }
  }

  lemma FreshOk(isLocal: bool, hasSendCb: bool)
    ensures Inv(Fresh(isLocal, hasSendCb))
  {
  }

  // ----- Sessions -----

  predicate SameSettings(s: Spec, t: Spec) {
    s.isLocal == t.isLocal && s.hasSendCb == t.hasSendCb
  }

  lemma {:induction false} TurnsFrame(s: Spec, results: seq<WriteResult>)
    requires Feasible(WritableOp(results))
    ensures Turns(s, results).accepted == s.accepted && SameSettings(s, Turns(s, results))
    decreases |results|
  {
    if s.queue != [] && results != [] && s.queue[0].off <= |s.queue[0].buf.data| {
      var r := Clamp(s.queue[0], results[0]);
      if r.Wrote? {
        TurnsFrame(Turn(s, r), results[1..]);
      }
    }
  }

  /** A send answered with success, and nothing else, adds its buffer to the accepted ones. */
  lemma NextAccepts(s: Spec, op: Op)
    requires Feasible(op)
    ensures SameSettings(s, Next(s, op))
    ensures Next(s, op).accepted == s.accepted + if op.SendOp? && Answer(s, op) == Accepted then [op.buf] else []
  {
    hide Turns;
    if op.WritableOp? {
      TurnsFrame(s, op.results);
    }
  }

  lemma {:induction false} RunAccepts(s: Spec, ops: seq<Op>)
    requires AllFeasible(ops) && s.accepted == []
    ensures SameSettings(s, RunOps(s, ops)) && RunOps(s, ops).accepted == AcceptedIn(ops, Answers(s, ops))
  {
    hide Next, Answer;
    if ops != [] {
      var n := |ops| - 1;
      RunAccepts(s, ops[..n]);
      NextAccepts(RunOps(s, ops[..n]), ops[n]);
      assert Answers(s, ops)[..n] == Answers(s, ops[..n]);
    }
  }

  /** Every life of a connection, whatever happens and in whatever order: once it is closed, the accepted sends
      are those that were answered with success, in order, and its history is complete. */
  lemma SessionHistory(isLocal: bool, hasSendCb: bool, ops: seq<Op>)
    requires AllFeasible(ops)
    ensures
      var new0 := Fresh(isLocal, hasSendCb);
      var s := ClosedSpec(RunOps(new0, ops));
      && !s.isOpen && s.accepted == AcceptedIn(ops, Answers(new0, ops))
      && HistoryOk(hasSendCb, s.accepted, s.acceptedBy, s.wire, s.ancillary, s.notified)
  {
    var t := RunOps(Fresh(isLocal, hasSendCb), ops);
    RunOk(isLocal, hasSendCb, ops);
    RunAccepts(Fresh(isLocal, hasSendCb), ops);
    hide RunOps, OpenOk, HistoryOk;
    if t.isOpen {
      CloseOk(t);
    }
  }
}
