/** What each operation on a connection answers and does, told from what happened before: the sends answered with
    success, how many of them are complete, and what is on the wire. */
module SendMeaning {
  import opened WriteQueue
  import opened SendSpec

  // ----- What a run is told to be -----

  predicate IsClosed(ops: seq<Op>) {
    CloseOp in ops
  }

  predicate IsShut(ops: seq<Op>) {
    CloseOp in ops || DisconnectOp in ops
  }

  /** Some send is not complete. */
  predicate Waits(s: Spec) {
    |s.acceptedBy| < |s.accepted|
  }

  lemma SendFlags(s: Spec, buf: Buffer, r: WriteResult)
    requires r != Wrote(0)
    ensures AfterSend(s, buf, r).isOpen == s.isOpen && AfterSend(s, buf, r).isShutdown == s.isShutdown
  {
  }

  lemma ClosedIsShut(s: Spec)
    requires Inv(s)
    ensures !s.isOpen ==> s.isShutdown
  {
  }

  lemma NextFlags(s: Spec, op: Op)
    requires Inv(s) && Feasible(op)
    ensures Next(s, op).isOpen <==> s.isOpen && op != CloseOp
    ensures Next(s, op).isShutdown <==> s.isShutdown || op == DisconnectOp || op == CloseOp
    ensures SameSettings(s, Next(s, op))
  {
    hide Inv, Turns, AfterSend, SendAnswer, Mines, TheirsIn, Aborts, WithoutKey;
    ClosedIsShut(s);
    NextAccepts(s, op);
    if op.WritableOp? {
      TurnsFlags(s, op.results);
    } else if op.SendOp? {
      SendFlags(s, op.buf, op.r);
    }
  }

  lemma {:induction false} TurnsFlags(s: Spec, results: seq<WriteResult>)
    requires Feasible(WritableOp(results))
    ensures Turns(s, results).isOpen == s.isOpen && Turns(s, results).isShutdown == s.isShutdown
    decreases |results|
  {
    if s.queue != [] && results != [] && s.queue[0].off <= |s.queue[0].buf.data| {
      var r := Clamp(s.queue[0], results[0]);
      if r.Wrote? {
        TurnsFlags(Turn(s, r), results[1..]);
      }
    }
  }

  /** A connection is open until it is closed, and can be written to until it is disconnected or closed. */
  lemma {:induction false} RunFlags(isLocal: bool, hasSendCb: bool, ops: seq<Op>)
    requires AllFeasible(ops)
    ensures
      var s := RunOps(Fresh(isLocal, hasSendCb), ops);
      && Inv(s) && s.isLocal == isLocal && s.hasSendCb == hasSendCb
      && (s.isOpen <==> !IsClosed(ops)) && (s.isShutdown <==> IsShut(ops))
  {
    hide Next, Inv;
    RunOk(isLocal, hasSendCb, ops);
    if ops != [] {
      var n := |ops| - 1;
      RunFlags(isLocal, hasSendCb, ops[..n]);
      NextFlags(RunOps(Fresh(isLocal, hasSendCb), ops[..n]), ops[n]);
      assert ops == ops[..n] + [ops[n]];
    }
  }

  /** Something is queued exactly while some send is not complete. */
  lemma QueueIsWaiting(s: Spec)
    requires Inv(s) && s.isOpen
    ensures s.queue == [] <==> !Waits(s)
  {
  }

  // ----- Sends -----

  /** How much of a buffer a call takes. */
  function Taken(left: nat, r: WriteResult): nat {
    if !r.Wrote? then 0 else if r.n < left then r.n else left
  }

  predicate Complete(left: nat, r: WriteResult) {
    r.Wrote? && r.n >= left
  }

  predicate Sendable(isLocal: bool, buf: Buffer) {
    buf.fds == [] || isLocal
  }

  /** In every run, a send succeeds if and only if the connection is neither closed nor disconnected, the buffer has
      storage, descriptors go to a local socket only, and, when nothing waits, the system call does not fail. Each
      refusal has its own reason, the first that applies. A refused send changes nothing; another one is the last
      accepted, and if nothing waited the system call takes its bytes at once. */
  lemma SendIsAnswered(isLocal: bool, hasSendCb: bool, ops: seq<Op>, i: nat)
    requires AllFeasible(ops) && i < |ops| && ops[i].SendOp?
    ensures
      var new0, before, buf, r := Fresh(isLocal, hasSendCb), ops[..i], ops[i].buf, ops[i].r;
      var s, t, a := RunOps(new0, before), RunOps(new0, ops[..i + 1]), Answers(new0, ops)[i];
      && (a == EINVAL <==> IsClosed(before) || !buf.stored)
      && (a == ENOTCONN <==> !IsClosed(before) && buf.stored && IsShut(before))
      && (a == EPERM <==> !IsShut(before) && buf.stored && !Sendable(isLocal, buf))
      && (a == EIO <==> !IsShut(before) && buf.stored && Sendable(isLocal, buf) && !Waits(s) && r.Failed?)
      && (a == Accepted <==>
            !IsShut(before) && buf.stored && Sendable(isLocal, buf) && (Waits(s) || !r.Failed?))
      && (a != Accepted ==> t == s)
      && (a == Accepted ==>
            && t.accepted == s.accepted + [buf] && t.notified == s.notified && t.isOpen && !t.isShutdown
            && t.removeflag == s.removeflag
            && t.wire == s.wire + buf.data[..if Waits(s) then 0 else Taken(|buf.data|, r)]
            && t.acceptedBy == s.acceptedBy
                 + (if !Waits(s) && Complete(|buf.data|, r) then [|s.accepted| + 1] else [])
            && t.idle == s.idle + if hasSendCb && !Waits(s) && Complete(|buf.data|, r)
                                  then [Mine(Notification(buf, Sent, true))] else [])
  {
    var new0, before := Fresh(isLocal, hasSendCb), ops[..i];
    RunFlags(isLocal, hasSendCb, before);
    AnswersAt(new0, ops, i);
    var s := RunOps(new0, before);
    if s.isOpen {
      QueueIsWaiting(s);
    }
    hide RunOps, Answers, Inv, Waits;
    if Answer(s, ops[i]) == Accepted {
      SendDoes(s, ops[i].buf, ops[i].r);
    }
  }

  lemma SendDoes(s: Spec, buf: Buffer, r: WriteResult)
    requires r != Wrote(0) && SendAnswer(s, buf, r) == Accepted
    ensures
      var t := Next(s, SendOp(buf, r));
      && t.accepted == s.accepted + [buf] && t.notified == s.notified
      && t.isOpen == s.isOpen && t.isShutdown == s.isShutdown && t.removeflag == s.removeflag
      && t.wire == s.wire + buf.data[..if s.queue != [] then 0 else Taken(|buf.data|, r)]
      && t.acceptedBy == s.acceptedBy
           + (if s.queue == [] && Complete(|buf.data|, r) then [|s.accepted| + 1] else [])
      && t.idle == s.idle + if s.hasSendCb && s.queue == [] && Complete(|buf.data|, r)
                            then [Mine(Notification(buf, Sent, true))] else []
  {
    var taken := if s.queue != [] then 0 else Taken(|buf.data|, r);
    assert buf.data[0..taken] == buf.data[..taken];
    assert s.wire + buf.data[..0] == s.wire;
  }

  lemma {:induction false} AnswersAt(s: Spec, ops: seq<Op>, i: nat)
    requires AllFeasible(ops) && i < |ops|
    ensures AllFeasible(ops[..i]) && AllFeasible(ops[..i + 1])
    ensures Answers(s, ops)[i] == Answer(RunOps(s, ops[..i]), ops[i])
    ensures RunOps(s, ops[..i + 1]) == Next(RunOps(s, ops[..i]), ops[i])
    decreases |ops|
  {
    hide Answer, Next;
    var n := |ops| - 1;
    if i < n {
      AnswersAt(s, ops[..n], i);
      assert ops[..n][..i] == ops[..i] && ops[..n][..i + 1] == ops[..i + 1];
    } else {
      assert ops[..i + 1] == ops;
    }
  }

  // ----- Writability -----

  /** Bytes of the first incomplete buffer that are out. */
  function Out(s: Spec): int
    requires Waits(s)
  {
    |s.wire| - |Content(s.accepted[..|s.acceptedBy|])|
  }

  function Head(s: Spec): Buffer
    requires Waits(s)
  {
    s.accepted[|s.acceptedBy|]
  }

  lemma HeadOut(s: Spec)
    requires Inv(s) && s.isOpen && Waits(s)
    ensures s.queue != [] && s.queue[0].buf == Head(s) && s.queue[0].off == Out(s) <= |Head(s).data|
    ensures |s.acceptedBy| + |s.queue| == |s.accepted|
  {
    QueueIsWaiting(s);
    WireIs(s.accepted, |s.acceptedBy|, s.queue, s.wire, s.ancillary);
    hide Unwritten, Descriptors, Content;
  }

  /** What one system call does to a connection on which something waits: the next bytes of the first incomplete
      buffer go out; if they were the last, that send is complete and its notification waits behind the others. */
  predicate CallDoes(s: Spec, r: WriteResult, t: Spec)
    requires Waits(s) && 0 <= Out(s) <= |Head(s).data|
  {
    var buf, out := Head(s), Out(s);
    var left := |buf.data| - out;
    && t.wire == s.wire + buf.data[out..out + Taken(left, r)]
    && t.accepted == s.accepted && t.notified == s.notified
    && t.isOpen == s.isOpen && t.isShutdown == s.isShutdown && t.removeflag == s.removeflag
    && t.acceptedBy == s.acceptedBy + (if Complete(left, r) then [|s.accepted|] else [])
    && t.idle == s.idle
         + if Complete(left, r) && s.hasSendCb
           then [Mine(Notification(buf, Sent, |s.acceptedBy| + 1 == |s.accepted|))] else []
  }

  lemma TurnDoes(s: Spec, r: WriteResult)
    requires Waits(s) && s.queue != [] && r.Wrote? && r.n > 0 && |s.acceptedBy| + |s.queue| == |s.accepted|
    requires s.queue[0].buf == Head(s) && s.queue[0].off == Out(s) <= |Head(s).data|
    ensures Possible(s.queue[0], Clamp(s.queue[0], r)) && CallDoes(s, r, Turn(s, Clamp(s.queue[0], r)))
  {
    hide Out, Head, Attach;
    var n := Taken(|s.queue[0].buf.data| - s.queue[0].off, r);
    assert Clamp(s.queue[0], r) == Wrote(n);
    hide Clamp;
    assert |s.queue[1..]| == |s.queue| - 1;
  }

  /** The socket is writable, on a connection that can be written to. If nothing waits, or there is no answer, nothing
      happens. Otherwise the first system call does what it does, and the others follow it; one that would block, or
      that fails, is the last, and the latter marks the connection for removal. */
  lemma WritableDoes(s: Spec, results: seq<WriteResult>) returns (t: Spec)
    requires Inv(s) && s.isOpen && !s.isShutdown && Feasible(WritableOp(results))
    ensures !Waits(s) || results == [] || results[0].WouldBlock? ==> Next(s, WritableOp(results)) == s
    ensures Waits(s) && results != [] && results[0].Failed? ==>
      Next(s, WritableOp(results)) == s.(removeflag := true)
    ensures Waits(s) && results != [] && results[0].Wrote? ==>
      && 0 <= Out(s) <= |Head(s).data| && CallDoes(s, results[0], t) && Inv(t)
      && Feasible(WritableOp(results[1..]))
      && Next(s, WritableOp(results)) == Next(t, WritableOp(results[1..]))
  {
    t := s;
    QueueIsWaiting(s);
    if Waits(s) && results != [] {
      HeadOut(s);
      if results[0].Wrote? {
        TurnDoes(s, results[0]);
        var r := Clamp(s.queue[0], results[0]);
        t := Turn(s, r);
        TurnOk(s, r);
        TurnsAfter(s, results, r);
      }
    }
    hide CallDoes, Out, Inv;
  }

  lemma TurnsAfter(s: Spec, results: seq<WriteResult>, r: WriteResult)
    requires s.isOpen && !s.isShutdown && s.queue != [] && results != [] && Feasible(WritableOp(results))
    requires s.queue[0].off <= |s.queue[0].buf.data| && r == Clamp(s.queue[0], results[0]) && r.Wrote?
    requires Possible(s.queue[0], r)
    ensures Feasible(WritableOp(results[1..]))
    ensures Next(s, WritableOp(results)) == Next(Turn(s, r), WritableOp(results[1..]))
  {
    var t := Turn(s, r);
    assert t.isOpen && !t.isShutdown;
    hide Turn;
    assert Turns(s, results) == Turns(t, results[1..]);
  }

  /** Once disconnected, what waits is never written: the connection is only marked for removal. */
  lemma WritableWhenShut(s: Spec, results: seq<WriteResult>)
    requires Inv(s) && s.isOpen && s.isShutdown && Feasible(WritableOp(results))
    ensures Next(s, WritableOp(results)) == if Waits(s) then s.(removeflag := true) else s
  {
    QueueIsWaiting(s);
    hide Inv;
  }

  // ----- Notifications -----

  /** Completions that the user has not been told of. */
  function Untold(s: Spec): int {
    |s.acceptedBy| - |s.notified|
  }

  /** A turn of the loop runs exactly the first entry of its idle queue; one of ours tells the user of the oldest
      completion not told. A disconnection tells all of them, and leaves the entries of others. */
  lemma IdleDoes(s: Spec)
    requires Inv(s) && s.hasSendCb && s.isOpen
    ensures s.idle != [] ==> Next(s, IdleOp).idle == s.idle[1..]
    ensures s.idle != [] ==> |Next(s, IdleOp).notified| == |s.notified| + if s.idle[0].Mine? then 1 else 0
    ensures Untold(s) == |Mines(s.idle)|
    ensures
      var t := Next(s, DisconnectOp);
      && Untold(t) == 0 && Mines(t.idle) == [] && t.idle == TheirsIn(s.idle) && t.isShutdown
      && t.accepted == s.accepted && t.acceptedBy == s.acceptedBy && t.wire == s.wire
  {
    ToldOk(s.(isShutdown := true));
    hide StreamOk;
  }

  lemma {:induction false} TheirsAre(idle: seq<Waiting>, w: Waiting)
    ensures w in TheirsIn(idle) <==> w in idle && w.Theirs?
  {
    if idle != [] {
      TheirsAre(idle[1..], w);
      assert idle == [idle[0]] + idle[1..];
    }
  }

  /** A disconnection succeeds exactly while the connection is open, and so does a close. */
  lemma EndsAreAnswered(isLocal: bool, hasSendCb: bool, ops: seq<Op>, i: nat)
    requires AllFeasible(ops) && i < |ops|
    ensures
      var a := Answers(Fresh(isLocal, hasSendCb), ops)[i];
      && (ops[i].DisconnectOp? ==> a == if IsClosed(ops[..i]) then ENOTCONN else Accepted)
      && (ops[i].CloseOp? ==> a == if IsClosed(ops[..i]) then EINVAL else Accepted)
  {
    RunFlags(isLocal, hasSendCb, ops[..i]);
    AnswersAt(Fresh(isLocal, hasSendCb), ops, i);
    hide RunOps, Answers, Inv;
  }
}
