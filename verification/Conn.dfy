/** The sending operations of src/pomp_conn.c as they change a connection, proved against SendSpec. Results of
    system calls are parameters; what reached the socket and the user is recorded in ghost fields. */
module Conn {
  import opened Bytes
  import opened WriteQueue
  import opened SendSpec

  // ----- The idle queue of the loop and our own list of callbacks -----

  /** The idle queue with our entries replaced by their notifications, in the order of our list. */
  function Labelled(idle: seq<IdleItem>, cbs: seq<IdleCb>): seq<Waiting>
    requires |OurIds(idle)| == |cbs|
  {
    if idle == [] then []
    else if idle[0].Ours? then [Mine(cbs[0].note)] + Labelled(idle[1..], cbs[1..])
    else [Theirs(idle[0].key)] + Labelled(idle[1..], cbs)
  }

  function Tagged(keys: seq<nat>): (r: seq<Waiting>)
    ensures |r| == |keys|
  {
    seq(|keys|, i requires 0 <= i < |keys| => Theirs(keys[i]))
  }

  lemma {:induction false} LabelledParts(idle: seq<IdleItem>, cbs: seq<IdleCb>)
    requires |OurIds(idle)| == |cbs|
    ensures Mines(Labelled(idle, cbs)) == Notes(cbs) && TheirsIn(Labelled(idle, cbs)) == Tagged(Others(idle))
  {
    if idle != [] {
      var all := Labelled(idle, cbs);
      if idle[0].Ours? {
        LabelledParts(idle[1..], cbs[1..]);
        assert all[1..] == Labelled(idle[1..], cbs[1..]);
        assert Notes(cbs) == [cbs[0].note] + Notes(cbs[1..]);
      } else {
        LabelledParts(idle[1..], cbs);
        assert all[1..] == Labelled(idle[1..], cbs);
        assert Tagged(Others(idle)) == [Theirs(idle[0].key)] + Tagged(Others(idle[1..]));
      }
    }
  }

  lemma {:induction false} LabelledOther(idle: seq<IdleItem>, cbs: seq<IdleCb>, key: nat)
    requires |OurIds(idle)| == |cbs|
    ensures |OurIds(idle + [Other(key)])| == |cbs|
    ensures Labelled(idle + [Other(key)], cbs) == Labelled(idle, cbs) + [Theirs(key)]
  {
    OurIdsAppend(idle, Other(key));
    if idle == [] {
      assert idle + [Other(key)] == [Other(key)];
    } else {
      assert (idle + [Other(key)])[1..] == idle[1..] + [Other(key)];
      LabelledOther(idle[1..], if idle[0].Ours? then cbs[1..] else cbs, key);
    }
  }

  lemma {:induction false} LabelledOurs(idle: seq<IdleItem>, cbs: seq<IdleCb>, cb: IdleCb)
    requires |OurIds(idle)| == |cbs|
    ensures |OurIds(idle + [Ours(cb.id)])| == |cbs| + 1
    ensures Labelled(idle + [Ours(cb.id)], cbs + [cb]) == Labelled(idle, cbs) + [Mine(cb.note)]
  {
    OurIdsAppend(idle, Ours(cb.id));
    if idle == [] {
      assert idle + [Ours(cb.id)] == [Ours(cb.id)] && cbs + [cb] == [cb];
    } else {
      assert (idle + [Ours(cb.id)])[1..] == idle[1..] + [Ours(cb.id)];
      if idle[0].Ours? {
        LabelledOurs(idle[1..], cbs[1..], cb);
        assert (cbs + [cb])[1..] == cbs[1..] + [cb];
      } else {
        LabelledOurs(idle[1..], cbs, cb);
      }
    }
  }

  lemma LabelledHead(idle: seq<IdleItem>, cbs: seq<IdleCb>)
    requires |OurIds(idle)| == |cbs| && idle != []
    ensures Labelled(idle, cbs) != [] && (Labelled(idle, cbs)[0].Mine? <==> idle[0].Ours?)
    ensures idle[0].Ours? ==>
      && cbs != [] && |OurIds(idle[1..])| == |cbs[1..]|
      && Labelled(idle, cbs)[0].note == cbs[0].note && Labelled(idle, cbs)[1..] == Labelled(idle[1..], cbs[1..])
    ensures idle[0].Other? ==>
      |OurIds(idle[1..])| == |cbs| && Labelled(idle, cbs)[1..] == Labelled(idle[1..], cbs)
  {
  }

  function WithoutOther(idle: seq<IdleItem>, key: nat): seq<IdleItem> {
    if idle == [] then []
    else if idle[0] == Other(key) then WithoutOther(idle[1..], key)
    else [idle[0]] + WithoutOther(idle[1..], key)
  }

  lemma {:induction false} LabelledWithout(idle: seq<IdleItem>, cbs: seq<IdleCb>, key: nat)
    requires |OurIds(idle)| == |cbs|
    ensures OurIds(WithoutOther(idle, key)) == OurIds(idle)
    ensures Labelled(WithoutOther(idle, key), cbs) == WithoutKey(Labelled(idle, cbs), key)
  {
    if idle != [] {
      var rest := WithoutOther(idle[1..], key);
      LabelledHead(idle, cbs);
      LabelledWithout(idle[1..], if idle[0].Ours? then cbs[1..] else cbs, key);
      assert ([idle[0]] + rest)[1..] == rest;
    }
  }

  lemma IdleDropOther(idle: seq<IdleItem>, cbs: seq<IdleCb>, nextId: nat)
    requires IdleOk(idle, cbs, nextId) && idle != [] && idle[0].Other?
    ensures IdleOk(idle[1..], cbs, nextId)
  {
  }

  lemma NothingLabelled(idle: seq<IdleItem>, cbs: seq<IdleCb>, nextId: nat)
    requires IdleOk(idle, cbs, nextId) && cbs == []
    ensures Labelled(idle, cbs) == Tagged(Others(idle))
  {
    LabelledParts(idle, cbs);
    assert Notes(cbs) == [];
    NothingButTheirs(Labelled(idle, cbs));
  }

  lemma {:induction false} NothingButTheirs(idle: seq<Waiting>)
    requires Mines(idle) == []
    ensures TheirsIn(idle) == idle
  {
    if idle != [] {
      NothingButTheirs(idle[1..]);
    }
  }

  /** One of ours at the head of the idle queue is the oldest of our list. */
  lemma HeadIsOldest(idle: seq<IdleItem>, cbs: seq<IdleCb>, nextId: nat)
    requires IdleOk(idle, cbs, nextId) && idle != [] && idle[0].Ours?
    ensures cbs != [] && cbs[0].id == idle[0].id && WithoutId(idle, cbs[0].id) == idle[1..]
  {
    assert OurIds(idle)[0] == idle[0].id;
    assert OurIds(idle)[1..] == OurIds(idle[1..]);
    forall k | 0 <= k < |OurIds(idle[1..])|
      ensures OurIds(idle[1..])[k] != idle[0].id
    {
      assert OurIds(idle)[k + 1] == OurIds(idle[1..])[k];
    }
    WithoutAbsent(idle[1..], idle[0].id);
  }

  /** The head of the queue of an open connection is not overrun. */
  lemma FitsWhenOk(s: Spec)
    requires Inv(s) && s.isOpen && s.queue != []
    ensures s.queue[0].off <= |s.queue[0].buf.data|
  {
  }

  function Tail(results: seq<WriteResult>): (r: seq<WriteResult>)
    ensures Feasible(WritableOp(results)) ==> Feasible(WritableOp(r))
    ensures results != [] ==> |r| < |results|
  {
    if results == [] then [] else results[1..]
  }

  lemma NothingToWrite(s: Spec, results: seq<WriteResult>)
    requires s.queue == [] && Feasible(WritableOp(results))
    ensures Next(s, WritableOp(results)) == s
  {
  }

  lemma TurnsOnce(s: Spec, results: seq<WriteResult>, r: WriteResult)
    requires s.queue != [] && s.queue[0].off <= |s.queue[0].buf.data| && Feasible(WritableOp(results))
    requires r == Clamp(s.queue[0], if results != [] then results[0] else WouldBlock) && Possible(s.queue[0], r)
    ensures Turns(s, results) ==
      if r.Wrote? then Turns(Turn(s, r), Tail(results)) else if r.Failed? then s.(removeflag := true) else s
  {
    hide Turn;
  }

  lemma TurnKeepsFlags(s: Spec, r: WriteResult)
    requires s.queue != [] && Possible(s.queue[0], r)
    ensures Turn(s, r).isOpen == s.isOpen && Turn(s, r).isShutdown == s.isShutdown
  {
  }

  lemma NextIsTurns(s: Spec, results: seq<WriteResult>)
    requires s.isOpen && !s.isShutdown && Feasible(WritableOp(results))
    ensures Next(s, WritableOp(results)) == Turns(s, results)
  {
  }

  /** What one more system call leaves to do. */
  lemma TurnsStep(s: Spec, results: seq<WriteResult>, r: WriteResult)
    requires Inv(s) && s.isOpen && s.queue != [] && s.queue[0].off <= |s.queue[0].buf.data|
    requires Feasible(WritableOp(results))
    requires r == Clamp(s.queue[0], if results != [] then results[0] else WouldBlock)
    ensures Possible(s.queue[0], r)
    ensures Next(s, WritableOp(results)) ==
      if s.isShutdown || r.Failed? then s.(removeflag := true)
      else if r.WouldBlock? then s
      else Next(Turn(s, r), WritableOp(Tail(results)))
    ensures !s.isShutdown && r.Wrote? ==> results != [] && Inv(Turn(s, r))
  {
    assert Possible(s.queue[0], r) && (r.Wrote? ==> results != []);
    if !s.isShutdown {
      TurnKeepsFlags(s, r);
      NextIsTurns(s, results);
      TurnsOnce(s, results, r);
      if r.Wrote? {
        TurnOk(s, r);
        NextIsTurns(Turn(s, r), Tail(results));
      }
      hide OpenOk, Clamp, Turn, Turns, Possible, Next, Feasible;
    }
  }

  lemma SentLater(s: Spec, buf: Buffer, r: WriteResult)
    requires r != Wrote(0)
    ensures SendAnswer(s, buf, r) != Accepted ==> AfterSend(s, buf, r) == s
    ensures SendAnswer(s, buf, r) == Accepted && s.queue != [] ==> AfterSend(s, buf, r) == Queued(s, buf)
  {
  }

  /** What a send on an empty queue comes to. */
  lemma SentAtOnce(s: Spec, buf: Buffer, r: WriteResult)
    requires s.queue == [] && r != Wrote(0) && SendAnswer(s, buf, r) == Accepted
    ensures
      var io := IoBuffer(buf, 0);
      var c := Clamp(io, r);
      if c.Wrote? then
        c.n <= |buf.data| &&
        var t := s.(accepted := s.accepted + [buf], wire := s.wire + buf.data[0..c.n],
                    ancillary := Attach(s.ancillary, |s.wire|, io));
        AfterSend(s, buf, r) ==
          if c.n == |buf.data| then Completed(t, buf) else t.(queue := [IoBuffer(buf, c.n)])
      else AfterSend(s, buf, r) == s.(accepted := s.accepted + [buf], queue := [io])
  {
    assert [] + [IoBuffer(buf, 0)] == [IoBuffer(buf, 0)];
    assert [IoBuffer(buf, 0)][1..] == [];
  }

  lemma CloseKeeps(s: Spec)
    requires Inv(s)
    ensures Inv(ClosedSpec(s))
  {
    hide OpenOk, ClosedOk;
    if s.isOpen {
      CloseOk(s);
    }
  }

  lemma DisconnectKeeps(s: Spec)
    requires Inv(s)
    ensures Inv(Next(s, DisconnectOp))
    ensures Next(s, DisconnectOp) == if s.isOpen then Told(s.(isShutdown := true)) else s
  {
    hide Inv, Told;
    NextOk(s, DisconnectOp);
  }

  lemma AlreadyClosed(s: Spec)
    requires !s.isOpen
    ensures ClosedSpec(s) == s
  {
  }

  lemma NoneWaiting()
    ensures IdleOk([], [], 0) && Labelled([], []) == []
  {
  }

  // ----- The connection -----

  class Connection {
    const isLocal: bool
    const hasSendCb: bool
    var isOpen: bool       // the descriptor of the socket is valid
    var isShutdown: bool
    var removeflag: bool
    var outMonitored: bool // the loop watches for writability
    var queue: seq<IoBuffer>
    var idlecbs: seq<IdleCb>
    var loopIdle: seq<IdleItem>
    var nextId: nat

    ghost var accepted: seq<Buffer>
    ghost var acceptedBy: seq<nat>
    ghost var wire: seq<byte>
    ghost var ancillary: seq<Ancillary>
    ghost var notified: seq<Notification>

    ghost function Abs(): Spec
      requires IdleOk(loopIdle, idlecbs, nextId)
      reads this
    {
      Spec(isLocal, hasSendCb, isOpen, isShutdown, removeflag, queue, Labelled(loopIdle, idlecbs),
           accepted, acceptedBy, wire, ancillary, notified)
    }

    ghost predicate Valid()
      reads this
    {
      && IdleOk(loopIdle, idlecbs, nextId) && Inv(Abs())
      && (outMonitored <==> isOpen && queue != [])
    }

    constructor (isLocal: bool, hasSendCb: bool)
      ensures Valid() && Abs() == Fresh(isLocal, hasSendCb)
    {
      hide Inv, OurIds, Ids, IdleOk, Labelled;
      this.isLocal, this.hasSendCb := isLocal, hasSendCb;
      isOpen, isShutdown, removeflag, outMonitored := true, false, false, false;
      queue, idlecbs, loopIdle, nextId := [], [], [], 0;
      accepted, acceptedBy, wire, ancillary, notified := [], [], [], [], [];
      new;
      FreshOk(isLocal, hasSendCb);
      NoneWaiting();
    }

    /** One attempt to write the rest of a buffer. Descriptors travel with the first byte. */
    method IoWrite(io: IoBuffer, r: WriteResult) returns (res: WriteResult, io': IoBuffer)
      requires Possible(io, r)
      modifies this`wire, this`ancillary
      ensures res == if isShutdown then Failed else r
      ensures !res.Wrote? ==> io' == io && wire == old(wire) && ancillary == old(ancillary)
      ensures res.Wrote? ==> io' == io.(off := io.off + res.n)
      ensures res.Wrote? ==> wire == old(wire) + io.buf.data[io.off..io'.off]
      ensures res.Wrote? ==> ancillary == Attach(old(ancillary), |old(wire)|, io)
    {
      io' := io;
      if isShutdown {
        return Failed, io;
      }
      res := r;
      if res.Wrote? {
        if io.off == 0 && |io.buf.fds| > 0 {
          ancillary := ancillary + [Ancillary(|wire|, io.buf.fds)];
        }
        io' := io.(off := io.off + res.n);
        wire := wire + io.buf.data[io.off..io'.off];
      }
    }

    /** Defer a completion callback: at the tail of the loop's idle queue, and of our own list. */
    method AddIdleCb(note: Notification)
      requires IdleOk(loopIdle, idlecbs, nextId)
      modifies this`idlecbs, this`loopIdle, this`nextId
      ensures IdleOk(loopIdle, idlecbs, nextId)
      ensures Labelled(loopIdle, idlecbs) ==
        old(Labelled(loopIdle, idlecbs)) + if hasSendCb then [Mine(note)] else []
    {
      if hasSendCb {
        OurIdsAppend(loopIdle, Ours(nextId));
        LabelledOurs(loopIdle, idlecbs, IdleCb(nextId, note));
        loopIdle := loopIdle + [Ours(nextId)];
        idlecbs := idlecbs + [IdleCb(nextId, note)];
        nextId := nextId + 1;
        assert Ids(idlecbs) == Ids(old(idlecbs)) + [old(nextId)];
      }
    }

    /** A send is complete. */
    method CompleteSend(buf: Buffer)
      requires IdleOk(loopIdle, idlecbs, nextId)
      modifies this`idlecbs, this`loopIdle, this`nextId, this`acceptedBy
      ensures IdleOk(loopIdle, idlecbs, nextId) && Abs() == Completed(old(Abs()), buf)
    {
      hide IdleOk, Labelled;
      AddIdleCb(Notification(buf, Sent, queue == []));
      acceptedBy := acceptedBy + [|accepted|];
    }

    /** One turn of the loop over the pending buffers. */
    method WriteHead(r: WriteResult) returns (again: bool)
      requires IdleOk(loopIdle, idlecbs, nextId) && queue != [] && Possible(queue[0], r)
      modifies this`queue, this`removeflag, this`wire, this`ancillary,
               this`idlecbs, this`loopIdle, this`nextId, this`acceptedBy
      ensures IdleOk(loopIdle, idlecbs, nextId)
      ensures again <==> r.Wrote? && !isShutdown
      ensures Abs() ==
        if isShutdown || r.Failed? then old(Abs()).(removeflag := true)
        else if r.WouldBlock? then old(Abs())
        else Turn(old(Abs()), r)
    {
      hide IdleOk, Labelled, Completed, Attach;
      var res, io := IoWrite(queue[0], r);
      if res.WouldBlock? {
        return false;
      } else if res.Failed? {
        removeflag := true;
        return false;
      }
      if io.off == |io.buf.data| {
        queue := queue[1..];
        CompleteSend(io.buf);
      } else {
        queue := [io] + queue[1..];
      }
      again := true;
    }

    /** Write until the socket would block, fails, or nothing is left. `results` are the answers of the
        successive system calls; running out of them counts as would-block. */
    method WritePending(results: seq<WriteResult>)
      requires IdleOk(loopIdle, idlecbs, nextId) && isOpen && Inv(Abs()) && Feasible(WritableOp(results))
      modifies this`queue, this`removeflag, this`wire, this`ancillary,
               this`idlecbs, this`loopIdle, this`nextId, this`acceptedBy
      ensures IdleOk(loopIdle, idlecbs, nextId) && Abs() == Next(old(Abs()), WritableOp(results))
    {
      hide IdleOk, Labelled, Inv, Turn, Next, Feasible, Clamp, Possible, Tail;
      ghost var goal := Next(Abs(), WritableOp(results));
      var rest := results;
      var again := true;
      while again && queue != []
        invariant IdleOk(loopIdle, idlecbs, nextId) && Feasible(WritableOp(rest))
        invariant again ==> Inv(Abs()) && goal == Next(Abs(), WritableOp(rest))
        invariant !again ==> Abs() == goal
        decreases again, |rest|
      {
        FitsWhenOk(Abs());
        var r := Clamp(queue[0], if rest != [] then rest[0] else WouldBlock);
        TurnsStep(Abs(), rest, r);
        again := WriteHead(r);
        rest := Tail(rest);
      }
      if again {
        NothingToWrite(Abs(), rest);
      }
    }

    /** The socket is writable. */
    method ProcessWrite(results: seq<WriteResult>)
      requires Valid() && isOpen && Feasible(WritableOp(results))
      modifies this`queue, this`removeflag, this`wire, this`ancillary,
               this`idlecbs, this`loopIdle, this`nextId, this`acceptedBy, this`outMonitored
      ensures Valid() && Abs() == Next(old(Abs()), WritableOp(results))
    {
      NextOk(Abs(), WritableOp(results));
      if queue == [] {
        NothingToWrite(Abs(), results);
      }
      hide IdleOk, Labelled, Inv, Next, Feasible;
      WritePending(results);
      if queue == [] {
        outMonitored := false;
      }
    }

    /** Send a buffer: write what can be written at once if nothing is pending, queue the rest. */
    method Send(buf: Buffer, r: WriteResult) returns (res: SendStatus)
      requires Valid() && r != Wrote(0)
      modifies this`queue, this`wire, this`ancillary, this`accepted,
               this`idlecbs, this`loopIdle, this`nextId, this`acceptedBy, this`outMonitored
      ensures Valid() && res == SendAnswer(old(Abs()), buf, r) && Abs() == AfterSend(old(Abs()), buf, r)
    {
      NextOk(Abs(), SendOp(buf, r));
      hide IdleOk, Labelled, Inv, AfterSend, SendAnswer;
      res := SendInternal(buf, r);
    }

    method SendInternal(buf: Buffer, r: WriteResult) returns (res: SendStatus)
      requires IdleOk(loopIdle, idlecbs, nextId) && r != Wrote(0) && (outMonitored <==> isOpen && queue != [])
      modifies this`queue, this`wire, this`ancillary, this`accepted,
               this`idlecbs, this`loopIdle, this`nextId, this`acceptedBy, this`outMonitored
      ensures IdleOk(loopIdle, idlecbs, nextId) && (outMonitored <==> isOpen && queue != [])
      ensures res == SendAnswer(old(Abs()), buf, r) && Abs() == AfterSend(old(Abs()), buf, r)
    {
      SentLater(Abs(), buf, r);
      hide IdleOk, Labelled, AfterSend;
      if !isOpen || !buf.stored {
        return EINVAL;
      }
      if isShutdown {
        return ENOTCONN;
      }
      if |buf.fds| > 0 && !isLocal {
        return EPERM;
      }
      if queue == [] {
        res := SendNow(buf, r);
        return;
      }
      accepted := accepted + [buf];
      queue := queue + [IoBuffer(buf, 0)];
      res := Accepted;
    }

    /** Nothing is pending: try the system call first. */
    method SendNow(buf: Buffer, r: WriteResult) returns (res: SendStatus)
      requires IdleOk(loopIdle, idlecbs, nextId) && queue == [] && r != Wrote(0)
      requires isOpen && buf.stored && !isShutdown && (buf.fds == [] || isLocal) && !outMonitored
      modifies this`queue, this`wire, this`ancillary, this`accepted,
               this`idlecbs, this`loopIdle, this`nextId, this`acceptedBy, this`outMonitored
      ensures IdleOk(loopIdle, idlecbs, nextId) && (outMonitored <==> queue != [])
      ensures res == (if r.Failed? then EIO else Accepted) && Abs() == AfterSend(old(Abs()), buf, r)
    {
      hide IdleOk, Labelled, Attach, AfterSend, Completed, Queued;
      if r.Failed? {
        SentLater(Abs(), buf, r);
      } else {
        SentAtOnce(Abs(), buf, r);
      }
      var now := Clamp(IoBuffer(buf, 0), r);
      assert Possible(IoBuffer(buf, 0), now) && (now.Failed? <==> r.Failed?);
      hide SendAnswer, Clamp, Possible;
      var answer, io := IoWrite(IoBuffer(buf, 0), now);
      if answer.Failed? {
        return EIO;
      }
      accepted := accepted + [buf];
      Settle(io, answer.Wrote? && io.off == |buf.data|);
      res := Accepted;
    }

    /** A send on an empty queue is accepted: it is complete, or the rest of it is queued. */
    method Settle(io: IoBuffer, complete: bool)
      requires IdleOk(loopIdle, idlecbs, nextId) && queue == [] && !outMonitored
      modifies this`queue, this`idlecbs, this`loopIdle, this`nextId, this`acceptedBy, this`outMonitored
      ensures IdleOk(loopIdle, idlecbs, nextId) && (outMonitored <==> queue != [])
      ensures Abs() == if complete then Completed(old(Abs()), io.buf) else old(Abs()).(queue := [io])
    {
      hide IdleOk, Labelled;
      if complete {
        CompleteSend(io.buf);
      } else {
        queue := [io];
        outMonitored := true;
      }
    }

    /** Take our oldest callback off our list and tell the user. */
    method TellOldest()
      requires IdleOk(loopIdle, idlecbs, nextId) && idlecbs != []
      modifies this`idlecbs, this`loopIdle, this`notified
      ensures IdleOk(loopIdle, idlecbs, nextId)
      ensures idlecbs == old(idlecbs)[1..] && notified == old(notified) + [old(idlecbs)[0].note]
      ensures loopIdle == WithoutId(old(loopIdle), old(idlecbs)[0].id)
    {
      var cb := idlecbs[0];
      IdleRemoveOldest(loopIdle, idlecbs, nextId);
      idlecbs := idlecbs[1..];
      loopIdle := WithoutId(loopIdle, cb.id);
      notified := notified + [cb.note];
    }

    /** The loop runs the entry at the head of its idle queue. One of ours is always the one expected. */
    method RunIdle() returns (expected: bool)
      requires Valid() && loopIdle != []
      modifies this`idlecbs, this`loopIdle, this`notified
      ensures Valid() && expected && Abs() == Next(old(Abs()), IdleOp)
    {
      NextOk(Abs(), IdleOp);
      LabelledHead(loopIdle, idlecbs);
      expected := true;
      if loopIdle[0].Ours? {
        HeadIsOldest(loopIdle, idlecbs, nextId);
        hide IdleOk, Labelled, Inv;
        expected := idlecbs != [] && idlecbs[0].id == loopIdle[0].id;
        if expected {
          TellOldest();
        }
      } else {
        IdleDropOther(loopIdle, idlecbs, nextId);
        hide IdleOk, Labelled, Inv;
        loopIdle := loopIdle[1..];
      }
    }

    /** Somebody else adds an entry. */
    method OtherAdds(key: nat)
      requires Valid()
      modifies this`loopIdle
      ensures Valid() && Abs() == Next(old(Abs()), OtherAddOp(key))
    {
      NextOk(Abs(), OtherAddOp(key));
      LabelledOther(loopIdle, idlecbs, key);
      OurIdsAppend(loopIdle, Other(key));
      hide Inv, Labelled, OurIds;
      loopIdle := loopIdle + [Other(key)];
    }

    /** Somebody else removes an entry. */
    method OtherRemoves(key: nat)
      requires Valid()
      modifies this`loopIdle
      ensures Valid() && Abs() == Next(old(Abs()), OtherRemoveOp(key))
    {
      NextOk(Abs(), OtherRemoveOp(key));
      LabelledWithout(loopIdle, idlecbs, key);
      hide Inv, Labelled;
      loopIdle := WithoutOther(loopIdle, key);
    }

    /** Call every pending callback now, oldest first. */
    method ClearPendingCallbacks()
      requires IdleOk(loopIdle, idlecbs, nextId)
      modifies this`idlecbs, this`loopIdle, this`notified
      ensures IdleOk(loopIdle, idlecbs, nextId) && idlecbs == [] && Abs() == Told(old(Abs()))
    {
      LabelledParts(loopIdle, idlecbs);
      hide IdleOk, Labelled;
      while idlecbs != []
        invariant IdleOk(loopIdle, idlecbs, nextId) && Others(loopIdle) == Others(old(loopIdle))
        invariant notified + Notes(idlecbs) == old(notified) + Notes(old(idlecbs))
        decreases |idlecbs|
      {
        WithoutKeepsOthers(loopIdle, idlecbs[0].id);
        assert Notes(idlecbs) == [idlecbs[0].note] + Notes(idlecbs[1..]);
        TellOldest();
      }
      NothingLabelled(loopIdle, idlecbs, nextId);
      assert notified + [] == notified;
    }

    method Disconnect() returns (res: SendStatus)
      requires Valid()
      modifies this`isShutdown, this`idlecbs, this`loopIdle, this`notified
      ensures Valid() && res == Answer(old(Abs()), DisconnectOp) && Abs() == Next(old(Abs()), DisconnectOp)
    {
      DisconnectKeeps(Abs());
      hide IdleOk, Labelled, Inv, Told, Next;
      if isOpen {
        isShutdown := true;
        ClearPendingCallbacks();
        return Accepted;
      }
      res := ENOTCONN;
    }

    /** Tell the user that what is still queued will not be sent. */
    method AbortQueue()
      modifies this`queue, this`notified
      ensures queue == []
      ensures notified == old(notified) + if hasSendCb then Aborts(old(queue)) else []
    {
      ghost var all, k := Aborts(queue), 0;
      while queue != []
        invariant 0 <= k <= |old(queue)| && queue == old(queue)[k..]
        invariant notified == old(notified) + if hasSendCb then all[..k] else []
        decreases |queue|
      {
        var io := queue[0];
        queue := queue[1..];
        if hasSendCb {
          notified := notified + [Notification(io.buf, Aborted, queue == [])];
          assert all[..k + 1] == all[..k] + [all[k]];
        }
        k := k + 1;
      }
    }

    /** Everything pending is settled: deferred callbacks first, then the buffers never written. */
    method Close() returns (res: SendStatus)
      requires Valid()
      modifies this`isOpen, this`isShutdown, this`outMonitored, this`queue, this`idlecbs, this`loopIdle,
               this`notified
      ensures Valid() && res == Answer(old(Abs()), CloseOp) && Abs() == ClosedSpec(old(Abs()))
    {
      CloseKeeps(Abs());
      hide IdleOk, Labelled, Inv, ClosedSpec;
      if !isOpen {
        AlreadyClosed(Abs());
        return EINVAL;
      }
      SettleAll();
      res := Accepted;
    }

    method SettleAll()
      requires IdleOk(loopIdle, idlecbs, nextId) && isOpen
      modifies this`isOpen, this`isShutdown, this`outMonitored, this`queue, this`idlecbs, this`loopIdle,
               this`notified
      ensures IdleOk(loopIdle, idlecbs, nextId) && !isOpen && !outMonitored && Abs() == ClosedSpec(old(Abs()))
    {
      hide IdleOk, Labelled, Told, Aborts;
      isShutdown, outMonitored := true, false;
      ClearPendingCallbacks();
      ghost var told := Abs();
      AbortQueue();
      isOpen := false;
      assert told.notified + [] == told.notified;
    }
  }

  method Perform(c: Connection, op: Op) returns (answer: SendStatus)
    requires c.Valid() && Feasible(op)
    modifies c
    ensures c.Valid() && c.Abs() == Next(old(c.Abs()), op) && answer == Answer(old(c.Abs()), op)
  {
    hide IdleOk, Inv;
    answer := Accepted;
    match op {
      case SendOp(buf, r) => answer := c.Send(buf, r);
      case WritableOp(results) => if c.isOpen { c.ProcessWrite(results); }
      case IdleOp => if c.loopIdle != [] { var _ := c.RunIdle(); }
      case OtherAddOp(key) => c.OtherAdds(key);
      case OtherRemoveOp(key) => c.OtherRemoves(key);
      case DisconnectOp => answer := c.Disconnect();
      case CloseOp => answer := c.Close();
    }
  }

  lemma RunStart(s: Spec, ops: seq<Op>)
    ensures RunOps(s, ops[..0]) == s && Answers(s, ops[..0]) == []
  {
  }

  lemma RunStep(s: Spec, ops: seq<Op>, i: nat)
    requires AllFeasible(ops) && i < |ops|
    ensures Feasible(ops[i]) && AllFeasible(ops[..i]) && AllFeasible(ops[..i + 1])
    ensures RunOps(s, ops[..i + 1]) == Next(RunOps(s, ops[..i]), ops[i])
    ensures Answers(s, ops[..i + 1]) == Answers(s, ops[..i]) + [Answer(RunOps(s, ops[..i]), ops[i])]
  {
    hide Next, Answer;
    assert ops[..i + 1][..i] == ops[..i];
  }

  /** A whole life of a connection. */
  method Session(isLocal: bool, hasSendCb: bool, ops: seq<Op>) returns (c: Connection, answers: seq<SendStatus>)
    requires AllFeasible(ops)
    ensures c.Valid() && c.Abs() == ClosedSpec(RunOps(Fresh(isLocal, hasSendCb), ops))
    ensures answers == Answers(Fresh(isLocal, hasSendCb), ops)
    ensures !c.isOpen && c.accepted == AcceptedIn(ops, answers)
    ensures HistoryOk(hasSendCb, c.accepted, c.acceptedBy, c.wire, c.ancillary, c.notified)
  {
    SessionHistory(isLocal, hasSendCb, ops);
    hide IdleOk, Inv, Next, Answer, HistoryOk, AcceptedIn, Labelled, RunOps, Answers, AllFeasible, Feasible;
    c := new Connection(isLocal, hasSendCb);
    answers := [];
    ghost var new0 := Fresh(isLocal, hasSendCb);
    RunStart(new0, ops);
    for i := 0 to |ops|
      invariant fresh(c) && c.Valid() && AllFeasible(ops[..i])
      invariant c.Abs() == RunOps(new0, ops[..i]) && answers == Answers(new0, ops[..i])
    {
      RunStep(new0, ops, i);
      var answer := Perform(c, ops[i]);
      answers := answers + [answer];
    }
    assert ops[..|ops|] == ops;
    var _ := c.Close();
  }
}
