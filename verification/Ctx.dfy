/** The operations of src/pomp_ctx.c on a server or client context, proved against CtxSpec. */
module Ctx {
  import opened Wrappers
  import opened EventLog
  import opened CtxSpec

  class Context {
    var role: Role
    var started: bool     // an address is set
    var stopping: bool
    var stopQueued: bool  // the stop waits in the idle queue of the loop
    var notifying: nat
    var maxConn: nat
    var r: Resources
    var conns: seq<nat>   // of a server
    var conncount: nat
    var conn: Option<nat> // of a client

    var nextId: nat       // identities of connections, never used twice

    ghost var log: seq<Event>

    ghost function Abs(): State
      reads this
    {
      State(role, started, stopping, stopQueued, maxConn, r, conns, conn, nextId, log)
    }

    /** Holds between events of the loop. */
    ghost predicate Valid()
      reads this
    {
      Inv(Abs()) && notifying == 0 && conncount == |conns|
    }

    constructor (maxConn: nat)
      ensures Valid() && Abs() == CtxSpec.Start(maxConn)
    {
      role, started, stopping, stopQueued, notifying := Server, false, false, false, 0;
      this.maxConn, r, conns, conncount, conn := maxConn, NONE, [], 0, None;
      log, nextId := [], 0;
    }

    // ----- Notifications and stop -----

    /** The beginning of a stop: from inside a notification it is left to the idle queue. */
    method RequestStop() returns (now: bool)
      modifies this`stopping, this`stopQueued
      ensures now <==> started && !old(stopping) && notifying == 0
      ensures Abs() ==
        if !started || old(stopping) then old(Abs())
        else old(Abs()).(stopping := true, stopQueued := old(stopQueued) || notifying > 0)
    {
      if !started || stopping {
        return false;
      }
      stopping := true;
      now := notifying == 0;
      if !now {
        stopQueued := true;
      }
    }

    /** Tell the user, who may ask for a stop. */
    method Notify(ghost e: Event, stops: bool)
      modifies this`notifying, this`log, this`stopping, this`stopQueued
      ensures notifying == old(notifying) && Abs() == Told(old(Abs()), e, stops)
    {
      notifying := notifying + 1;
      log := log + [e];
      if stops {
        var now := RequestStop();
        assert !now;
      }
      notifying := notifying - 1;
    }

    method Stop(stops: bool)
      requires Valid()
      modifies this
      ensures Valid() && Abs() == Next(old(Abs()), StopOp, stops)
    {
      NextOk(Abs(), StopOp, stops);
      hide LogOk;
      var now := RequestStop();
      if now {
        StopNow(stops);
      }
    }

    /** Remove every connection, with notification, then everything else. */
    method StopNow(stops: bool)
      requires started && stopping && notifying == 0 && conncount == |conns|
      requires if role.Server? then conn.None? else conns == []
      modifies this
      ensures notifying == 0 && conncount == |conns| && Abs() == Stopped(old(Abs()))
    {
      while conns != [] || conn.Some?
        invariant stopping && notifying == 0 && conncount == |conns|
        invariant if role.Server? then conn.None? else conns == []
        invariant Stopped(Abs()) == Stopped(old(Abs()))
        decreases |Connections(Abs())|
      {
        StopFirst(Abs(), stops);
        hide Stopped, Removed;
        RemoveConn(if conns != [] then conns[0] else conn.value, stops);
      }
      assert log + [] == log;
      r := NONE;
      started, stopping, stopQueued := false, false, false;
    }

    // ----- Connections -----

    /** Unlink a connection of a server. */
    method Unlink(c: nat)
      requires c in conns && conncount == |conns|
      modifies this`conns, this`conncount
      ensures conncount == |conns| && conns == Without(old(conns), c)
    {
      var k := 0;
      while conns[k] != c
        invariant k < |conns| && c in conns[k..] && c !in conns[..k]
        decreases |conns| - k
      {
        k := k + 1;
      }
      WithoutAt(conns, k);
      conns := conns[..k] + conns[k + 1..];
      conncount := conncount - 1;
    }

    /** A connection is over: it leaves the context, the user is told, and a client will try again. */
    method RemoveConn(c: nat, stops: bool)
      requires Has(Abs(), c) && conncount == |conns|
      modifies this
      ensures notifying == old(notifying) && conncount == |conns| && Abs() == Removed(old(Abs()), c, stops)
      ensures if old(role).Server? then conn == old(conn) else conns == old(conns)
    {
      hide Without;
      if role.Server? {
        Unlink(c);
      } else {
        conn := None;
      }
      Notify(Event(Disconnected, c), stops);
      if role.Client? && !stopping {
        r := r.(timer := true);
      }
    }

    // ----- Events -----

    /** One attempt to have a socket. */
    method StartSocket(attempt: Attempt)
      requires r == NONE
      modifies this`r
      ensures r == Attempted(role, attempt)
    {
      match attempt {
        case Up => r := if role.Server? then r.(listening := true) else r.(pending := true);
        case Later => r := r.(timer := true);
        case Failed =>
      }
    }

    /** Listen or connect. */
    method Start(role: Role, attempt: Attempt) returns (res: Status)
      requires Valid()
      modifies this
      ensures Valid() && Abs() == Next(old(Abs()), StartOp(role, attempt), false)
      ensures res == if old(started) then EBUSY else if attempt.Failed? then EINVAL else Ok
    {
      NextOk(Abs(), StartOp(role, attempt), false);
      hide LogOk;
      if started {
        return EBUSY;
      }
      this.role, started := role, true;
      StartSocket(attempt);
      res := Ok;
      if attempt.Failed? {
        started := false;
        res := EINVAL;
      }
    }

    /** The timer set after a failed attempt. */
    method TimerFires(attempt: Attempt)
      requires Valid() && r.timer
      modifies this`r
      ensures Valid() && Abs() == Next(old(Abs()), TimerOp(attempt), false)
    {
      NextOk(Abs(), TimerOp(attempt), false);
      hide LogOk;
      r := r.(timer := false);
      StartSocket(attempt);
    }

    /** A peer connects to a server. Beyond the maximum it is turned away at once, without notice. */
    method AcceptConn(accepted: bool, stops: bool)
      requires Valid() && r.listening
      modifies this
      ensures Valid() && Abs() == Next(old(Abs()), AcceptOp(accepted), stops)
    {
      NextOk(Abs(), AcceptOp(accepted), stops);
      hide LogOk;
      if !accepted || conncount >= maxConn {
        return;
      }
      var c := NewConn();
      conns := [c] + conns;
      conncount := conncount + 1;
      Notify(Event(Connected, c), stops);
    }

    /** A new connection object. */
    method NewConn() returns (c: nat)
      modifies this`nextId
      ensures c == old(nextId) && nextId == c + 1
    {
      c := nextId;
      nextId := nextId + 1;
    }

    /** The pending socket of a client is ready: connected, or to be tried again later. */
    method CompleteConn(connected: bool, stops: bool)
      requires Valid() && r.pending
      modifies this
      ensures Valid() && Abs() == Next(old(Abs()), CompleteOp(connected), stops)
    {
      NextOk(Abs(), CompleteOp(connected), stops);
      hide LogOk;
      if connected {
        var c := NewConn();
        conn := Some(c);
        r := r.(pending := false);
        Notify(Event(Connected, c), stops);
      } else {
        r := r.(pending := false, timer := true);
      }
    }

    method MessageArrives(c: nat, stops: bool)
      requires Valid() && Has(Abs(), c)
      modifies this`notifying, this`log, this`stopping, this`stopQueued
      ensures Valid() && Abs() == Next(old(Abs()), MessageOp(c), stops)
    {
      NextOk(Abs(), MessageOp(c), stops);
      hide LogOk;
      Notify(Event(Message, c), stops);
    }

    method EndConn(c: nat, stops: bool)
      requires Valid() && Has(Abs(), c)
      modifies this
      ensures Valid() && Abs() == Next(old(Abs()), EndOp(c), stops)
    {
      NextOk(Abs(), EndOp(c), stops);
      hide LogOk, Removed;
      RemoveConn(c, stops);
    }

    /** The loop reaches the deferred stop. */
    method RunIdleStop(stops: bool)
      requires Valid() && stopQueued
      modifies this
      ensures Valid() && Abs() == Next(old(Abs()), IdleOp, stops)
    {
      NextOk(Abs(), IdleOp, stops);
      hide LogOk;
      StopNow(stops);
    }

    method SetMaxConn(n: nat) returns (res: Status)
      requires Valid()
      modifies this`maxConn
      ensures Valid() && Abs() == Next(old(Abs()), MaxConnOp(n), false) && res == if n == 0 then EINVAL else Ok
    {
      NextOk(Abs(), MaxConnOp(n), false);
      hide LogOk;
      res := EINVAL;
      if n > 0 {
        maxConn := n;
        res := Ok;
      }
    }

    /** Refused while started. When it is not, there is no connection, no socket, no timer, no pending stop, and
        the user has been told of the end of every connection. */
    method Destroy() returns (res: Status)
      requires Valid()
      ensures res == if started then EBUSY else Ok
      ensures res == Ok ==> CtxSpec.Live(Abs()) == {} && r == NONE && !stopping && !stopQueued
      ensures res == Ok ==> forall c: nat :: PhaseOf(log, c) == if c < nextId then Gone else Fresh
    {
      res := if started then EBUSY else Ok;
    }
  }

  method Perform(ctx: Context, op: Op, stops: bool)
    requires ctx.Valid()
    modifies ctx
    ensures ctx.Valid() && ctx.Abs() == Next(old(ctx.Abs()), op, stops)
  {
    hide LogOk, Shape, Told, Removed, Stopped, Accepted, Completed;
    match op {
      case StartOp(role, attempt) => var _ := ctx.Start(role, attempt);
      case StopOp => ctx.Stop(stops);
      case IdleOp => if ctx.stopQueued { ctx.RunIdleStop(stops); }
      case TimerOp(attempt) => if ctx.r.timer { ctx.TimerFires(attempt); }
      case AcceptOp(accepted) => if ctx.r.listening { ctx.AcceptConn(accepted, stops); }
      case CompleteOp(connected) => if ctx.r.pending { ctx.CompleteConn(connected, stops); }
      case MessageOp(c) =>
        if (ctx.role.Server? && c in ctx.conns) || (ctx.role.Client? && ctx.conn == Some(c)) {
          ctx.MessageArrives(c, stops);
        }
      case EndOp(c) =>
        if (ctx.role.Server? && c in ctx.conns) || (ctx.role.Client? && ctx.conn == Some(c)) {
          ctx.EndConn(c, stops);
        }
      case MaxConnOp(n) => var _ := ctx.SetMaxConn(n);
    }
  }

  /** A whole life of a context ends where CtxSpec says, whatever happened. */
  method Life(maxConn: nat, ops: seq<(Op, bool)>) returns (ctx: Context)
    ensures ctx.Valid() && ctx.Abs() == Run(maxConn, ops)
    ensures ctx.role.Client? ==> AtMostOne(ctx.r.pending, ctx.conn.Some?, ctx.r.timer)
    ensures ctx.conncount == |ctx.conns|
  {
    ctx := new Context(maxConn);
    for i := 0 to |ops|
      invariant fresh(ctx) && ctx.Valid() && ctx.Abs() == Run(maxConn, ops[..i])
    {
      hide Inv, Next;
      assert ops[..i + 1][..i] == ops[..i];
      Perform(ctx, ops[i].0, ops[i].1);
    }
    assert ops[..|ops|] == ops;
  }
}
