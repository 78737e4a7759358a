/** What the life of a context amounts to for its user, src/pomp_ctx.c: it goes on trying as long as it is up, and
    each thing that happens to it makes, reports or ends exactly the connection it concerns. */
module CtxMeaning {
  import opened Collections
  import opened Wrappers
  import opened EventLog
  import opened CtxSpec

  // ----- It goes on trying -----

  /** A server that is up listens or waits to listen; a client that is up and not stopping is connected, or is
      connecting, or waits to connect. */
  predicate Pursues(s: State) {
    s.started ==>
      if s.role.Server? then s.r.listening || s.r.timer
      else s.stopping || s.r.pending || s.conn.Some? || s.r.timer
  }

  /** Only an attempt that fails outright when the timer expires ends that. */
  lemma StepPursues(s: State, op: Op, stops: bool)
    requires Inv(s) && Pursues(s)
    ensures Pursues(Next(s, op, stops)) <==>
      !(op == TimerOp(Failed) && s.r.timer && (s.role.Server? || !s.stopping))
  {
    hide LogOk, Without, Distinct;
  }

  /** In every run where no such attempt fails, the context goes on trying, in one way at a time. */
  lemma {:induction false} RunPursues(maxConn: nat, ops: seq<(Op, bool)>)
    requires forall i | 0 <= i < |ops| :: ops[i].0 != TimerOp(Failed)
    ensures Pursues(Run(maxConn, ops)) && Sound(Run(maxConn, ops))
  {
    hide Next, Pursues, Inv;
    if ops == [] {
      NotUp(Start(maxConn));
    } else {
      var before, last := ops[..|ops| - 1], ops[|ops| - 1];
      RunPursues(maxConn, before);
      RunOk(maxConn, before);
      StepPursues(Run(maxConn, before), last.0, last.1);
    }
    RunOk(maxConn, ops);
    InvSound(Run(maxConn, ops));
  }

  lemma NotUp(s: State)
    requires !s.started
    ensures Pursues(s)
  {
  }

  lemma InvSound(s: State)
    requires Inv(s)
    ensures Sound(s)
  {
  }

  /** Up, with nothing to wait for. */
  predicate Stranded(s: State) {
    s.started && s.r == NONE && s.conn.None?
  }

  lemma StrandedStep(s: State, op: Op, stops: bool)
    requires Inv(s) && Stranded(s)
    ensures Next(s, op, stops).nextId == s.nextId && CtxSpec.Live(Next(s, op, stops)) <= CtxSpec.Live(s)
    ensures Next(s, op, stops).started ==> Stranded(Next(s, op, stops))
    ensures !Next(s, op, stops).started <==> (op.StopOp? && !s.stopping) || (op.IdleOp? && s.stopping)
  {
    NextOk(s, op, stops);
    if op.EndOp? && Has(s, op.c) {
      RemovedOk(s, op.c, stops);
    }
    hide LogOk, Without, Distinct;
  }

  /** After an attempt that fails outright, no connection is made again until a stop is carried out. */
  lemma {:induction false} NeverAgain(maxConn: nat, ops: seq<(Op, bool)>, i: nat, j: nat)
    requires i <= j <= |ops| && Stranded(Run(maxConn, ops[..i]))
    requires forall k | i < k <= j :: Run(maxConn, ops[..k]).started
    ensures var s, t := Run(maxConn, ops[..i]), Run(maxConn, ops[..j]);
      Stranded(t) && t.nextId == s.nextId && CtxSpec.Live(t) <= CtxSpec.Live(s)
    decreases j
  {
    hide Next, Inv, CtxSpec.Live, Stranded;
    if i < j {
      NeverAgain(maxConn, ops, i, j - 1);
      RunOk(maxConn, ops[..j - 1]);
      StepOf(maxConn, ops, j - 1);
      StrandedStep(Run(maxConn, ops[..j - 1]), ops[j - 1].0, ops[j - 1].1);
    }
  }

  lemma StepOf(maxConn: nat, ops: seq<(Op, bool)>, i: nat)
    requires i < |ops|
    ensures Run(maxConn, ops[..i + 1]) == Next(Run(maxConn, ops[..i]), ops[i].0, ops[i].1)
  {
    hide Next;
    assert ops[..i + 1][..i] == ops[..i];
  }

  // ----- Each thing that happens -----

  /** What no event but a start, a stop or a change of the limit changes; a stop asked for by the callback of an event
      is noted, once. */
  predicate Goes(s: State, t: State, stops: bool) {
    && t.role == s.role && t.started == s.started && t.maxConn == s.maxConn && t.stopQueued == t.stopping
    && (t.stopping <==> s.stopping || (stops && s.started && t.log != s.log))
  }

  /** A server takes a peer if and only if it listens, the system hands one over and the limit is not reached: the peer
      is new, comes first in the list and is announced. */
  lemma PeerTaken(maxConn: nat, ops: seq<(Op, bool)>, i: nat)
    requires i < |ops| && ops[i].0.AcceptOp?
    ensures
      var s, t := Run(maxConn, ops[..i]), Run(maxConn, ops[..i + 1]);
      if s.started && s.role.Server? && s.r.listening && ops[i].0.accepted && |s.conns| < s.maxConn then
        && t.nextId == s.nextId + 1 && t.conns == [s.nextId] + s.conns && t.conn == s.conn && t.r == s.r
        && s.nextId !in CtxSpec.Live(s) && About(s.log, s.nextId) == []
        && t.log == s.log + [Event(Connected, s.nextId)] && Goes(s, t, ops[i].1)
      else t == s
  {
    var s := Run(maxConn, ops[..i]);
    RunOk(maxConn, ops[..i]);
    StepOf(maxConn, ops, i);
    RunStory(maxConn, ops[..i], s.nextId);
    LogConnect(s.log, CtxSpec.Live(s), s.nextId);
    hide LogOk, Run, About, Distinct;
  }

  /** A client's attempt that completes becomes its connection, new and announced; one that does not sets the timer, and
      nothing is told. */
  lemma AttemptEnds(maxConn: nat, ops: seq<(Op, bool)>, i: nat)
    requires i < |ops| && ops[i].0.CompleteOp?
    ensures
      var s, t := Run(maxConn, ops[..i]), Run(maxConn, ops[..i + 1]);
      if !s.r.pending then t == s
      else
        && s.started && s.role.Client? && s.conn.None? && t.conns == s.conns && Goes(s, t, ops[i].1)
        && if ops[i].0.connected then
             && t.conn == Some(s.nextId) && t.nextId == s.nextId + 1 && t.r == NONE
             && About(s.log, s.nextId) == [] && t.log == s.log + [Event(Connected, s.nextId)]
           else
             t.conn.None? && t.nextId == s.nextId && t.r == NONE.(timer := true) && t.log == s.log
  {
    var s := Run(maxConn, ops[..i]);
    RunOk(maxConn, ops[..i]);
    StepOf(maxConn, ops, i);
    RunStory(maxConn, ops[..i], s.nextId);
    LogConnect(s.log, CtxSpec.Live(s), s.nextId);
    hide LogOk, Run, About, Distinct;
  }

  /** The end of a live connection is told and leaves the others, in their order; a client that is up and that nobody
      asked to stop sets its timer. The end of any other changes nothing. */
  lemma ConnectionEnds(maxConn: nat, ops: seq<(Op, bool)>, i: nat, k: nat)
    requires i < |ops| && ops[i].0.EndOp?
    requires
      var s := Run(maxConn, ops[..i]);
      ops[i].0.c in s.conns ==> k < |s.conns| && s.conns[k] == ops[i].0.c
    ensures
      var s, t, c := Run(maxConn, ops[..i]), Run(maxConn, ops[..i + 1]), ops[i].0.c;
      if c !in CtxSpec.Live(s) then t == s
      else
        && s.started && t.log == s.log + [Event(Disconnected, c)] && t.nextId == s.nextId && Goes(s, t, ops[i].1)
        && if s.role.Server? then
             k < |s.conns| && t.conns == s.conns[..k] + s.conns[k + 1..] && t.conn.None? && t.r == s.r
           else t.conns == [] && t.conn.None? && t.r == NONE.(timer := !t.stopping)
  {
    var s, c := Run(maxConn, ops[..i]), ops[i].0.c;
    RunOk(maxConn, ops[..i]);
    StepOf(maxConn, ops, i);
    HasIsLive(s, c);
    if c in s.conns {
      assert s.conns[k] !in s.conns[..k];
      WithoutAt(s.conns, k);
    }
    hide LogOk, Run, Without, Distinct;
  }

  /** A message of a live connection is told, and of no other. */
  lemma MessageTold(maxConn: nat, ops: seq<(Op, bool)>, i: nat)
    requires i < |ops| && ops[i].0.MessageOp?
    ensures
      var s, t, c := Run(maxConn, ops[..i]), Run(maxConn, ops[..i + 1]), ops[i].0.c;
      if c !in CtxSpec.Live(s) then t == s
      else
        && t.log == s.log + [Event(Message, c)] && Goes(s, t, ops[i].1)
        && t.conns == s.conns && t.conn == s.conn && t.r == s.r && t.nextId == s.nextId
  {
    var s, c := Run(maxConn, ops[..i]), ops[i].0.c;
    RunOk(maxConn, ops[..i]);
    StepOf(maxConn, ops, i);
    HasIsLive(s, c);
    hide LogOk, Run, Distinct;
  }

  /** A stop takes effect if and only if the context is up and, when a callback asked for one before, at the idle turn:
      every connection is then told ended, in order, and nothing is left. */
  lemma StopEndsAll(maxConn: nat, ops: seq<(Op, bool)>, i: nat)
    requires i < |ops| && (ops[i].0.StopOp? || ops[i].0.IdleOp?)
    ensures
      var s, t := Run(maxConn, ops[..i]), Run(maxConn, ops[..i + 1]);
      if !s.started || (ops[i].0.StopOp? <==> s.stopping) then t == s
      else
        && !t.started && !t.stopping && !t.stopQueued && t.r == NONE && CtxSpec.Live(t) == {}
        && t.nextId == s.nextId && t.maxConn == s.maxConn && |t.log| == |s.log| + |Connections(s)|
        && s.log <= t.log
        && (forall k | 0 <= k < |Connections(s)| :: t.log[|s.log| + k] == Event(Disconnected, Connections(s)[k]))
  {
    var s := Run(maxConn, ops[..i]);
    RunOk(maxConn, ops[..i]);
    StepOf(maxConn, ops, i);
    hide LogOk, Run, Distinct;
  }

  /** A start takes effect if and only if the context is down, and an attempt leaves the one thing to wait for that the
      system granted: a socket, or the timer. When the timer expires the attempt is made again. */
  lemma AttemptMade(maxConn: nat, ops: seq<(Op, bool)>, i: nat)
    requires i < |ops| && (ops[i].0.StartOp? || ops[i].0.TimerOp?)
    ensures
      var s, t, op := Run(maxConn, ops[..i]), Run(maxConn, ops[..i + 1]), ops[i].0;
      if (if op.StartOp? then s.started else !s.r.timer) then t == s
      else
        && (op.StartOp? ==> t.role == op.role && (t.started <==> op.attempt != Failed))
        && (op.TimerOp? ==> t.role == s.role && t.started && s.started)
        && (t.r.listening <==> op.attempt.Up? && t.role.Server?) && (t.r.pending <==> op.attempt.Up? && t.role.Client?)
        && (t.r.timer <==> op.attempt.Later?)
        && t.conns == s.conns && t.conn == s.conn && t.nextId == s.nextId && t.log == s.log && t.maxConn == s.maxConn
        && t.stopping == s.stopping && t.stopQueued == s.stopQueued
  {
    RunOk(maxConn, ops[..i]);
    StepOf(maxConn, ops, i);
    hide LogOk, Run, Distinct;
  }

  /** The limit in force is the last one given that is not zero. */
  lemma {:induction false} LimitIs(maxConn: nat, ops: seq<(Op, bool)>, i: nat)
    requires i < |ops| && ops[i].0.MaxConnOp? && ops[i].0.n > 0
    requires forall j | i < j < |ops| && ops[j].0.MaxConnOp? :: ops[j].0.n == 0
    ensures Run(maxConn, ops).maxConn == ops[i].0.n
    decreases |ops|
  {
    var n := |ops| - 1;
    KeepsLimit(Run(maxConn, ops[..n]), ops[n].0, ops[n].1);
    if i < n {
      LimitIs(maxConn, ops[..n], i);
    }
  }

  lemma KeepsLimit(s: State, op: Op, stops: bool)
    ensures Next(s, op, stops).maxConn == if op.MaxConnOp? && op.n > 0 then op.n else s.maxConn
  {
    hide Without;
  }
}
