/** The life of a server or client context, src/pomp_ctx.c, as a function of what happens to it. What the system
    answers, and whether the user's callback asks for a stop, are part of what happens. Module Ctx refines it. */
module CtxSpec {
  import opened Collections
  import opened Wrappers
  import opened EventLog

  datatype Role = Server | Client

  /** How an attempt to start ends: a socket listens or connects, or a timer is set to try again, or not. */
  datatype Attempt = Up | Later | Failed

  datatype Status = Ok | EINVAL | EBUSY

  /** What a context owns besides its connections. */
  datatype Resources = Resources(listening: bool, pending: bool, timer: bool)

  const NONE := Resources(false, false, false)

  /** What an attempt leaves. */
  function Attempted(role: Role, attempt: Attempt): Resources {
    match attempt
    case Up => if role.Server? then NONE.(listening := true) else NONE.(pending := true)
    case Later => NONE.(timer := true)
    case Failed => NONE
  }

  predicate AtMostOne(a: bool, b: bool, c: bool) {
    !(a && b) && !(a && c) && !(b && c)
  }

  /** Which resources and connections may exist together. */
  predicate Shape(started: bool, role: Role, r: Resources, conns: seq<nat>, conn: Option<nat>) {
    if !started then r == NONE && conns == [] && conn.None?
    else if role.Server? then !r.pending && conn.None? && !(r.listening && r.timer)
    else !r.listening && conns == [] && AtMostOne(r.pending, conn.Some?, r.timer)
  }

  function LiveIn(conns: seq<nat>, conn: Option<nat>): set<nat> {
    (set c | c in conns) + match conn case Some(c) => {c} case None => {}
  }

  datatype State = State(
    role: Role, started: bool, stopping: bool,
    stopQueued: bool,  // the stop waits in the idle queue of the loop
    maxConn: nat, r: Resources,
    conns: seq<nat>,   // of a server
    conn: Option<nat>, // of a client
    nextId: nat,       // identities of connections, never used twice
    log: seq<Event>)

  function Start(maxConn: nat): State {
    State(Server, false, false, false, maxConn, NONE, [], None, 0, [])
  }

  // ----- Steps -----

  /** The user asks for a stop from inside a notification: it is left to the idle queue, once. */
  function Asked(s: State, stops: bool): State {
    if stops && s.started && !s.stopping then s.(stopping := true, stopQueued := true) else s
  }

  function Told(s: State, e: Event, stops: bool): State {
    Asked(s.(log := s.log + [e]), stops)
  }

  /** The list after a connection is unlinked. */
  function Without(conns: seq<nat>, c: nat): seq<nat> {
    if conns == [] then [] else if conns[0] == c then conns[1..] else [conns[0]] + Without(conns[1..], c)
  }

  predicate Has(s: State, c: nat) {
    if s.role.Server? then c in s.conns else s.conn == Some(c)
  }

  function Removed(s: State, c: nat, stops: bool): State {
    var left := if s.role.Server? then s.(conns := Without(s.conns, c)) else s.(conn := None);
    var t := Told(left, Event(Disconnected, c), stops);
    if t.role.Client? && !t.stopping then t.(r := t.r.(timer := true)) else t
  }

  function Connections(s: State): seq<nat> {
    if s.role.Server? then s.conns else match s.conn case Some(c) => [c] case None => []
  }

  function Ends(conns: seq<nat>): (r: seq<Event>)
    ensures |r| == |conns|
  {
    seq(|conns|, i requires 0 <= i < |conns| => Event(Disconnected, conns[i]))
  }

  /** Every connection is ended, in order, then nothing is left. */
  function Stopped(s: State): State {
    s.(started := false, stopping := false, stopQueued := false, r := NONE, conns := [], conn := None,
       log := s.log + Ends(Connections(s)))
  }

  /** Whatever the user and the system do. */
  datatype Op = StartOp(role: Role, attempt: Attempt) | StopOp | IdleOp | TimerOp(attempt: Attempt)
              | AcceptOp(accepted: bool) | CompleteOp(connected: bool) | MessageOp(c: nat) | EndOp(c: nat)
              | MaxConnOp(n: nat)

  function Accepted(s: State, accepted: bool, stops: bool): State {
    if accepted && |s.conns| < s.maxConn then
      Told(s.(conns := [s.nextId] + s.conns, nextId := s.nextId + 1), Event(Connected, s.nextId), stops)
    else s
  }

  function Completed(s: State, connected: bool, stops: bool): State {
    if connected then
      Told(s.(r := s.r.(pending := false), conn := Some(s.nextId), nextId := s.nextId + 1),
           Event(Connected, s.nextId), stops)
    else s.(r := s.r.(pending := false, timer := true))
  }

  /** One event, if it can happen. `stops` tells whether the user's callback asks for a stop. */
  function Next(s: State, op: Op, stops: bool): State {
    match op
    case StartOp(role, attempt) =>
      if s.started then s
      else s.(role := role, started := attempt != Failed, r := Attempted(role, attempt))
    case StopOp => if s.started && !s.stopping then Stopped(s) else s
    case IdleOp => if s.stopQueued then Stopped(s) else s
    case TimerOp(attempt) => if s.r.timer then s.(r := Attempted(s.role, attempt)) else s
    case AcceptOp(accepted) => if s.r.listening then Accepted(s, accepted, stops) else s
    case CompleteOp(connected) => if s.r.pending then Completed(s, connected, stops) else s
    case MessageOp(c) => if Has(s, c) then Told(s, Event(Message, c), stops) else s
    case EndOp(c) => if Has(s, c) then Removed(s, c, stops) else s
    case MaxConnOp(n) => if n > 0 then s.(maxConn := n) else s
  }

  function Run(maxConn: nat, ops: seq<(Op, bool)>): State {
    if ops == [] then Start(maxConn)
    else
      var last := ops[|ops| - 1];
      Next(Run(maxConn, ops[..|ops| - 1]), last.0, last.1)
  }

  // ----- What every step keeps -----

  function Live(s: State): set<nat> {
    LiveIn(s.conns, s.conn)
  }

  predicate Sound(s: State) {
    && Shape(s.started, s.role, s.r, s.conns, s.conn) && Distinct(s.conns)
    && (s.stopping <==> s.stopQueued) && (!s.started ==> !s.stopping)
  }

  ghost predicate Inv(s: State) {
    Sound(s) && LogOk(s.log, Live(s), s.nextId)
  }

  lemma LiveAdded(conns: seq<nat>, c: nat)
    requires Distinct(conns) && c !in conns
    ensures Distinct([c] + conns) && LiveIn([c] + conns, None) == LiveIn(conns, None) + {c}
  {
  }

  lemma {:induction false} WithoutAt(conns: seq<nat>, k: nat)
    requires k < |conns| && conns[k] !in conns[..k]
    ensures Without(conns, conns[k]) == conns[..k] + conns[k + 1..]
  {
    if k > 0 {
      assert conns[0] == conns[..k][0];
      assert conns[1..][..k - 1] == conns[..k][1..];
      WithoutAt(conns[1..], k - 1);
    }
  }

  function At(k: nat, i: nat): nat {
    if i < k then i else i + 1
  }

  /** What remains is where it was, or one place earlier. */
  lemma WithoutHas(conns: seq<nat>, k: nat)
    requires Distinct(conns) && k < |conns|
    ensures |Without(conns, conns[k])| == |conns| - 1
    ensures forall i | 0 <= i < |conns| - 1 :: Without(conns, conns[k])[i] == conns[At(k, i)]
  {
    assert conns[k] !in conns[..k];
    WithoutAt(conns, k);
  }

  lemma DistinctRemoved(conns: seq<nat>, k: nat)
    requires Distinct(conns) && k < |conns|
    ensures Distinct(Without(conns, conns[k]))
  {
    hide Without;
    WithoutHas(conns, k);
    var rest := Without(conns, conns[k]);
    forall i, j | 0 <= i < j < |rest|
      ensures rest[i] != rest[j]
    {
      assert conns[At(k, i)] != conns[At(k, j)];
    }
  }

  lemma StillThere(conns: seq<nat>, k: nat, d: nat)
    requires Distinct(conns) && k < |conns|
    ensures d in Without(conns, conns[k]) <==> d in conns && d != conns[k]
  {
    hide Without;
    WithoutHas(conns, k);
    var rest := Without(conns, conns[k]);
    if d in conns && d != conns[k] {
      var i :| 0 <= i < |conns| && conns[i] == d;
      var p := if i < k then i else i - 1;
      assert rest[p] == conns[At(k, p)];
    }
    if d in rest {
      var i :| 0 <= i < |rest| && rest[i] == d;
      assert conns[At(k, i)] == d && conns[At(k, i)] != conns[k];
    }
  }

  lemma LiveRemoved(conns: seq<nat>, c: nat)
    requires Distinct(conns) && c in conns
    ensures Distinct(Without(conns, c)) && LiveIn(Without(conns, c), None) == LiveIn(conns, None) - {c}
  {
    hide Without, Distinct;
    var k :| 0 <= k < |conns| && conns[k] == c;
    DistinctRemoved(conns, k);
    forall d: nat
      ensures d in Without(conns, c) <==> d in conns && d != c
    {
      StillThere(conns, k, d);
    }
  }

  lemma HasIsLive(s: State, c: nat)
    requires Sound(s)
    ensures Has(s, c) <==> c in Live(s)
  {
  }

  lemma ToldOk(s: State, e: Event, stops: bool)
    requires Sound(s) && LogOk(s.log + [e], Live(s), s.nextId)
    ensures Inv(Told(s, e, stops))
  {
    hide LogOk;
  }

  lemma RemovedOk(s: State, c: nat, stops: bool)
    requires Inv(s) && Has(s, c)
    ensures Inv(Removed(s, c, stops)) && Live(Removed(s, c, stops)) == Live(s) - {c}
  {
    LogDisconnect(s.log, Live(s), s.nextId, c) by { HasIsLive(s, c); }
    hide LogOk;
    if s.role.Server? {
      LiveRemoved(s.conns, c);
      var left := s.(conns := Without(s.conns, c));
      assert Live(left) == Live(s) - {c};
      ToldOk(left, Event(Disconnected, c), stops);
    } else {
      var left := s.(conn := None);
      assert Live(left) == Live(s) - {c};
      ToldOk(left, Event(Disconnected, c), stops);
    }
  }

  /** Ending the first connection is how a stop begins. */
  lemma StopFirst(s: State, stops: bool)
    requires s.stopping && Connections(s) != []
    ensures Stopped(Removed(s, Connections(s)[0], stops)) == Stopped(s)
    ensures Has(s, Connections(s)[0]) && Removed(s, Connections(s)[0], stops).stopping
    ensures Connections(Removed(s, Connections(s)[0], stops)) == Connections(s)[1..]
  {
    var all := Connections(s);
    assert Ends(all) == [Event(Disconnected, all[0])] + Ends(all[1..]);
  }

  lemma {:induction false} StoppedOk(s: State)
    requires Inv(s) && s.stopping
    ensures Inv(Stopped(s)) && Live(Stopped(s)) == {}
    decreases |Connections(s)|
  {
    hide LogOk, Removed;
    if Connections(s) == [] {
      assert s.log + [] == s.log && Live(s) == {};
    } else {
      StopFirst(s, false);
      RemovedOk(s, Connections(s)[0], false);
      StoppedOk(Removed(s, Connections(s)[0], false));
    }
  }

  lemma AcceptedOk(s: State, accepted: bool, stops: bool)
    requires Inv(s) && s.r.listening
    ensures Inv(Accepted(s, accepted, stops))
  {
    LogConnect(s.log, Live(s), s.nextId);
    assert s.nextId !in s.conns by { assert s.nextId !in Live(s); }
    hide LogOk;
    LiveAdded(s.conns, s.nextId);
    ToldOk(s.(conns := [s.nextId] + s.conns, nextId := s.nextId + 1), Event(Connected, s.nextId), stops);
  }

  lemma CompletedOk(s: State, connected: bool, stops: bool)
    requires Inv(s) && s.r.pending
    ensures Inv(Completed(s, connected, stops))
  {
    LogConnect(s.log, Live(s), s.nextId);
    hide LogOk;
    var t := s.(r := s.r.(pending := false), conn := Some(s.nextId), nextId := s.nextId + 1);
    assert Live(t) == Live(s) + {s.nextId};
    ToldOk(t, Event(Connected, s.nextId), stops);
  }

  lemma MessageOk(s: State, c: nat, stops: bool)
    requires Inv(s) && Has(s, c)
    ensures Inv(Told(s, Event(Message, c), stops))
  {
    HasIsLive(s, c);
    LogMessage(s.log, Live(s), s.nextId, c);
    ToldOk(s, Event(Message, c), stops);
  }

  lemma StopOk(s: State)
    requires Inv(s) && s.started
    ensures Inv(Stopped(s)) && Live(Stopped(s)) == {}
  {
    StoppedOk(s.(stopping := true, stopQueued := true));
  }

  lemma NextOk(s: State, op: Op, stops: bool)
    requires Inv(s)
    ensures Inv(Next(s, op, stops))
  {
    hide LogOk, Told, Removed, Stopped, Accepted, Completed;
    match op {
      case StopOp => if s.started { StopOk(s); }
      case IdleOp => if s.stopQueued { StopOk(s); }
      case AcceptOp(accepted) => if s.r.listening { AcceptedOk(s, accepted, stops); }
      case CompleteOp(connected) => if s.r.pending { CompletedOk(s, connected, stops); }
      case MessageOp(c) => if Has(s, c) { MessageOk(s, c, stops); }
      case EndOp(c) => if Has(s, c) { RemovedOk(s, c, stops); }
      case _ =>
    }
  }

  /** In every run: which resources and connections exist together, and what the user was told of each
      connection. */
  lemma {:induction false} RunOk(maxConn: nat, ops: seq<(Op, bool)>)
    ensures Inv(Run(maxConn, ops))
  {
    hide Next, Inv;
    if ops == [] {
      StartOk(maxConn);
    } else {
      var last := ops[|ops| - 1];
      RunOk(maxConn, ops[..|ops| - 1]);
      NextOk(Run(maxConn, ops[..|ops| - 1]), last.0, last.1);
    }
  }

  lemma StartOk(maxConn: nat)
    ensures Inv(Start(maxConn))
  {
  }

  /** In every run, each connection made was announced first, then only its messages were reported, then its end,
      once, if it is no longer there; and nothing was ever said of the others. */
  lemma RunStory(maxConn: nat, ops: seq<(Op, bool)>, c: nat)
    ensures
      var s := Run(maxConn, ops);
      var told := About(s.log, c);
      if c in Live(s) then Opening(told)
      else if c < s.nextId then
        told != [] && told[|told| - 1] == Disconnected && Opening(told[..|told| - 1])
      else told == []
  {
    RunOk(maxConn, ops);
    Story(Run(maxConn, ops).log, c);
  }

  /** The list of a server grows only below the limit in force, and by one. */
  lemma LimitHolds(s: State, op: Op, stops: bool)
    requires Inv(s) && |Next(s, op, stops).conns| > |s.conns|
    ensures |Next(s, op, stops).conns| == |s.conns| + 1 <= s.maxConn && Next(s, op, stops).conns[1..] == s.conns
  {
    hide LogOk;
    if op.EndOp? && Has(s, op.c) {
      WithoutShorter(s.conns, op.c);
    }
  }

  lemma {:induction false} WithoutShorter(conns: seq<nat>, c: nat)
    ensures |Without(conns, c)| <= |conns|
  {
    if conns != [] {
      WithoutShorter(conns[1..], c);
    }
  }

  /** While the context stays up, a stop asked for is carried out at the next idle turn, and until then no new
      attempt is made by the end of a connection. */
  lemma StopIsCarriedOut(s: State, op: Op, stops: bool)
    requires Inv(s) && s.stopping
    ensures !Next(s, IdleOp, stops).started && Live(Next(s, IdleOp, stops)) == {}
    ensures Next(s, op, stops).started ==> Next(s, op, stops).stopping
    ensures op.EndOp? && Next(s, op, stops).r.timer ==> s.r.timer
  {
    StopOk(s);
    hide LogOk;
  }
}
