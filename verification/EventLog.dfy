/** What the user of a context is told about its connections, in order. */
module EventLog {
  datatype Kind = Connected | Message | Disconnected

  datatype Event = Event(kind: Kind, conn: nat)

  /** Where a connection stands after some events. */
  datatype Phase = Fresh | Live | Gone | Bad

  function Follow(p: Phase, e: Event, c: nat): Phase {
    if e.conn != c then p
    else match (p, e.kind)
      case (Fresh, Connected) => Live
      case (Live, Message) => Live
      case (Live, Disconnected) => Gone
      case _ => Bad
  }

  function PhaseOf(log: seq<Event>, c: nat): Phase {
    if log == [] then Fresh else Follow(PhaseOf(log[..|log| - 1], c), log[|log| - 1], c)
  }

  /** The connections alive now are live in the log, all the others made so far are gone. */
  ghost predicate LogOk(log: seq<Event>, live: set<nat>, nextId: nat) {
    && (forall c | c in live :: c < nextId)
    && (forall c: nat :: PhaseOf(log, c) == if c in live then Live else if c < nextId then Gone else Fresh)
  }

  lemma PhaseAfter(log: seq<Event>, e: Event, c: nat)
    ensures PhaseOf(log + [e], c) == Follow(PhaseOf(log, c), e, c)
  {
    assert (log + [e])[..|log|] == log;
  }

  lemma LogConnect(log: seq<Event>, live: set<nat>, nextId: nat)
    requires LogOk(log, live, nextId)
    ensures LogOk(log + [Event(Connected, nextId)], live + {nextId}, nextId + 1)
  {
    forall c: nat
      ensures PhaseOf(log + [Event(Connected, nextId)], c) == Follow(PhaseOf(log, c), Event(Connected, nextId), c)
    {
      PhaseAfter(log, Event(Connected, nextId), c);
    }
  }

  lemma LogMessage(log: seq<Event>, live: set<nat>, nextId: nat, id: nat)
    requires LogOk(log, live, nextId) && id in live
    ensures LogOk(log + [Event(Message, id)], live, nextId)
  {
    forall c: nat
      ensures PhaseOf(log + [Event(Message, id)], c) == Follow(PhaseOf(log, c), Event(Message, id), c)
    {
      PhaseAfter(log, Event(Message, id), c);
    }
  }

  lemma LogDisconnect(log: seq<Event>, live: set<nat>, nextId: nat, id: nat)
    requires LogOk(log, live, nextId) && id in live
    ensures LogOk(log + [Event(Disconnected, id)], live - {id}, nextId)
  {
    forall c: nat
      ensures PhaseOf(log + [Event(Disconnected, id)], c) == Follow(PhaseOf(log, c), Event(Disconnected, id), c)
    {
      PhaseAfter(log, Event(Disconnected, id), c);
    }
  }

  // ----- The same, seen connection by connection -----

  /** What the user was told about one connection. */
  function About(log: seq<Event>, c: nat): seq<Kind> {
    if log == [] then []
    else
      var e, before := log[|log| - 1], About(log[..|log| - 1], c);
      if e.conn == c then before + [e.kind] else before
  }

  /** Connected first, then only messages. */
  predicate Opening(s: seq<Kind>) {
    s != [] && s[0] == Connected && (forall i | 0 < i < |s| :: s[i] == Message)
  }

  /** The phase tells the whole story: nothing; or connected and then messages; or that and, last and once,
      disconnected. */
  lemma {:induction false} Story(log: seq<Event>, c: nat)
    ensures PhaseOf(log, c) == Fresh <==> About(log, c) == []
    ensures PhaseOf(log, c) == Live <==> Opening(About(log, c))
    ensures PhaseOf(log, c) == Gone <==>
      About(log, c) != [] && About(log, c)[|About(log, c)| - 1] == Disconnected
      && Opening(About(log, c)[..|About(log, c)| - 1])
  {
    if log != [] {
      var e, earlier := log[|log| - 1], log[..|log| - 1];
      Story(earlier, c);
      if e.conn == c {
        StoryStep(About(earlier, c), e.kind);
      }
    }
  }

  lemma StoryStep(s: seq<Kind>, k: Kind)
    ensures var t := s + [k];
      && t[..|t| - 1] == s && t[|t| - 1] == k
      && (Opening(t) <==> (s == [] && k == Connected) || (Opening(s) && k == Message))
  {
    var t := s + [k];
    if Opening(t) && s != [] {
      assert forall i | 0 <= i < |s| :: s[i] == t[i];
      assert t[|s|] == k;
    }
  }
}
