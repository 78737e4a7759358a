/** Reference counting of src/pomp_buffer.c as its users see it: several holders of one buffer, any of them
    acting at any time. Messages, the write queue, pending completions, the read buffer of a connection and
    the user are all holders. */
module Sharing {
  import opened Bytes
  import opened Collections

  /** What a holder can see: the bytes, and where descriptors are registered. */
  datatype Content = Content(data: seq<byte>, fdoffs: seq<nat>)

  datatype Buf = Buf(refcount: nat, content: Content)

  /** Live buffers by address, and who holds which. */
  datatype State = State(bufs: map<nat, Buf>, holds: map<nat, nat>)

  datatype Op =
    | New(h: nat, addr: nat, content: Content)              // allocate a buffer
    | Copy(h: nat, from: nat, addr: nat)                    // allocate a copy of a buffer one holds
    | Share(h: nat, from: nat)                              // take a reference on a buffer somebody holds
    | Drop(h: nat)                                          // give a reference back
    | Change(h: nat, content: Content)                      // write, set length, clear, register a descriptor
    | Renew(h: nat, addr: nat, content: Content)            // start over: reuse if alone, else a new buffer

  function Actor(op: Op): nat {
    op.h
  }

  function Decremented(bufs: map<nat, Buf>, b: nat): map<nat, Buf>
    requires b in bufs
  {
    if bufs[b].refcount <= 1 then bufs - {b} else bufs[b := bufs[b].(refcount := bufs[b].refcount - 1)]
  }

  predicate Wellformed(s: State) {
    forall h | h in s.holds :: s.holds[h] in s.bufs
  }

  function Without(s: State, h: nat): State
    requires Wellformed(s) && h in s.holds
  {
    State(Decremented(s.bufs, s.holds[h]), s.holds - {h})
  }

  function With(s: State, h: nat, addr: nat, content: Content): State {
    State(s.bufs[addr := Buf(1, content)], s.holds[h := addr])
  }

  /** Whether an operation can be performed: a new holder holds nothing yet, a new buffer has a new address. */
  predicate Enabled(s: State, op: Op) {
    match op
    case New(h, addr, _) => h !in s.holds && addr !in s.bufs
    case Copy(h, from, addr) => h !in s.holds && from in s.holds && addr !in s.bufs
    case Share(h, from) => h !in s.holds && from in s.holds
    case Drop(h) => h in s.holds
    case Change(h, _) => h in s.holds
    case Renew(h, addr, _) => h in s.holds && addr !in s.bufs
  }

  /** A change to a shared buffer is refused, and changes nothing. */
  function Next(s: State, op: Op): State
    requires Wellformed(s) && Enabled(s, op)
  {
    match op
    case New(h, addr, content) => With(s, h, addr, content)
    case Copy(h, from, addr) => With(s, h, addr, s.bufs[s.holds[from]].content)
    case Share(h, from) =>
      var b := s.holds[from];
      State(s.bufs[b := s.bufs[b].(refcount := s.bufs[b].refcount + 1)], s.holds[h := b])
    case Drop(h) => Without(s, h)
    case Change(h, content) =>
      var b := s.holds[h];
      if s.bufs[b].refcount > 1 then s else State(s.bufs[b := s.bufs[b].(content := content)], s.holds)
    case Renew(h, addr, content) =>
      var b := s.holds[h];
      if s.bufs[b].refcount > 1 then With(Without(s, h), h, addr, content)
      else State(s.bufs[b := s.bufs[b].(content := content)], s.holds)
  }

  // ----- The count is the number of holders -----

  function Holders(s: State, b: nat): set<nat> {
    set h | h in s.holds && s.holds[h] == b
  }

  predicate Counted(s: State) {
    && Wellformed(s)
    && (forall b | b in s.bufs :: s.bufs[b].refcount == |Holders(s, b)| && s.bufs[b].refcount >= 1)
  }

  lemma AddedHolder(s: State, t: State, h: nat, b: nat)
    requires h !in s.holds && t.holds == s.holds[h := b]
    ensures Holders(t, b) == Holders(s, b) + {h} && |Holders(t, b)| == |Holders(s, b)| + 1
    ensures forall c | c != b :: Holders(t, c) == Holders(s, c)
  {
    assert Holders(t, b) == Holders(s, b) + {h};
    forall c | c != b
      ensures Holders(t, c) == Holders(s, c)
    {
    }
  }

  lemma RemovedHolder(s: State, t: State, h: nat)
    requires h in s.holds && t.holds == s.holds - {h}
    ensures var b := s.holds[h]; Holders(t, b) == Holders(s, b) - {h} && |Holders(t, b)| == |Holders(s, b)| - 1
    ensures forall c | c != s.holds[h] :: Holders(t, c) == Holders(s, c)
  {
    var b := s.holds[h];
    assert Holders(t, b) == Holders(s, b) - {h};
    forall c | c != b
      ensures Holders(t, c) == Holders(s, c)
    {
    }
  }

  lemma WithCounted(s: State, h: nat, addr: nat, content: Content)
    requires Counted(s) && h !in s.holds && addr !in s.bufs
    ensures Counted(With(s, h, addr, content))
  {
    var t := With(s, h, addr, content);
    AddedHolder(s, t, h, addr);
    assert Holders(s, addr) == {};
  }

  lemma WithoutCounted(s: State, h: nat)
    requires Counted(s) && h in s.holds
    ensures Counted(Without(s, h))
    ensures forall b | b in Without(s, h).bufs :: b in s.bufs
  {
    var t, b := Without(s, h), s.holds[h];
    RemovedHolder(s, t, h);
    if s.bufs[b].refcount <= 1 {
      forall g | g in t.holds
        ensures t.holds[g] in t.bufs
      {
        assert t.holds[g] == b ==> g in Holders(t, b);
      }
    }
  }

  lemma ShareCounted(s: State, h: nat, from: nat)
    requires Counted(s) && Enabled(s, Share(h, from))
    ensures Counted(Next(s, Share(h, from)))
  {
    AddedHolder(s, Next(s, Share(h, from)), h, s.holds[from]);
  }

  lemma ContentCounted(s: State, b: nat, content: Content)
    requires Counted(s) && b in s.bufs
    ensures Counted(State(s.bufs[b := s.bufs[b].(content := content)], s.holds))
  {
    var t := State(s.bufs[b := s.bufs[b].(content := content)], s.holds);
    forall c | c in t.bufs
      ensures t.bufs[c].refcount == |Holders(t, c)| && t.bufs[c].refcount >= 1
    {
      assert Holders(t, c) == Holders(s, c);
    }
  }

  /** After every step each count is the number of holders, and a buffer lives exactly while it is held. */
  lemma NextCounted(s: State, op: Op)
    requires Counted(s) && Enabled(s, op)
    ensures Counted(Next(s, op))
  {
    hide Counted, Holders, Without, With;
    CountedWellformed(s);
    match op {
      case New(h, addr, content) => WithCounted(s, h, addr, content);
      case Copy(h, from, addr) => WithCounted(s, h, addr, s.bufs[s.holds[from]].content);
      case Share(h, from) => ShareCounted(s, h, from);
      case Drop(h) => WithoutCounted(s, h);
      case Change(h, content) => ContentCounted(s, s.holds[h], content);
      case Renew(h, addr, content) => RenewCounted(s, h, addr, content);
    }
  }

  lemma CountedWellformed(s: State)
    requires Counted(s)
    ensures Wellformed(s)
  {
  }

  lemma RenewCounted(s: State, h: nat, addr: nat, content: Content)
    requires Counted(s) && Enabled(s, Renew(h, addr, content))
    ensures Counted(Next(s, Renew(h, addr, content)))
  {
    if s.bufs[s.holds[h]].refcount > 1 {
      WithoutCounted(s, h);
      WithCounted(Without(s, h), h, addr, content);
    } else {
      ContentCounted(s, s.holds[h], content);
    }
  }

  // ----- Isolation -----

  function View(s: State, h: nat): Content
    requires Wellformed(s) && h in s.holds
  {
    s.bufs[s.holds[h]].content
  }

  /** The test made before every change is whether anybody else holds the buffer. */
  lemma ChangedIffAlone(s: State, h: nat)
    requires Counted(s) && h in s.holds
    ensures s.bufs[s.holds[h]].refcount <= 1 <==> forall g | g in s.holds && s.holds[g] == s.holds[h] :: g == h
  {
    var b := s.holds[h];
    assert h in Holders(s, b);
    Subset({h}, Holders(s, b));
    if s.bufs[b].refcount <= 1 {
      Single(Holders(s, b), h);
      forall g | g in s.holds && s.holds[g] == b
        ensures g == h
      {
        assert g in Holders(s, b);
      }
    }
    if forall g | g in s.holds && s.holds[g] == b :: g == h {
      assert Holders(s, b) == {h};
    }
  }

  lemma Single(a: set<nat>, h: nat)
    requires h in a && |a| <= 1
    ensures a == {h}
  {
    assert |a - {h}| == 0;
  }

  /** Whatever one holder does, the others still hold what they held, and see it unchanged. */
  lemma NextIsolated(s: State, op: Op, g: nat)
    requires Counted(s) && Enabled(s, op) && g in s.holds && g != Actor(op)
    ensures var t := Next(s, op); g in t.holds && t.holds[g] == s.holds[g] && Wellformed(t) && View(t, g) == View(s, g)
  {
    NextCounted(s, op);
    if op.h in s.holds && s.holds[g] == s.holds[op.h] {
      ChangedIffAlone(s, op.h);
    }
  }

  predicate IsRun(states: seq<State>, ops: seq<Op>) {
    && |states| == |ops| + 1 && Counted(states[0])
    && (forall i | 0 <= i < |ops| ::
          Counted(states[i]) ==> Enabled(states[i], ops[i]) && states[i + 1] == Next(states[i], ops[i]))
  }

  lemma {:induction false} RunCounted(states: seq<State>, ops: seq<Op>, i: nat)
    requires IsRun(states, ops) && i < |states|
    ensures Counted(states[i])
  {
    if i > 0 {
      RunCounted(states, ops, i - 1);
      NextCounted(states[i - 1], ops[i - 1]);
    }
  }

  lemma RunStep(states: seq<State>, ops: seq<Op>, i: nat)
    requires IsRun(states, ops) && i < |ops|
    ensures Counted(states[i]) && Enabled(states[i], ops[i]) && states[i + 1] == Next(states[i], ops[i])
  {
    RunCounted(states, ops, i);
    hide Counted, Next, Enabled;
  }

  /** Over any run, a buffer does not change under a holder that does nothing: bytes queued for sending are
      not altered by reusing the message, and later reads do not overwrite a buffer the user retained. */
  lemma {:induction false} RunIsolated(states: seq<State>, ops: seq<Op>, g: nat, i: nat, j: nat)
    requires IsRun(states, ops) && i <= j < |states| && g in states[i].holds
    requires |states| == |ops| + 1 && forall k | i <= k < j :: Actor(ops[k]) != g
    ensures Counted(states[i]) && Counted(states[j]) && g in states[j].holds && View(states[j], g) == View(states[i], g)
    decreases j - i
  {
    hide IsRun, Counted, Next, View, Enabled;
    RunCounted(states, ops, i);
    RunCounted(states, ops, j);
    CountedWellformed(states[i]);
    if i < j {
      RunStep(states, ops, j - 1);
      RunIsolated(states, ops, g, i, j - 1);
      NextIsolated(states[j - 1], ops[j - 1], g);
    }
  }

  /** A holder that took its reference from another keeps what that one saw then, whatever the other does next: an
      entry of the write queue keeps the bytes of the message, a pending completion those of the entry, and a user
      those of the read buffer. */
  lemma SharedIsKept(states: seq<State>, ops: seq<Op>, h: nat, from: nat, i: nat, j: nat)
    requires IsRun(states, ops) && i < j < |states| && ops[i] == Share(h, from)
    requires forall k | i < k < j :: Actor(ops[k]) != h
    ensures Counted(states[i]) && from in states[i].holds && Counted(states[j]) && h in states[j].holds
    ensures View(states[j], h) == View(states[i], from)
  {
    RunCounted(states, ops, i);
    RunIsolated(states, ops, h, i + 1, j);
  }

  /** Starting over, as each read of a connection does: the holder is alone on a buffer with the new content, and a
      buffer that somebody else retained is left to them as it was. */
  lemma RenewStarts(s: State, h: nat, addr: nat, content: Content, g: nat)
    requires Counted(s) && Enabled(s, Renew(h, addr, content)) && g in s.holds && g != h
    ensures
      var t := Next(s, Renew(h, addr, content));
      && Counted(t) && h in t.holds && View(t, h) == content && t.bufs[t.holds[h]].refcount == 1
      && g in t.holds && t.holds[g] != t.holds[h] && View(t, g) == View(s, g)
  {
    var t := Next(s, Renew(h, addr, content));
    RenewCounted(s, h, addr, content);
    NextIsolated(s, Renew(h, addr, content), g);
    hide Counted, Next;
    CountIsOne(s, h);
    ChangedIffAlone(s, h);
    RenewAlone(s, h, addr, content);
    ChangedIffAlone(t, h);
  }

  lemma CountIsOne(s: State, h: nat)
    requires Counted(s) && h in s.holds
    ensures Wellformed(s) && s.bufs[s.holds[h]].refcount >= 1
  {
  }

  lemma RenewAlone(s: State, h: nat, addr: nat, content: Content)
    requires Counted(s) && Enabled(s, Renew(h, addr, content))
    ensures
      var t := Next(s, Renew(h, addr, content));
      h in t.holds && t.holds[h] in t.bufs && t.bufs[t.holds[h]] == Buf(1, content)
  {
    CountIsOne(s, h);
  }

  /** Once nobody holds anything, every buffer has been freed. */
  lemma NothingLeaks(s: State)
    requires Counted(s) && s.holds == map[]
    ensures s.bufs == map[]
  {
    forall b
      ensures Holders(s, b) == {}
    {
    }
    assert s.bufs.Keys == {};
  }

  // ----- What each operation does -----

  /** A holder of a new buffer sees what it put in it, and is alone on it; a copy is another buffer with the same
      content; a reference leads to the very same buffer. */
  lemma TakenSees(s: State, op: Op)
    requires Counted(s) && Enabled(s, op) && (op.New? || op.Copy? || op.Share?)
    ensures
      var t := Next(s, op);
      && Wellformed(t) && op.h in t.holds
      && (op.New? ==> View(t, op.h) == op.content)
      && (op.Copy? ==> View(t, op.h) == View(s, op.from))
      && (op.Share? ==> View(t, op.h) == View(s, op.from) && t.holds[op.h] == s.holds[op.from])
      && (op.New? || op.Copy? ==> forall g | g in t.holds && g != op.h :: t.holds[g] != t.holds[op.h])
      && t.holds.Keys == s.holds.Keys + {op.h}
  {
    NextCounted(s, op);
  }

  /** A change is made if and only if its author holds the buffer alone; starting over always is. A holder that gives
      its reference back holds nothing, and the buffer is gone exactly if nobody else holds it. */
  lemma ChangedTakesEffect(s: State, op: Op)
    requires Counted(s) && Enabled(s, op) && (op.Change? || op.Renew? || op.Drop?)
    ensures
      var t := Next(s, op);
      var alone := forall g | g in s.holds && s.holds[g] == s.holds[op.h] :: g == op.h;
      && Wellformed(t)
      && (op.Change? ==> op.h in t.holds && View(t, op.h) == if alone then op.content else View(s, op.h))
      && (op.Renew? ==> op.h in t.holds && View(t, op.h) == op.content)
      && (op.Drop? ==> t.holds == s.holds - {op.h} && (s.holds[op.h] !in t.bufs <==> alone))
      && (!op.Drop? ==> t.holds.Keys == s.holds.Keys)
  {
    NextCounted(s, op);
    ChangedIffAlone(s, op.h);
  }
}
