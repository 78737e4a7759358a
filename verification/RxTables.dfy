/** Received descriptors of src/pomp_conn.c: two tables, the current one for the message being received and
    the next one for the message after it. Each received descriptor is a distinct token. */
module RxTables {
  import opened Bytes

  type Fd = nat

  datatype Tables = Tables(current: seq<Fd>, next: seq<Fd>)

  /** What a step leaves in the tables, gives to messages, and closes. */
  datatype Effect = Effect(tables: Tables, given: seq<seq<Fd>>, closed: seq<Fd>)

  /** Between handlers, nothing waits behind an empty table. */
  predicate Ready(t: Tables) {
    && |t.current| <= MAX_FD_COUNT && |t.next| <= MAX_FD_COUNT
    && (t.current == [] ==> t.next == [])
  }

  function Swap(t: Tables): Tables {
    Tables(t.next, t.current)
  }

  function Min(a: nat, b: nat): nat {
    if a < b then a else b
  }

  function Room(table: seq<Fd>): nat {
    if |table| < MAX_FD_COUNT then MAX_FD_COUNT - |table| else 0
  }

  /** A recv brought these descriptors. With both tables in use, the current one is given up first. What does
      not fit is closed. An empty current table is then replaced by the next one. */
  function Receive(t: Tables, fds: seq<Fd>): Effect {
    var discard := fds != [] && t.current != [] && t.next != [];
    var u := if discard then Tables(t.next, []) else t;
    var room := Min(|fds|, Room(u.next));
    var v := Tables(u.current, u.next + fds[..room]);
    Effect(if v.current == [] then Swap(v) else v, [], (if discard then t.current else []) + fds[room..])
  }

  /** A message with `slots` places for descriptors is complete: it takes them from the current table; what
      is left of that table is closed, and the next table becomes the current one. */
  function Fixup(t: Tables, slots: nat): Effect {
    if slots == 0 then Effect(t, [[]], [])
    else
      var taken := Min(slots, |t.current|);
      Effect(Tables(t.next, []), [t.current[..taken]], t.current[taken..])
  }

  function Join(a: Effect, b: Effect): Effect {
    Effect(b.tables, a.given + b.given, a.closed + b.closed)
  }

  function FixupAll(t: Tables, slots: seq<nat>): Effect
    decreases |slots|
  {
    if slots == [] then Effect(t, [], [])
    else Join(Fixup(t, slots[0]), FixupAll(Fixup(t, slots[0]).tables, slots[1..]))
  }

  /** At the end of a read that ends with a message, nothing may remain. */
  function Finish(t: Tables, partial: bool): Effect {
    if partial || t.current == [] then Effect(t, [], [])
    else Effect(Tables([], []), [], t.current + t.next)
  }

  /** One read: its descriptors, the messages it completes, and whether bytes follow the last of them. */
  function Handle(t: Tables, fds: seq<Fd>, slots: seq<nat>, partial: bool): Effect {
    var a := Receive(t, fds);
    var b := FixupAll(a.tables, slots);
    var c := Finish(b.tables, partial);
    Effect(c.tables, b.given, a.closed + b.closed + c.closed)
  }

  // ----- Conservation -----

  function Held(t: Tables): multiset<Fd> {
    multiset(t.current) + multiset(t.next)
  }

  /** Everything there was, and everything that came, is in one place. */
  predicate Conserves(before: Tables, fds: seq<Fd>, e: Effect) {
    Held(before) + multiset(fds) == Held(e.tables) + multiset(Flatten(e.given)) + multiset(e.closed)
  }

  lemma SplitMultiset(s: seq<Fd>, k: nat)
    requires k <= |s|
    ensures multiset(s) == multiset(s[..k]) + multiset(s[k..])
  {
    assert s == s[..k] + s[k..];
  }

  lemma ReceiveConserves(t: Tables, fds: seq<Fd>)
    requires Ready(t)
    ensures Conserves(t, fds, Receive(t, fds)) && Ready(Receive(t, fds).tables)
  {
    var discard := fds != [] && t.current != [] && t.next != [];
    var u := if discard then Tables(t.next, []) else t;
    SplitMultiset(fds, Min(|fds|, Room(u.next)));
  }

  /** With at most four descriptors in a read, there is always room for them. */
  lemma ReceiveFits(t: Tables, fds: seq<Fd>)
    requires Ready(t) && |fds| <= MAX_FD_COUNT
    ensures Receive(t, fds).closed == if fds != [] && t.current != [] && t.next != [] then t.current else []
  {
    assert fds[|fds|..] == [];
  }

  /** When both tables are in use and others come, the older group is given up and the newer one is next in line;
      otherwise the newcomers wait behind, or take the place of an empty table. Up to four always fit. */
  lemma ReceiveKeepsOrder(t: Tables, fds: seq<Fd>)
    requires Ready(t) && |fds| <= MAX_FD_COUNT
    ensures Receive(t, fds).tables ==
      if fds == [] then t
      else if t.current == [] then Tables(fds, [])
      else if t.next == [] then Tables(t.current, fds)
      else Tables(t.next, fds)
  {
    assert fds[..|fds|] == fds && [] + fds == fds;
    assert fds == [] ==> t.next + fds == t.next;
  }

  /** A message that has slots uses up its group: it gets the first descriptors, the rest of the group is closed, and
      the next message starts with the next group. One without slots leaves the tables alone. */
  lemma MessageUsesItsGroup(t: Tables, slots: nat)
    ensures slots == 0 ==> Fixup(t, slots) == Effect(t, [[]], [])
    ensures slots > 0 ==>
      var e := Fixup(t, slots);
      && |e.given| == 1 && e.given[0] + e.closed == t.current && |e.given[0]| == Min(slots, |t.current|)
      && e.tables == Tables(t.next, [])
  {
  }

  lemma FixupConserves(t: Tables, slots: nat)
    requires Ready(t)
    ensures Conserves(t, [], Fixup(t, slots)) && Ready(Fixup(t, slots).tables) && |Fixup(t, slots).given| == 1
  {
    assert Flatten<Fd>([[]]) == [] + Flatten([]);
    var taken := Min(slots, |t.current|);
    SplitMultiset(t.current, taken);
    assert Flatten([t.current[..taken]]) == t.current[..taken] + Flatten([]);
  }

  lemma {:induction false} FlattenConcat(a: seq<seq<Fd>>, b: seq<seq<Fd>>)
    ensures Flatten(a + b) == Flatten(a) + Flatten(b)
  {
    if a == [] {
      assert a + b == b;
    } else {
      assert (a + b)[1..] == a[1..] + b;
      FlattenConcat(a[1..], b);
    }
  }

  lemma AddUp(h0: multiset<Fd>, h1: multiset<Fd>, h2: multiset<Fd>, g1: multiset<Fd>, g2: multiset<Fd>,
              c1: multiset<Fd>, c2: multiset<Fd>)
    requires h0 == h1 + g1 + c1 && h1 == h2 + g2 + c2
    ensures h0 == h2 + (g1 + g2) + (c1 + c2)
  {
  }

  lemma JoinConserves(t: Tables, fds: seq<Fd>, a: Effect, b: Effect)
    requires Conserves(t, fds, a) && Conserves(a.tables, [], b)
    ensures Conserves(t, fds, Join(a, b))
  {
    FlattenConcat(a.given, b.given);
    AddUp(Held(t) + multiset(fds), Held(a.tables), Held(b.tables), multiset(Flatten(a.given)),
          multiset(Flatten(b.given)), multiset(a.closed), multiset(b.closed));
  }

  lemma {:induction false} FixupAllConserves(t: Tables, slots: seq<nat>)
    requires Ready(t)
    ensures Conserves(t, [], FixupAll(t, slots)) && Ready(FixupAll(t, slots).tables)
    ensures |FixupAll(t, slots).given| == |slots|
    decreases |slots|
  {
    hide Conserves, Fixup, Ready;
    if slots == [] {
      NothingConserves(t);
    } else {
      var first := Fixup(t, slots[0]);
      FixupConserves(t, slots[0]);
      FixupAllConserves(first.tables, slots[1..]);
      JoinConserves(t, [], first, FixupAll(first.tables, slots[1..]));
    }
  }

  lemma NothingConserves(t: Tables)
    ensures Conserves(t, [], Effect(t, [], []))
  {
  }

  lemma FinishConserves(t: Tables, partial: bool)
    requires Ready(t)
    ensures Conserves(t, [], Finish(t, partial)) && Ready(Finish(t, partial).tables)
    ensures !partial ==> Finish(t, partial).tables == Tables([], [])
  {
  }

  /** A read neither loses nor duplicates a descriptor, and leaves the tables ready for the next one; when
      it ends with a message, the tables are empty. */
  lemma HandleConserves(t: Tables, fds: seq<Fd>, slots: seq<nat>, partial: bool)
    requires Ready(t)
    ensures Conserves(t, fds, Handle(t, fds, slots, partial)) && Ready(Handle(t, fds, slots, partial).tables)
    ensures |Handle(t, fds, slots, partial).given| == |slots|
    ensures !partial ==> Handle(t, fds, slots, partial).tables == Tables([], [])
  {
    var a := Receive(t, fds);
    var b := FixupAll(a.tables, slots);
    ReceiveConserves(t, fds);
    FixupAllConserves(a.tables, slots);
    FinishConserves(b.tables, partial);
  }

  // ----- Routing -----

  /** A message as its sender made it: its size, and a descriptor for each of its slots. */
  datatype Sent = Sent(len: nat, fds: seq<Fd>)

  predicate Sendable(ms: seq<Sent>) {
    forall i | 0 <= i < |ms| :: ms[i].len > 0 && |ms[i].fds| <= MAX_FD_COUNT
  }

  /** What is still to come: messages of which `got` bytes of the first one have been received. */
  datatype Stream = Stream(ms: seq<Sent>, got: nat)

  predicate Consistent(s: Stream) {
    Sendable(s.ms) && if s.ms == [] then s.got == 0 else s.got < s.ms[0].len
  }

  /** A read of `n` bytes that carries at most one group of descriptors, those of a message whose first byte
      it holds, and that does not go beyond that message. */
  predicate Proper(s: Stream, n: nat)
    requires Consistent(s)
    decreases |s.ms|
  {
    if s.ms == [] then n == 0
    else if n <= s.ms[0].len - s.got then true
    else !(s.got == 0 && s.ms[0].fds != []) && Proper(Stream(s.ms[1..], 0), n - (s.ms[0].len - s.got))
  }

  /** The group that comes with such a read. */
  function Group(s: Stream, n: nat): seq<Fd>
    requires Consistent(s)
    decreases |s.ms|
  {
    if s.ms == [] || n == 0 then []
    else if s.got == 0 && s.ms[0].fds != [] then s.ms[0].fds
    else if n <= s.ms[0].len - s.got then []
    else Group(Stream(s.ms[1..], 0), n - (s.ms[0].len - s.got))
  }

  /** How many messages the read completes. */
  function Completed(s: Stream, n: nat): (k: nat)
    requires Consistent(s)
    ensures k <= |s.ms|
    decreases |s.ms|
  {
    if s.ms == [] || n < s.ms[0].len - s.got then 0
    else 1 + Completed(Stream(s.ms[1..], 0), n - (s.ms[0].len - s.got))
  }

  function After(s: Stream, n: nat): (r: Stream)
    requires Consistent(s)
    ensures Consistent(r)
    decreases |s.ms|
  {
    if s.ms == [] then s
    else if n < s.ms[0].len - s.got then Stream(s.ms, s.got + n)
    else After(Stream(s.ms[1..], 0), n - (s.ms[0].len - s.got))
  }

  /** The descriptors of the message being received, if its first byte has come. */
  function Pending(s: Stream): seq<Fd> {
    if s.ms != [] && s.got > 0 then s.ms[0].fds else []
  }

  function Groups(ms: seq<Sent>): (r: seq<seq<Fd>>)
    ensures |r| == |ms|
  {
    seq(|ms|, i requires 0 <= i < |ms| => ms[i].fds)
  }

  function Slots(ms: seq<Sent>): (r: seq<nat>)
    ensures |r| == |ms|
  {
    seq(|ms|, i requires 0 <= i < |ms| => |ms[i].fds|)
  }

  lemma GroupsHead(ms: seq<Sent>, k: nat)
    requires 0 < k <= |ms|
    ensures Slots(ms[..k])[0] == |ms[0].fds| && Slots(ms[..k])[1..] == Slots(ms[1..][..k - 1])
    ensures Groups(ms[..k]) == [ms[0].fds] + Groups(ms[1..][..k - 1])
  {
  }

  lemma GroupsSplit(ms: seq<Sent>, k: nat, n: nat)
    requires k <= n <= |ms|
    ensures Groups(ms[..n]) == Groups(ms[..k]) + Groups(ms[k..][..n - k])
  {
  }

  /** After the descriptors of a read are stored, before its messages are handled. */
  function Stored(s: Stream, n: nat): Tables
    requires Consistent(s)
  {
    if Pending(s) != [] then Tables(Pending(s), Group(s, n)) else Tables(Group(s, n), [])
  }

  lemma ReceiveStores(s: Stream, n: nat)
    requires Consistent(s)
    ensures Receive(Tables(Pending(s), []), Group(s, n)) == Effect(Stored(s, n), [], [])
  {
    var g := Group(s, n);
    GroupBound(s, n);
    assert g[..|g|] == g && g[|g|..] == [] && [] + g == g;
  }

  lemma {:induction false} GroupBound(s: Stream, n: nat)
    requires Consistent(s)
    ensures |Group(s, n)| <= MAX_FD_COUNT
    decreases |s.ms|
  {
    if s.ms != [] && n > s.ms[0].len - s.got {
      GroupBound(Stream(s.ms[1..], 0), n - (s.ms[0].len - s.got));
    }
  }

  lemma FixupFirst(fds: seq<Fd>, next: seq<Fd>)
    ensures Fixup(Tables(fds, next), |fds|) ==
      if fds == [] then Effect(Tables([], next), [[]], []) else Effect(Tables(next, []), [fds], [])
  {
    assert fds[..|fds|] == fds && fds[|fds|..] == [];
  }

  lemma {:induction false} MessagesRouted(s: Stream, n: nat)
    requires Consistent(s) && Proper(s, n)
    ensures var done := s.ms[..Completed(s, n)];
      FixupAll(Stored(s, n), Slots(done)) == Effect(Tables(Pending(After(s, n)), []), Groups(done), [])
    decreases |s.ms|
  {
    hide Fixup, Stored, Proper, Pending, Group;
    var done := s.ms[..Completed(s, n)];
    if s.ms == [] || n < s.ms[0].len - s.got {
      assert Slots(done) == [] && Groups(done) == [];
      NoneRouted(s, n);
    } else {
      var rest, n' := Stream(s.ms[1..], 0), n - (s.ms[0].len - s.got);
      FirstRouted(s, n);
      MessagesRouted(rest, n');
      GroupsHead(s.ms, Completed(s, n));
    }
  }

  lemma NoneRouted(s: Stream, n: nat)
    requires Consistent(s) && Proper(s, n) && (s.ms == [] || n < s.ms[0].len - s.got)
    ensures Stored(s, n) == Tables(Pending(After(s, n)), [])
  {
  }

  /** The first message completed takes its own descriptors, and leaves the tables as the others need them. */
  lemma FirstRouted(s: Stream, n: nat)
    requires Consistent(s) && Proper(s, n) && s.ms != [] && n >= s.ms[0].len - s.got
    ensures Fixup(Stored(s, n), |s.ms[0].fds|) ==
      Effect(Stored(Stream(s.ms[1..], 0), n - (s.ms[0].len - s.got)), [s.ms[0].fds], [])
    ensures Proper(Stream(s.ms[1..], 0), n - (s.ms[0].len - s.got))
  {
    var m := s.ms[0];
    FixupFirst(m.fds, Group(s, n));
    FixupFirst(m.fds, []);
  }

  /** One read of a well-behaved peer: every message it completes gets its own descriptors, in order, nothing
      is closed, and the tables hold those of the message in progress. */
  lemma ReadRouted(s: Stream, n: nat)
    requires Consistent(s) && Proper(s, n) && n > 0
    ensures var done, s' := s.ms[..Completed(s, n)], After(s, n);
      Handle(Tables(Pending(s), []), Group(s, n), Slots(done), s'.got > 0)
      == Effect(Tables(Pending(s'), []), Groups(done), [])
  {
    ReceiveStores(s, n);
    MessagesRouted(s, n);
  }

  // ----- Whole streams -----

  /** Reads of these sizes, each of them proper where it starts. */
  predicate AllProper(s: Stream, sizes: seq<nat>)
    requires Consistent(s)
    decreases |sizes|
  {
    sizes == [] || (sizes[0] > 0 && Proper(s, sizes[0]) && AllProper(After(s, sizes[0]), sizes[1..]))
  }

  /** All the reads, handled one after the other as the connection does. */
  function HandleAll(t: Tables, s: Stream, sizes: seq<nat>): Effect
    requires Consistent(s)
    decreases |sizes|
  {
    if sizes == [] then Effect(t, [], [])
    else
      var n, s' := sizes[0], After(s, sizes[0]);
      var e := Handle(t, Group(s, n), Slots(s.ms[..Completed(s, n)]), s'.got > 0);
      Join(e, HandleAll(e.tables, s', sizes[1..]))
  }

  function AfterAll(s: Stream, sizes: seq<nat>): (r: Stream)
    requires Consistent(s)
    ensures Consistent(r)
    decreases |sizes|
  {
    if sizes == [] then s else AfterAll(After(s, sizes[0]), sizes[1..])
  }

  lemma {:induction false} AfterDrops(s: Stream, n: nat)
    requires Consistent(s)
    ensures After(s, n).ms == s.ms[Completed(s, n)..]
    decreases |s.ms|
  {
    if s.ms != [] && n >= s.ms[0].len - s.got {
      AfterDrops(Stream(s.ms[1..], 0), n - (s.ms[0].len - s.got));
    }
  }

  /** For every way a well-behaved stream of messages is split into reads, each message gets exactly its own
      descriptors, in order, and none is ever closed or left over. */
  lemma {:induction false} StreamRouted(s: Stream, sizes: seq<nat>)
    requires Consistent(s) && AllProper(s, sizes)
    ensures var left, e := AfterAll(s, sizes), HandleAll(Tables(Pending(s), []), s, sizes);
      && |left.ms| <= |s.ms| && e.given == Groups(s.ms[..|s.ms| - |left.ms|])
      && e.closed == [] && e.tables == Tables(Pending(left), [])
    decreases |sizes|
  {
    hide Handle, Proper, Completed, Group, After;
    if sizes != [] {
      var n, s' := sizes[0], After(s, sizes[0]);
      ReadRouted(s, n);
      AfterDrops(s, n);
      StreamRouted(s', sizes[1..]);
      var k, left := Completed(s, n), AfterAll(s, sizes);
      var all := |s.ms| - |left.ms|;
      GroupsSplit(s.ms, k, all);
    }
  }
}
