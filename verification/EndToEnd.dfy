/** From the sends of one side to the messages of the other: what a session puts on the wire, read in any proper way,
    delivers what its sends were given. */
module EndToEnd {
  import opened Bytes
  import opened Args
  import opened WriteQueue
  import S = SendSpec
  import F = Frames
  import R = RxTables
  import X = Fixup
  import opened Delivery

  /** The numbers that the receiving system gives to the descriptors attached to a byte of the stream. */
  type Renumbering = nat -> seq<R.Fd>

  /** A buffer made of a message: its bytes, and the descriptors written in it. */
  predicate Carries(b: Buffer, l: Letter) {
    Good(l) && b.data == Wire(l) && b.fds == X.FdsOf(l.args)
  }

  predicate AllCarry(bufs: seq<Buffer>, ls: seq<Letter>): (r: bool)
    ensures r ==> |bufs| == |ls| && AllGood(ls)
  {
    |bufs| == |ls| && forall i | 0 <= i < |bufs| :: Carries(bufs[i], ls[i])
  }

  function Offset(bufs: seq<Buffer>, k: nat): nat
    requires k <= |bufs|
  {
    |Content(bufs[..k])|
  }

  /** The descriptors of each message are those that the system made of the group of its buffer. */
  predicate Renumbers(bufs: seq<Buffer>, ls: seq<Letter>, received: Renumbering)
    requires |bufs| == |ls|
  {
    forall i | 0 <= i < |bufs| && bufs[i].fds != [] :: ls[i].fds == received(Offset(bufs, i))
  }

  // ----- Positions in the stream -----

  lemma {:induction false} ContentIs(bufs: seq<Buffer>, ls: seq<Letter>)
    requires AllCarry(bufs, ls)
    ensures Content(bufs) == Flatten(Wires(ls))
  {
    hide Wire, Good;
    if bufs != [] {
      var n := |bufs| - 1;
      ContentIs(bufs[..n], ls[..n]);
      assert Wires(ls) == Wires(ls[..n]) + [Wire(ls[n])];
      FlattenAppend(Wires(ls[..n]), Wire(ls[n]));
    }
  }

  lemma OffsetNext(bufs: seq<Buffer>, ls: seq<Letter>, k: nat)
    requires AllCarry(bufs, ls) && k < |bufs|
    ensures Good(ls[k]) && Offset(bufs, k + 1) == Offset(bufs, k) + |Wire(ls[k])| && |Wire(ls[k])| > 0
  {
    ContentNext(bufs, k);
  }

  lemma {:induction false} OffsetGrows(bufs: seq<Buffer>, i: nat, j: nat)
    requires i <= j <= |bufs|
    ensures Offset(bufs, i) <= Offset(bufs, j)
  {
    ContentGrows(bufs, i, j);
  }

  /** The stream from message `k` on. */
  function Rest(ls: seq<Letter>, k: nat): (s: R.Stream)
    requires AllGood(ls) && k <= |ls|
    ensures R.Consistent(s)
  {
    var rest := Posted(ls)[k..];
    assert forall i | 0 <= i < |rest| :: rest[i] == Posted(ls)[k + i];
    R.Stream(rest, 0)
  }

  lemma RestHead(ls: seq<Letter>, k: nat)
    requires AllGood(ls) && k < |ls|
    ensures
      var s := Rest(ls, k);
      && s.got == 0 && s.ms != [] && s.ms[0] == R.Sent(|Wire(ls[k])|, ls[k].fds)
      && R.Stream(s.ms[1..], 0) == Rest(ls, k + 1)
  {
    assert Posted(ls)[k..][1..] == Posted(ls)[k + 1..];
  }

  /** `j` messages are complete after `p` bytes. */
  predicate Between(bufs: seq<Buffer>, j: nat, p: nat): (r: bool)
    ensures r ==> j <= |bufs| && Offset(bufs, j) <= p
  {
    j <= |bufs| && Offset(bufs, j) <= p && (j < |bufs| ==> p < Offset(bufs, j + 1))
  }

  /** The stream after `p` bytes, the last of which are of message `j`. */
  function Standing(bufs: seq<Buffer>, ls: seq<Letter>, j: nat, p: nat): R.Stream
    requires AllGood(ls) && j <= |ls| == |bufs| && Offset(bufs, j) <= p
  {
    Rest(ls, j).(got := p - Offset(bufs, j))
  }

  predicate StandsAt(bufs: seq<Buffer>, ls: seq<Letter>, s: R.Stream, j: nat, p: nat)
    requires AllGood(ls) && |ls| == |bufs|
  {
    Between(bufs, j, p) && s == Standing(bufs, ls, j, p)
  }

  /** Where the stream stands after `n` more bytes, seen from message `k` on. */
  lemma {:induction false} StandsFrom(bufs: seq<Buffer>, ls: seq<Letter>, k: nat, n: nat)
    requires AllCarry(bufs, ls) && k <= |bufs| && Offset(bufs, k) + n <= Offset(bufs, |bufs|)
    ensures StandsAt(bufs, ls, R.After(Rest(ls, k), n), k + R.Completed(Rest(ls, k), n), Offset(bufs, k) + n)
    decreases |bufs| - k
  {
    hide Wire, Good, Offset, AllCarry, Rest;
    if k < |bufs| {
      OffsetNext(bufs, ls, k);
      RestHead(ls, k);
      if n >= |Wire(ls[k])| {
        StandsFrom(bufs, ls, k + 1, n - |Wire(ls[k])|);
      }
    } else {
      RestEnd(ls);
    }
  }

  lemma RestEnd(ls: seq<Letter>)
    requires AllGood(ls)
    ensures Rest(ls, |ls|) == R.Stream([], 0) && Rest(ls, 0) == Start(ls)
  {
    assert Posted(ls)[0..] == Posted(ls);
  }

  lemma {:induction false} OneBetween(bufs: seq<Buffer>, i: nat, j: nat, p: nat)
    requires Between(bufs, i, p) && Between(bufs, j, p)
    ensures i == j
  {
    hide Offset;
    if i < j {
      OffsetGrows(bufs, i + 1, j);
    } else if j < i {
      OffsetGrows(bufs, j + 1, i);
    }
  }

  // ----- Descriptors in the stream -----

  /** What comes with a read of these bytes of the stream: the groups attached to them. */
  function Carried(ancillary: seq<Ancillary>, from: nat, to: nat): seq<Ancillary> {
    if ancillary == [] then []
    else
      var n := |ancillary| - 1;
      var before := Carried(ancillary[..n], from, to);
      if from <= ancillary[n].at < to then before + [ancillary[n]] else before
  }

  function HandedOver(groups: seq<Ancillary>, received: Renumbering): seq<R.Fd> {
    if groups == [] then []
    else HandedOver(groups[..|groups| - 1], received) + received(groups[|groups| - 1].at)
  }

  /** The descriptors of one buffer, if its first byte is before `to`. */
  function FdsAt(bufs: seq<Buffer>, received: Renumbering, k: nat, to: nat): seq<R.Fd>
    requires k < |bufs|
  {
    if bufs[k].fds == [] || Offset(bufs, k) >= to then [] else received(Offset(bufs, k))
  }

  function FdsIn(bufs: seq<Buffer>, received: Renumbering, a: nat, b: nat, to: nat): seq<R.Fd>
    requires a <= b <= |bufs|
    decreases b - a
  {
    if a == b then [] else FdsAt(bufs, received, a, to) + FdsIn(bufs, received, a + 1, b, to)
  }

  lemma {:induction false} FdsLast(bufs: seq<Buffer>, received: Renumbering, a: nat, b: nat, to: nat)
    requires a <= b < |bufs|
    ensures FdsIn(bufs, received, a, b + 1, to) == FdsIn(bufs, received, a, b, to) + FdsAt(bufs, received, b, to)
    decreases b - a
  {
    hide FdsAt;
    if a < b {
      FdsLast(bufs, received, a + 1, b, to);
    }
  }

  lemma {:induction false} NoneBeyond(bufs: seq<Buffer>, received: Renumbering, a: nat, b: nat, to: nat)
    requires a <= b <= |bufs| && Offset(bufs, a) >= to
    ensures FdsIn(bufs, received, a, b, to) == []
    decreases b - a
  {
    if a < b {
      ContentGrows(bufs, a, a + 1);
      NoneBeyond(bufs, received, a + 1, b, to);
    }
  }

  /** The groups attached to some bytes are those of the buffers that begin there. */
  lemma {:induction false} CarriedIs(bufs: seq<Buffer>, received: Renumbering, m: nat, w: nat,
                                     from: nat, to: nat, k: nat)
    requires m <= |bufs| && k <= |bufs| && to <= w
    requires k < |bufs| ==> from <= Offset(bufs, k)
    requires k > 0 ==> Offset(bufs, k - 1) < from
    ensures HandedOver(Carried(Attached(bufs, m, w), from, to), received) ==
      if k <= m then FdsIn(bufs, received, k, m, to) else []
  {
    hide Offset, Carried, HandedOver, Attached, FdsIn, FdsAt;
    if m == 0 {
      NothingCarried(bufs, received, w, from, to);
    } else {
      CarriedIs(bufs, received, m - 1, w, from, to, k);
      CarriedNext(bufs, received, m - 1, w, from, to);
      if m - 1 < k {
        OffsetGrows(bufs, m - 1, k - 1);
        NoFds(bufs, received, k, to);
      } else {
        OffsetGrows(bufs, k, m - 1);
        FdsLast(bufs, received, k, m - 1, to);
      }
    }
  }

  lemma CarriedNext(bufs: seq<Buffer>, received: Renumbering, m: nat, w: nat, from: nat, to: nat)
    requires m < |bufs| && to <= w
    ensures HandedOver(Carried(Attached(bufs, m + 1, w), from, to), received) ==
      HandedOver(Carried(Attached(bufs, m, w), from, to), received)
      + if from <= Offset(bufs, m) then FdsAt(bufs, received, m, to) else []
  {
    hide Offset, Carried, HandedOver, Attached;
    AttachedLast(bufs, m, w);
    OneMore(Attached(bufs, m, w), Ancillary(Offset(bufs, m), bufs[m].fds), received, from, to);
  }

  lemma NothingCarried(bufs: seq<Buffer>, received: Renumbering, w: nat, from: nat, to: nat)
    ensures HandedOver(Carried(Attached(bufs, 0, w), from, to), received) == [] == FdsIn(bufs, received, 0, 0, to)
  {
  }

  lemma NoFds(bufs: seq<Buffer>, received: Renumbering, k: nat, to: nat)
    requires k <= |bufs|
    ensures FdsIn(bufs, received, k, k, to) == []
  {
  }

  lemma AttachedLast(bufs: seq<Buffer>, m: nat, w: nat)
    requires m < |bufs|
    ensures
      var before, at := Attached(bufs, m, w), Offset(bufs, m);
      Attached(bufs, m + 1, w) ==
        if bufs[m].fds == [] || at >= w then before else before + [Ancillary(at, bufs[m].fds)]
  {
  }

  lemma OneMore(ancillary: seq<Ancillary>, a: Ancillary, received: Renumbering, from: nat, to: nat)
    ensures HandedOver(Carried(ancillary + [a], from, to), received) ==
      HandedOver(Carried(ancillary, from, to), received) + if from <= a.at < to then received(a.at) else []
  {
    assert (ancillary + [a])[..|ancillary|] == ancillary;
    var before := Carried(ancillary, from, to);
    assert (before + [a])[..|before|] == before;
  }

  /** The group of a read that begins with a message. */
  lemma {:induction false} GroupFrom(bufs: seq<Buffer>, ls: seq<Letter>, received: Renumbering, k: nat, n: nat)
    requires AllCarry(bufs, ls) && Renumbers(bufs, ls, received) && k <= |bufs|
    requires R.Proper(Rest(ls, k), n)
    ensures R.Group(Rest(ls, k), n) == FdsIn(bufs, received, k, |bufs|, Offset(bufs, k) + n)
    decreases |bufs| - k
  {
    hide Offset, AllCarry, Wire, Good, X.FdsOf, Rest, R.Group, R.Proper, FdsIn;
    var to := Offset(bufs, k) + n;
    if n == 0 {
      NoGroup(Rest(ls, k), n);
      NoneBeyond(bufs, received, k, |bufs|, to);
    } else if k < |bufs| {
      OffsetNext(bufs, ls, k);
      SameGroups(bufs, ls, k);
      RestHead(ls, k);
      GroupHead(Rest(ls, k), n);
      FdsFirst(bufs, received, k, to);
      if n <= |Wire(ls[k])| {
        NoneBeyond(bufs, received, k + 1, |bufs|, to);
      } else {
        GroupFrom(bufs, ls, received, k + 1, n - |Wire(ls[k])|);
      }
    } else {
      RestEnd(ls);
      NoGroup(Rest(ls, k), n);
      NoFds(bufs, received, k, to);
    }
  }

  lemma NoGroup(s: R.Stream, n: nat)
    requires R.Consistent(s) && (n == 0 || s.ms == [])
    ensures R.Group(s, n) == []
  {
  }

  lemma GroupHead(s: R.Stream, n: nat)
    requires R.Consistent(s) && s.got == 0 && s.ms != [] && n > 0 && R.Proper(s, n)
    ensures
      var m, rest := s.ms[0], R.Stream(s.ms[1..], 0);
      && R.Consistent(rest)
      && (n > m.len ==> m.fds == [] && R.Proper(rest, n - m.len))
      && R.Group(s, n) == if n <= m.len then m.fds else R.Group(rest, n - m.len)
  {
  }

  lemma FdsFirst(bufs: seq<Buffer>, received: Renumbering, k: nat, to: nat)
    requires k < |bufs|
    ensures FdsIn(bufs, received, k, |bufs|, to) ==
      FdsAt(bufs, received, k, to) + FdsIn(bufs, received, k + 1, |bufs|, to)
  {
  }

  lemma {:induction false} FdsAreSlots(args: seq<Codec.Arg>)
    ensures |X.FdsOf(args)| == Slots(args)
  {
    if args != [] {
      var n := |args| - 1;
      FdsAreSlots(args[..n]);
      SlotsLast(args);
    }
  }

  lemma {:induction false} SlotsLast(args: seq<Codec.Arg>)
    requires args != []
    ensures Slots(args) == Slots(args[..|args| - 1]) + if args[|args| - 1].Descriptor? then 1 else 0
  {
    if |args| > 1 {
      SlotsLast(args[1..]);
      assert args[1..][..|args| - 2] == args[..|args| - 1][1..];
    } else {
      assert args[1..] == [] && args[..0] == [];
    }
  }

  lemma SameGroups(bufs: seq<Buffer>, ls: seq<Letter>, k: nat)
    requires AllCarry(bufs, ls) && k < |bufs|
    ensures bufs[k].fds == [] <==> ls[k].fds == []
  {
    FdsAreSlots(ls[k].args);
  }

  /** A proper read from any point brings exactly the group that the routing of descriptors expects. */
  lemma GroupIsCarried(bufs: seq<Buffer>, ls: seq<Letter>, received: Renumbering, w: nat, p: nat, n: nat)
    requires AllCarry(bufs, ls) && Renumbers(bufs, ls, received)
    requires 0 < n && p + n <= w <= Offset(bufs, |bufs|) && R.Proper(R.After(Start(ls), p), n)
    ensures R.Group(R.After(Start(ls), p), n) ==
      HandedOver(Carried(Attached(bufs, |bufs|, w), p, p + n), received)
  {
    hide AllCarry, Wire, Good, Attached, HandedOver, Carried, FdsIn, Renumbers, Offset, Rest, Start, R.Completed;
    hide R.After;
    StartsAt(bufs, ls, p);
    var k := R.Completed(Start(ls), p);
    var s := R.After(Start(ls), p);
    if s.got == 0 {
      if k > 0 {
        OffsetNext(bufs, ls, k - 1);
      }
      RestGot(ls, k);
      GroupFrom(bufs, ls, received, k, n);
      CarriedIs(bufs, received, |bufs|, w, p, p + n, k);
    } else {
      OffsetNext(bufs, ls, k);
      RestHead(ls, k);
      CarriedIs(bufs, received, |bufs|, w, p, p + n, k + 1);
      if p + n <= Offset(bufs, k + 1) {
        NoneBeyond(bufs, received, k + 1, |bufs|, p + n);
        assert R.Group(s, n) == [];
      } else {
        GroupFrom(bufs, ls, received, k + 1, p + n - Offset(bufs, k + 1));
      }
    }
  }

  lemma RestGot(ls: seq<Letter>, k: nat)
    requires AllGood(ls) && k <= |ls|
    ensures Rest(ls, k).got == 0
  {
  }

  lemma OffsetStart(bufs: seq<Buffer>)
    ensures Offset(bufs, 0) == 0
  {
  }

  lemma StartsAt(bufs: seq<Buffer>, ls: seq<Letter>, p: nat)
    requires AllCarry(bufs, ls) && p <= Offset(bufs, |bufs|)
    ensures StandsAt(bufs, ls, R.After(Start(ls), p), R.Completed(Start(ls), p), p)
  {
    hide AllCarry, AllGood, Rest, Start, StandsAt, R.After, R.Completed, Offset;
    OffsetStart(bufs);
    RestEnd(ls);
    StandsFrom(bufs, ls, 0, p);
  }

  // ----- The reads -----

  /** The reads of the stream from byte `p` on, each with the groups attached to its bytes. */
  function HandleWire(t: R.Tables, s: R.Stream, ancillary: seq<Ancillary>, received: Renumbering,
                      p: nat, sizes: seq<nat>): R.Effect
    requires R.Consistent(s)
    decreases |sizes|
  {
    if sizes == [] then R.Effect(t, [], [])
    else
      var n, s' := sizes[0], R.After(s, sizes[0]);
      var fds := HandedOver(Carried(ancillary, p, p + n), received);
      var e := R.Handle(t, fds, R.Slots(s.ms[..R.Completed(s, n)]), s'.got > 0);
      R.Join(e, HandleWire(e.tables, s', ancillary, received, p + n, sizes[1..]))
  }

  function Sum(sizes: seq<nat>): nat {
    if sizes == [] then 0 else sizes[0] + Sum(sizes[1..])
  }

  lemma {:induction false} WireHandled(t: R.Tables, bufs: seq<Buffer>, ls: seq<Letter>, received: Renumbering,
                                       w: nat, p: nat, sizes: seq<nat>)
    requires AllCarry(bufs, ls) && Renumbers(bufs, ls, received)
    requires p + Sum(sizes) <= w <= Offset(bufs, |bufs|) && R.AllProper(R.After(Start(ls), p), sizes)
    ensures HandleWire(t, R.After(Start(ls), p), Attached(bufs, |bufs|, w), received, p, sizes) ==
      R.HandleAll(t, R.After(Start(ls), p), sizes)
    decreases |sizes|
  {
    hide AllCarry, AllGood, Renumbers, Offset, Attached, HandedOver, Carried, R.Group, R.Proper, R.After, R.Handle;
    hide R.Completed;
    if sizes != [] {
      var n, s := sizes[0], R.After(Start(ls), p);
      GroupIsCarried(bufs, ls, received, w, p, n);
      AfterTwice(Start(ls), p, n);
      var e := R.Handle(t, R.Group(s, n), R.Slots(s.ms[..R.Completed(s, n)]), R.After(s, n).got > 0);
      WireHandled(e.tables, bufs, ls, received, w, p + n, sizes[1..]);
    }
  }

  lemma {:induction false} SumLengths(chunks: seq<seq<byte>>)
    ensures Sum(Lengths(chunks)) == |Flatten(chunks)|
  {
    if chunks != [] {
      SumLengths(chunks[1..]);
      assert Lengths(chunks)[1..] == Lengths(chunks[1..]);
    }
  }

  lemma HistoryAt(bufs: seq<Buffer>, ls: seq<Letter>, done: nat, wire: seq<byte>, ancillary: seq<Ancillary>)
    requires AllCarry(bufs, ls) && StreamHistory(bufs, done, wire, ancillary)
    ensures |wire| <= Offset(bufs, |bufs|) && Between(bufs, done, |wire|)
  {
    hide Content, Attached, Wire, X.FdsOf;
    assert bufs[..|bufs|] == bufs;
    if done < |bufs| {
      OffsetNext(bufs, ls, done);
    }
  }

  /** The messages whole on the wire are those of the completed sends. */
  lemma CompletedSends(bufs: seq<Buffer>, ls: seq<Letter>, done: nat, wire: seq<byte>, ancillary: seq<Ancillary>)
    requires AllCarry(bufs, ls) && StreamHistory(bufs, done, wire, ancillary)
    ensures |wire| <= Offset(bufs, |bufs|) && R.Completed(Start(ls), |wire|) == done
  {
    hide AllCarry, AllGood, StreamHistory, Between, Offset;
    HistoryAt(bufs, ls, done, wire, ancillary);
    StartsAt(bufs, ls, |wire|);
    OneBetween(bufs, R.Completed(Start(ls), |wire|), done, |wire|);
  }

  /** A session, and its peer. Whatever happened on the sending side, and however what it put on the wire is then
      read, each read bringing the descriptors attached to its bytes and properly cut: the messages decoded are those
      of the sends completed, in order, each with its own descriptors, and each reads back whole. With a callback, a
      send was reported as sent if and only if its message has so arrived. */
  lemma SessionDelivers(isLocal: bool, hasSendCb: bool, ops: seq<S.Op>, ls: seq<Letter>, received: Renumbering,
                        chunks: seq<seq<byte>>)
    requires S.AllFeasible(ops)
    requires
      var s := S.ClosedSpec(S.RunOps(S.Fresh(isLocal, hasSendCb), ops));
      && AllCarry(s.accepted, ls) && Renumbers(s.accepted, ls, received)
      && Flatten(chunks) == s.wire && R.AllProper(Start(ls), Lengths(chunks))
    ensures
      var s := S.ClosedSpec(S.RunOps(S.Fresh(isLocal, hasSendCb), ops));
      var msgs := F.Scan(s.wire);
      var e := HandleWire(R.Tables([], []), Start(ls), s.ancillary, received, 0, Lengths(chunks));
      && |msgs| == |e.given| == |s.acceptedBy| <= |ls| && e.closed == []
      && (forall i | 0 <= i < |msgs| :: Arrives(msgs[i], e.given[i], ls[i]))
      && (hasSendCb ==>
            |s.notified| == |ls| && forall i | 0 <= i < |ls| :: s.notified[i].outcome == Sent <==> i < |msgs|)
  {
    var s := S.ClosedSpec(S.RunOps(S.Fresh(isLocal, hasSendCb), ops));
    S.SessionHistory(isLocal, hasSendCb, ops);
    HistoryDelivers(hasSendCb, s.accepted, s.acceptedBy, s.wire, s.ancillary, s.notified, ls, received, chunks);
  }

  lemma HistoryDelivers(hasSendCb: bool, accepted: seq<Buffer>, acceptedBy: seq<nat>, wire: seq<byte>,
                        ancillary: seq<Ancillary>, notified: seq<Notification>,
                        ls: seq<Letter>, received: Renumbering, chunks: seq<seq<byte>>)
    requires HistoryOk(hasSendCb, accepted, acceptedBy, wire, ancillary, notified)
    requires AllCarry(accepted, ls) && Renumbers(accepted, ls, received)
    requires Flatten(chunks) == wire && R.AllProper(Start(ls), Lengths(chunks))
    ensures
      var msgs := F.Scan(wire);
      var e := HandleWire(R.Tables([], []), Start(ls), ancillary, received, 0, Lengths(chunks));
      && |msgs| == |e.given| == |acceptedBy| <= |ls| && e.closed == []
      && (forall i | 0 <= i < |msgs| :: Arrives(msgs[i], e.given[i], ls[i]))
      && (hasSendCb ==>
            |notified| == |ls| && forall i | 0 <= i < |ls| :: notified[i].outcome == Sent <==> i < |msgs|)
  {
    hide AllCarry, AllGood, Renumbers, HandleWire, Arrives, HistoryOk;
    FromHistory(hasSendCb, accepted, acceptedBy, wire, ancillary, notified);
    MessagesArrive(accepted, ls, received, |acceptedBy|, wire, ancillary, chunks);
  }

  lemma FromHistory(hasSendCb: bool, accepted: seq<Buffer>, acceptedBy: seq<nat>, wire: seq<byte>,
                    ancillary: seq<Ancillary>, notified: seq<Notification>)
    requires HistoryOk(hasSendCb, accepted, acceptedBy, wire, ancillary, notified)
    ensures StreamHistory(accepted, |acceptedBy|, wire, ancillary)
    ensures hasSendCb ==>
      |notified| == |accepted| && forall i | 0 <= i < |accepted| :: notified[i].outcome == Sent <==> i < |acceptedBy|
  {
    hide StreamHistory;
  }

  lemma MessagesArrive(bufs: seq<Buffer>, ls: seq<Letter>, received: Renumbering, done: nat, wire: seq<byte>,
                       ancillary: seq<Ancillary>, chunks: seq<seq<byte>>)
    requires StreamHistory(bufs, done, wire, ancillary)
    requires AllCarry(bufs, ls) && Renumbers(bufs, ls, received)
    requires Flatten(chunks) == wire && R.AllProper(Start(ls), Lengths(chunks))
    ensures
      var msgs := F.Scan(wire);
      var e := HandleWire(R.Tables([], []), Start(ls), ancillary, received, 0, Lengths(chunks));
      && |msgs| == |e.given| == done <= |ls| && e.closed == []
      && (forall i | 0 <= i < |msgs| :: Arrives(msgs[i], e.given[i], ls[i]))
  {
    hide AllCarry, AllGood, Renumbers, Attached, HandleWire, Arrives, F.Scan, R.AllProper, R.HandleAll, R.Completed;
    hide Content, Offset, Start, Wires, Found, Sum, Lengths;
    CompletedSends(bufs, ls, done, wire, ancillary);
    ContentIs(bufs, ls);
    assert Flatten(Wires(ls))[..|wire|] == wire;
    ScanStart(ls, |wire|);
    EverySplitDelivers(ls, chunks);
    SumLengths(chunks);
    AfterNothing(Start(ls));
    WireHandled(R.Tables([], []), bufs, ls, received, |wire|, 0, Lengths(chunks));
  }
}
