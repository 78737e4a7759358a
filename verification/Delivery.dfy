/** The receiving side as a whole: framing, routing of descriptors, slots and arguments together. */
module Delivery {
  import opened Bytes
  import opened Codec
  import opened Args
  import B = Buffer
  import F = Frames
  import R = RxTables
  import X = Fixup

  /** A message: its identifier, its arguments as the sender wrote them, and the descriptors for its slots, as they
      are numbered on the receiving side. */
  datatype Letter = Letter(msgid: u32, args: seq<Arg>, fds: seq<R.Fd>)

  predicate Good(l: Letter) {
    && Encodable(l.args) && Slots(l.args) == |l.fds| <= MAX_FD_COUNT && X.Valid(l.fds)
    && 12 + |Flat(l.args)| <= B.MAX_SIZE
  }

  predicate AllGood(ls: seq<Letter>) {
    forall i | 0 <= i < |ls| :: Good(ls[i])
  }

  /** The bytes of a message in the stream. */
  function Wire(l: Letter): seq<byte>
    requires Good(l)
  {
    F.Frame(l.msgid, Flat(l.args))
  }

  function Wires(ls: seq<Letter>): (r: seq<seq<byte>>)
    requires AllGood(ls)
    ensures |r| == |ls|
  {
    seq(|ls|, i requires 0 <= i < |ls| => Wire(ls[i]))
  }

  /** What the routing of descriptors sees of them. */
  function Posted(ls: seq<Letter>): (r: seq<R.Sent>)
    requires AllGood(ls)
    ensures |r| == |ls|
  {
    seq(|ls|, i requires 0 <= i < |ls| => R.Sent(|Wire(ls[i])|, ls[i].fds))
  }

  function Start(ls: seq<Letter>): (s: R.Stream)
    requires AllGood(ls)
    ensures R.Consistent(s)
  {
    R.Stream(Posted(ls), 0)
  }

  function Lengths(chunks: seq<seq<byte>>): (r: seq<nat>)
    ensures |r| == |chunks|
  {
    seq(|chunks|, i requires 0 <= i < |chunks| => |chunks[i]|)
  }

  // ----- Messages completed by the bytes so far -----

  lemma WireIsFrame(l: Letter)
    requires Good(l)
    ensures F.Deliverable(Wire(l)) && F.MsgId(Wire(l)) == l.msgid
  {
    F.FrameIsFrame(l.msgid, Flat(l.args));
  }

  /** Part of a message is not a message. */
  lemma PartIsSilent(f: seq<byte>, n: nat)
    requires F.Deliverable(f) && n < |f|
    ensures F.Scan(f[..n]) == []
  {
    hide F.Scan, F.Decode;
    var part := f[..n];
    var c := F.Decode(F.Hunting(0), part);
    F.DecodeFirst(part);
    if c.msg.Some? {
      F.DecodeStops(F.Hunting(0), part, f[n..]);
      assert part + f[n..] == f;
      F.DecodeWhole(f);
      F.ScanShorter(part[..c.used]);
    }
  }

  lemma WiresHead(ls: seq<Letter>)
    requires AllGood(ls) && ls != []
    ensures AllGood(ls[1..]) && Wires(ls)[0] == Wire(ls[0]) && Wires(ls)[1..] == Wires(ls[1..])
    ensures Posted(ls)[0] == R.Sent(|Wire(ls[0])|, ls[0].fds) && Posted(ls)[1..] == Posted(ls[1..])
  {
    hide Wire, Good;
  }

  /** The message of a letter, as the decoder gives it. */
  function Found(l: Letter): F.Message
    requires Good(l)
  {
    F.Message(l.msgid, Wire(l))
  }

  /** The first bytes of the stream hold exactly the messages that end in them. */
  lemma {:induction false} ScanStart(ls: seq<Letter>, n: nat)
    requires AllGood(ls) && n <= |Flatten(Wires(ls))|
    ensures
      var k, found := R.Completed(Start(ls), n), F.Scan(Flatten(Wires(ls))[..n]);
      |found| == k && forall i | 0 <= i < k :: found[i] == Found(ls[i])
    decreases |ls|
  {
    hide F.Scan, Wire, Good;
    var s := Flatten(Wires(ls));
    if ls == [] {
      NothingFound();
      assert s[..n] == [];
    } else {
      WiresHead(ls);
      WireIsFrame(ls[0]);
      var f, rest := Wire(ls[0]), Flatten(Wires(ls[1..]));
      assert s == f + rest;
      if n < |f| {
        PartIsSilent(f, n);
        assert s[..n] == f[..n];
      } else {
        ScanStart(ls[1..], n - |f|);
        F.ScanFrame(f, rest[..n - |f|]);
        assert s[..n] == f + rest[..n - |f|];
      }
    }
  }

  lemma NothingFound()
    ensures F.Scan([]) == []
  {
  }

  // ----- One message -----

  /** The message is the letter, and is given to the user: same identifier, the descriptors of the letter for its
      slots, and, once they are filled, an argument list that reads back whole, with the descriptors of this side. */
  predicate Arrives(m: F.Message, given: seq<R.Fd>, l: Letter)
    requires Good(l)
  {
    && m.msgid == l.msgid && given == l.fds
    && X.SlotsMet(Msg(m.bytes, []), 12) == |given| && X.Delivered(m.bytes, |given|)
    && var filled := X.FillSlots(Msg(m.bytes, []), 12, given);
       ReadAll(ReaderOf(filled), 12, Kinds(l.args)) == Read(X.Renumber(l.args, l.fds), |filled.data|)
  }

  lemma {:induction false} RenumberKinds(args: seq<Arg>, fds: seq<int>)
    requires Slots(args) == |fds|
    ensures Kinds(X.Renumber(args, fds)) == Kinds(args)
  {
    if args != [] {
      var tail := if args[0].Descriptor? then fds[1..] else fds;
      RenumberKinds(args[1..], tail);
      var r := X.Renumber(args, fds);
      assert r[1..] == X.Renumber(args[1..], tail);
      forall i | 0 <= i < |args|
        ensures r[i].Kind() == args[i].Kind()
      {
        if i > 0 {
          assert r[i] == r[1..][i - 1] && args[i] == args[1..][i - 1];
          assert Kinds(r[1..])[i - 1] == Kinds(args[1..])[i - 1];
        }
      }
    }
  }

  lemma LetterArrives(l: Letter)
    requires Good(l)
    ensures Arrives(Found(l), l.fds, l)
  {
    hide X.FillSlots, X.Renumber, ReadAll, IsEncodable;
    var header := Msg(Wire(l)[..12], []);
    assert Wire(l) == header.data + Flat(l.args);
    assert X.Arrived(header, l.args) == Msg(Wire(l), []);
    X.FixupDelivers(header, l.args, l.fds);
    X.SenderWalk(header, l.args, |l.fds|);
    var args := X.Renumber(l.args, l.fds);
    RenumberKinds(l.args, l.fds);
    ListRoundTrip(header, args, |args|);
    assert args[..|args|] == args;
  }

  /** What a message of any bytes takes from the tables is what its release will find in them: conservation of
      descriptors reaches the bytes, also of messages that are malformed or short of descriptors. */
  lemma HeldInBytes(t: R.Tables, bytes: seq<byte>)
    requires R.Ready(t) && X.Valid(t.current)
    ensures
      var m := Msg(bytes, []);
      var filled := X.FillSlots(m, 12, t.current);
      R.Fixup(t, X.SlotsMet(m, 12)).given == [B.Owned(filled.data, filled.fdoffs)]
  {
    X.ReleaseCloses(bytes, t.current);
    var slots := X.SlotsMet(Msg(bytes, []), 12);
    assert slots == 0 ==> X.Served(slots, t.current) == [];
    assert slots >= |t.current| ==> t.current[..|t.current|] == t.current;
  }

  // ----- All the reads -----

  lemma {:induction false} AfterTwice(s: R.Stream, a: nat, b: nat)
    requires R.Consistent(s)
    ensures R.After(R.After(s, a), b) == R.After(s, a + b)
    decreases |s.ms|
  {
    if s.ms != [] && a >= s.ms[0].len - s.got {
      AfterTwice(R.Stream(s.ms[1..], 0), a - (s.ms[0].len - s.got), b);
    }
  }

  /** Several reads advance in the stream as one read of all their bytes. */
  lemma {:induction false} AfterReads(s: R.Stream, chunks: seq<seq<byte>>)
    requires R.Consistent(s)
    ensures R.AfterAll(s, Lengths(chunks)) == R.After(s, |Flatten(chunks)|)
    decreases |chunks|
  {
    if chunks == [] {
      AfterNothing(s);
    } else {
      hide R.After;
      assert Lengths(chunks)[1..] == Lengths(chunks[1..]);
      AfterReads(R.After(s, |chunks[0]|), chunks[1..]);
      AfterTwice(s, |chunks[0]|, |Flatten(chunks[1..])|);
    }
  }

  lemma AfterNothing(s: R.Stream)
    requires R.Consistent(s)
    ensures R.After(s, 0) == s
  {
  }

  /** For every list of messages, and every way the stream that carries them is cut into reads each holding the
      descriptors of at most one message: the messages decoded so far are the first ones sent, in order, each with
      its own descriptors, and each reads back whole. */
  lemma EverySplitDelivers(ls: seq<Letter>, chunks: seq<seq<byte>>)
    requires AllGood(ls) && Flatten(chunks) <= Flatten(Wires(ls)) && R.AllProper(Start(ls), Lengths(chunks))
    ensures
      var msgs := F.Scan(Flatten(chunks));
      var e := R.HandleAll(R.Tables([], []), Start(ls), Lengths(chunks));
      && |msgs| == |e.given| <= |ls| && e.closed == []
      && forall i | 0 <= i < |msgs| :: Arrives(msgs[i], e.given[i], ls[i])
  {
    hide F.Scan, Arrives, AllGood, R.HandleAll, R.AllProper, R.After, R.AfterAll, R.Completed, R.Groups, Start;
    hide Found, Flatten, Wires, Lengths;
    var n := |Flatten(chunks)|;
    var s := Start(ls);
    assert Flatten(chunks) == Flatten(Wires(ls))[..n];
    ScanStart(ls, n);
    StartIs(ls);
    R.StreamRouted(s, Lengths(chunks));
    AfterReads(s, chunks);
    R.AfterDrops(s, n);
    var k := R.Completed(s, n);
    GroupsAre(ls, k);
    forall i | 0 <= i < k
      ensures Arrives(Found(ls[i]), ls[i].fds, ls[i])
    {
      LetterArrives(ls[i]);
    }
  }

  lemma StartIs(ls: seq<Letter>)
    requires AllGood(ls)
    ensures Start(ls) == R.Stream(Posted(ls), 0) && R.Pending(Start(ls)) == []
  {
  }

  lemma GroupsAre(ls: seq<Letter>, k: nat)
    requires AllGood(ls) && k <= |ls|
    ensures forall i | 0 <= i < k :: Good(ls[i]) && R.Groups(Posted(ls)[..k])[i] == ls[i].fds
  {
    hide Wire, Good;
  }

  /** Once the whole stream has been read, every message has arrived. */
  lemma AllDelivered(ls: seq<Letter>, chunks: seq<seq<byte>>)
    requires AllGood(ls) && Flatten(chunks) == Flatten(Wires(ls)) && R.AllProper(Start(ls), Lengths(chunks))
    ensures
      var msgs := F.Scan(Flatten(chunks));
      var e := R.HandleAll(R.Tables([], []), Start(ls), Lengths(chunks));
      && |msgs| == |e.given| == |ls| && e.closed == [] && e.tables == R.Tables([], [])
      && forall i | 0 <= i < |ls| :: Arrives(msgs[i], e.given[i], ls[i])
  {
    EverySplitDelivers(ls, chunks);
    WholeStream(ls);
    hide F.Scan, Arrives, Good, R.HandleAll, R.AllProper, R.After, R.AfterAll;
    var s := Start(ls);
    ScanStart(ls, |Flatten(chunks)|);
    assert Flatten(chunks)[..|Flatten(chunks)|] == Flatten(chunks);
    R.StreamRouted(s, Lengths(chunks));
    AfterReads(s, chunks);
  }

  lemma {:induction false} WholeStream(ls: seq<Letter>)
    requires AllGood(ls)
    ensures R.Completed(Start(ls), |Flatten(Wires(ls))|) == |ls|
    ensures R.After(Start(ls), |Flatten(Wires(ls))|) == R.Stream([], 0)
  {
    hide Wire, Good;
    if ls != [] {
      WiresHead(ls);
      WholeStream(ls[1..]);
    }
  }
}
