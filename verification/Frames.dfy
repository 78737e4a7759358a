/** The stream framing of the protocol, as a byte automaton and as a scan of the whole stream. */
module Frames {
  import opened Wrappers
  import opened Bytes
  import B = Buffer

  const HEADER_SIZE := 12
  const MAGIC: seq<byte> := [0x50, 0x4f, 0x4d, 0x50]

  datatype Message = Message(msgid: u32, bytes: seq<byte>)

  function MsgId(header: seq<byte>): u32
    requires |header| >= 12
  {
    Word(header[4..8])
  }

  function Size(header: seq<byte>): u32
    requires |header| >= 12
  {
    Word(header[8..12])
  }

  /** What the decoder remembers between two bytes. */
  datatype Scanner =
    | Hunting(matched: nat)         // that many magic bytes seen
    | InHeader(header: seq<byte>)   // the magic and part of the header
    | InPayload(msgid: u32, size: u32, bytes: seq<byte>)  // a header and part of the payload
    | Swallowing                    // the payload of a message too long, which never completes

  predicate Sound(st: Scanner) {
    match st
    case Hunting(k) => k < 4
    case InHeader(h) => 4 <= |h| < 12
    case InPayload(_, size, b) => 12 <= |b| < size <= B.MAX_SIZE
    case Swallowing => true
  }

  datatype Fed = Fed(next: Scanner, msg: Option<Message>)

  /** One byte. A byte that breaks the magic is consumed and not looked at again. */
  function Feed(st: Scanner, b: byte): (r: Fed)
    requires Sound(st)
    ensures Sound(r.next)
    ensures r.msg.Some? ==> r.next == Hunting(0)
  {
    match st
    case Hunting(k) =>
      if b != MAGIC[k] then Fed(Hunting(0), None)
      else if k < 3 then Fed(Hunting(k + 1), None)
      else Fed(InHeader(MAGIC), None)
    case InHeader(h) =>
      if |h| < 11 then Fed(InHeader(h + [b]), None) else AfterHeader(h + [b])
    case InPayload(msgid, size, p) =>
      var p' := p + [b];
      if |p'| < size then Fed(InPayload(msgid, size, p'), None)
      else Fed(Hunting(0), Some(Message(msgid, p')))
    case Swallowing => Fed(Swallowing, None)
  }

  /** The decision taken on the twelfth byte of a header. */
  function AfterHeader(h: seq<byte>): (r: Fed)
    requires |h| == 12
    ensures Sound(r.next)
    ensures r.msg.Some? ==> r.next == Hunting(0)
  {
    if Size(h) < 12 then Fed(Hunting(0), None)
    else if Size(h) == 12 then Fed(Hunting(0), Some(Message(MsgId(h), h)))
    else if Size(h) > B.MAX_SIZE then Fed(Swallowing, None)
    else Fed(InPayload(MsgId(h), Size(h), h), None)
  }

  datatype Progress = Progress(next: Scanner, msgs: seq<Message>)

  /** The automaton over a whole stream. */
  function Run(st: Scanner, s: seq<byte>): (r: Progress)
    requires Sound(st)
    ensures Sound(r.next)
    decreases |s|
  {
    if s == [] then Progress(st, [])
    else
      var fed := Feed(st, s[0]);
      var rest := Run(fed.next, s[1..]);
      Progress(rest.next, Prepend(fed.msg, rest.msgs))
  }

  function Prepend(msg: Option<Message>, msgs: seq<Message>): seq<Message> {
    if msg.Some? then [msg.value] + msgs else msgs
  }

  datatype Call = Call(used: nat, next: Scanner, msg: Option<Message>)

  /** One decoding call: bytes are taken until a message completes or the input ends. */
  function Decode(st: Scanner, s: seq<byte>): (r: Call)
    requires Sound(st)
    ensures Sound(r.next) && r.used <= |s|
    ensures s != [] ==> r.used > 0
    ensures r.msg.None? ==> r.used == |s|
    ensures r.msg.Some? ==> r.next == Hunting(0)
    decreases |s|
  {
    if s == [] then Call(0, st, None)
    else
      var fed := Feed(st, s[0]);
      if fed.msg.Some? then Call(1, fed.next, fed.msg)
      else
        var rest := Decode(fed.next, s[1..]);
        rest.(used := rest.used + 1)
  }

  /** How many of the magic bytes the stream starts with. */
  function MagicPrefix(s: seq<byte>, k: nat): (n: nat)
    requires k <= 4
    ensures k <= n <= 4 && n <= k + |s|
    decreases 4 - k
  {
    if k < 4 && s != [] && s[0] == MAGIC[k] then MagicPrefix(s[1..], k + 1) else k
  }

  /** The greedy scan of a whole stream, by positions and not by states. */
  function Scan(s: seq<byte>): seq<Message>
    decreases |s|
  {
    var k := MagicPrefix(s, 0);
    if k < 4 then
      if |s| <= k then [] else Scan(s[k + 1..])
    else if |s| < 12 then []
    else if Size(s) < 12 then Scan(s[12..])
    else if Size(s) > B.MAX_SIZE || |s| < Size(s) then []
    else [Message(MsgId(s), s[..Size(s)])] + Scan(s[Size(s)..])
  }

  // ----- The automaton over pieces of a stream -----

  function Then(a: Progress, b: Progress): Progress {
    Progress(b.next, if a.msgs == [] then b.msgs else a.msgs + b.msgs)
  }

  lemma {:induction false} RunAppend(st: Scanner, a: seq<byte>, b: seq<byte>)
    requires Sound(st)
    ensures Run(st, a + b) == Then(Run(st, a), Run(Run(st, a).next, b))
    decreases |a|
  {
    if a == [] {
      assert a + b == b;
    } else {
      var fed := Feed(st, a[0]);
      var mid := Run(fed.next, a[1..]);
      var end := Run(mid.next, b);
      assert (a + b)[1..] == a[1..] + b;
      RunAppend(fed.next, a[1..], b);
      assert Run(st, a) == Progress(mid.next, Prepend(fed.msg, mid.msgs));
      assert Run(st, a + b) == Progress(end.next, Prepend(fed.msg, Then(mid, end).msgs));
      assert fed.msg.Some? ==> [fed.msg.value] + (mid.msgs + end.msgs) == [fed.msg.value] + mid.msgs + end.msgs;
    }
  }

  function Settled(fed: Fed): Progress {
    Progress(fed.next, Delivered(fed.msg))
  }

  function Delivered(msg: Option<Message>): seq<Message> {
    if msg.Some? then [msg.value] else []
  }

  /** A call reports exactly what the automaton does over the bytes it used. */
  lemma {:induction false} DecodeIsRun(st: Scanner, s: seq<byte>)
    requires Sound(st)
    ensures var c := Decode(st, s); Run(st, s[..c.used]) == Progress(c.next, Delivered(c.msg))
    decreases |s|
  {
    if s != [] {
      var fed := Feed(st, s[0]);
      var c := Decode(st, s);
      assert s[..c.used][1..] == s[1..][..c.used - 1];
      if fed.msg.None? {
        DecodeIsRun(fed.next, s[1..]);
      }
    }
  }

  lemma {:induction false} DecodeAppend(st: Scanner, a: seq<byte>, b: seq<byte>)
    requires Sound(st) && Run(st, a).msgs == []
    ensures var d := Decode(Run(st, a).next, b);
      Decode(st, a + b) == Call(|a| + d.used, d.next, d.msg)
    decreases |a|
  {
    if a == [] {
      assert a + b == b;
    } else {
      assert (a + b)[1..] == a[1..] + b;
      DecodeAppend(Feed(st, a[0]).next, a[1..], b);
    }
  }

  lemma {:induction false} DecodeStops(st: Scanner, a: seq<byte>, b: seq<byte>)
    requires Sound(st) && Decode(st, a).msg.Some?
    ensures Decode(st, a + b) == Decode(st, a)
    decreases |a|
  {
    assert (a + b)[1..] == a[1..] + b;
    if Feed(st, a[0]).msg.None? {
      DecodeStops(Feed(st, a[0]).next, a[1..], b);
    }
  }

  /** A byte that completes nothing only moves the automaton. */
  lemma RunSilent(st: Scanner, s: seq<byte>)
    requires Sound(st) && s != [] && Feed(st, s[0]).msg.None?
    ensures Run(st, s) == Run(Feed(st, s[0]).next, s[1..])
  {
    var rest := Run(Feed(st, s[0]).next, s[1..]);
    assert Run(st, s) == Progress(rest.next, rest.msgs);
  }

  lemma FeedHunting(k: nat, b: byte)
    requires k < 4
    ensures Feed(Hunting(k), b) ==
      Fed(if b != MAGIC[k] then Hunting(0) else if k < 3 then Hunting(k + 1) else InHeader(MAGIC), None)
  {
  }

  lemma {:induction false} RunHunting(s: seq<byte>, k: nat, n: nat)
    requires k < 4 && n == MagicPrefix(s, k)
    ensures n == 4 ==> Run(Hunting(k), s) == Run(InHeader(MAGIC), s[4 - k..])
    ensures n < 4 && |s| <= n - k ==> Run(Hunting(k), s) == Progress(Hunting(n), [])
    ensures n < 4 && |s| > n - k ==> Run(Hunting(k), s) == Run(Hunting(0), s[n - k + 1..])
    decreases |s|
  {
    if s != [] {
      FeedHunting(k, s[0]);
      RunSilent(Hunting(k), s);
      hide Run, Feed;
      if s[0] == MAGIC[k] && k < 3 {
        RunHunting(s[1..], k + 1, n);
        if n == 4 {
          assert s[1..][3 - k..] == s[4 - k..];
        } else if |s| > n - k {
          assert s[1..][n - k..] == s[n - k + 1..];
        }
      }
    }
  }

  lemma {:induction false} RunHeaderPart(h: seq<byte>, s: seq<byte>)
    requires Sound(InHeader(h)) && |h| + |s| < 12
    ensures Run(InHeader(h), s) == Progress(InHeader(h + s), [])
    decreases |s|
  {
    if s == [] {
      assert h + s == h;
    } else {
      var h' := h + [s[0]];
      assert Feed(InHeader(h), s[0]) == Fed(InHeader(h'), None);
      RunHeaderPart(h', s[1..]);
      assert h' + s[1..] == h + s;
    }
  }

  lemma {:induction false} DecodeHeaderEnd(h: seq<byte>, s: seq<byte>)
    requires Sound(InHeader(h)) && |h| + |s| == 12
    ensures var fed := AfterHeader(h + s); Decode(InHeader(h), s) == Call(|s|, fed.next, fed.msg)
    decreases |s|
  {
    if |s| == 1 {
      assert s == [s[0]];
      DecodeOne(InHeader(h), s[0]);
    } else {
      DecodeHeaderEnd(h + [s[0]], s[1..]);
      assert h + [s[0]] + s[1..] == h + s;
    }
  }

  lemma RunHeaderEnd(h: seq<byte>, s: seq<byte>)
    requires Sound(InHeader(h)) && |h| + |s| == 12
    ensures Run(InHeader(h), s) == Settled(AfterHeader(h + s))
  {
    DecodeHeaderEnd(h, s);
    DecodeIsRun(InHeader(h), s);
    assert s[..|s|] == s;
  }

  lemma {:induction false} RunPayloadPart(msgid: u32, size: u32, p: seq<byte>, s: seq<byte>)
    requires 12 <= |p| && |p| + |s| < size <= B.MAX_SIZE
    ensures Run(InPayload(msgid, size, p), s) == Progress(InPayload(msgid, size, p + s), [])
    decreases |s|
  {
    if s == [] {
      assert p + s == p;
    } else {
      RunPayloadPart(msgid, size, p + [s[0]], s[1..]);
      assert p + [s[0]] + s[1..] == p + s;
    }
  }

  lemma {:induction false} DecodePayloadEnd(msgid: u32, size: u32, p: seq<byte>, s: seq<byte>)
    requires 12 <= |p| < |p| + |s| == size <= B.MAX_SIZE
    ensures Decode(InPayload(msgid, size, p), s) == Call(|s|, Hunting(0), Some(Message(msgid, p + s)))
    decreases |s|
  {
    if |s| == 1 {
      assert s == [s[0]];
      DecodeOne(InPayload(msgid, size, p), s[0]);
    } else {
      DecodePayloadEnd(msgid, size, p + [s[0]], s[1..]);
      assert p + [s[0]] + s[1..] == p + s;
    }
  }

  lemma RunPayloadEnd(msgid: u32, size: u32, p: seq<byte>, s: seq<byte>)
    requires 12 <= |p| < |p| + |s| == size <= B.MAX_SIZE
    ensures Run(InPayload(msgid, size, p), s) == Progress(Hunting(0), [Message(msgid, p + s)])
  {
    DecodePayloadEnd(msgid, size, p, s);
    DecodeIsRun(InPayload(msgid, size, p), s);
    assert s[..|s|] == s;
  }

  lemma DecodeOne(st: Scanner, b: byte)
    requires Sound(st)
    ensures Decode(st, [b]) == Call(1, Feed(st, b).next, Feed(st, b).msg)
  {
    assert Decode(Feed(st, b).next, []) == Call(0, Feed(st, b).next, None);
  }

  lemma DecodeSilent(st: Scanner, s: seq<byte>)
    requires Sound(st) && Run(st, s).msgs == []
    ensures Decode(st, s) == Call(|s|, Run(st, s).next, None)
  {
    assert s + [] == s;
    DecodeAppend(st, s, []);
  }

  lemma {:induction false} MagicPrefixWhole(s: seq<byte>, k: nat)
    requires k <= 4
    ensures MagicPrefix(s, k) == 4 <==> |s| >= 4 - k && s[..4 - k] == MAGIC[k..]
    decreases 4 - k
  {
    if k < 4 && s != [] {
      MagicPrefixWhole(s[1..], k + 1);
      if |s| >= 4 - k {
        assert s[..4 - k] == [s[0]] + s[1..][..3 - k];
        assert MAGIC[k..] == [MAGIC[k]] + MAGIC[k + 1..];
      }
    }
  }

  lemma RunFrame(s: seq<byte>)
    requires |s| >= 12 && s[..4] == MAGIC
    ensures var fed := AfterHeader(s[..12]);
      Run(InHeader(MAGIC), s[4..]) == Then(Settled(fed), Run(fed.next, s[12..]))
  {
    assert s[4..] == s[4..12] + s[12..];
    RunAppend(InHeader(MAGIC), s[4..12], s[12..]);
    RunHeaderEnd(MAGIC, s[4..12]);
    assert MAGIC + s[4..12] == s[..12];
  }

  lemma RunBody(s: seq<byte>)
    requires |s| >= 12 && 12 < Size(s) <= B.MAX_SIZE
    ensures Run(InPayload(MsgId(s), Size(s), s[..12]), s[12..]) ==
      if |s| < Size(s) then Progress(InPayload(MsgId(s), Size(s), s), [])
      else Then(Progress(Hunting(0), [Message(MsgId(s), s[..Size(s)])]), Run(Hunting(0), s[Size(s)..]))
  {
    var st := InPayload(MsgId(s), Size(s), s[..12]);
    var n := Size(s);
    if |s| < n {
      RunPayloadPart(MsgId(s), n, s[..12], s[12..]);
      assert s[..12] + s[12..] == s;
    } else {
      assert s[12..] == s[12..n] + s[n..];
      RunAppend(st, s[12..n], s[n..]);
      RunPayloadEnd(MsgId(s), n, s[..12], s[12..n]);
      assert s[..12] + s[12..n] == s[..n];
    }
  }

  lemma {:induction false} RunSwallowing(s: seq<byte>)
    ensures Run(Swallowing, s) == Progress(Swallowing, [])
  {
    if s != [] {
      RunSwallowing(s[1..]);
    }
  }

  /** The byte automaton and the whole-stream scan find the same messages. */
  lemma {:induction false} RunIsScan(s: seq<byte>)
    ensures Run(Hunting(0), s).msgs == Scan(s)
    decreases |s|
  {
    hide Feed, Word;
    var k := MagicPrefix(s, 0);
    RunHunting(s, 0, k);
    MagicPrefixWhole(s, 0);
    if k < 4 {
      if |s| > k {
        RunIsScan(s[k + 1..]);
      }
    } else if |s| < 12 {
      RunHeaderPart(MAGIC, s[4..]);
    } else {
      RunFrame(s);
      assert s[..12][8..12] == s[8..12] && s[..12][4..8] == s[4..8];
      if Size(s) <= 12 {
        RunIsScan(s[12..]);
      } else if Size(s) > B.MAX_SIZE {
        RunSwallowing(s[12..]);
      } else {
        RunBody(s);
        if |s| >= Size(s) {
          RunIsScan(s[Size(s)..]);
        }
      }
    }
  }

  // ----- Frames and their scan -----

  /** The bytes of a finished message; the size field keeps the low 32 bits of the length. */
  function Frame(msgid: u32, payload: seq<byte>): (s: seq<byte>)
    ensures |s| == 12 + |payload|
  {
    MAGIC + ToLE(4, msgid) + ToLE(4, (12 + |payload|) % 0x1_0000_0000) + payload
  }

  /** A buffer that is one well-formed frame: magic, and a size field equal to its length. */
  predicate IsFrame(s: seq<byte>) {
    |s| >= 12 && s[..4] == MAGIC && Size(s) == |s|
  }

  /** Finishing a message yields a well-formed frame exactly when the length fits the size field. */
  lemma FrameIsFrame(msgid: u32, payload: seq<byte>)
    ensures MsgId(Frame(msgid, payload)) == msgid
    ensures IsFrame(Frame(msgid, payload)) <==> 12 + |payload| < 0x1_0000_0000
  {
    var f, n := Frame(msgid, payload), (12 + |payload|) % 0x1_0000_0000;
    assert f[4..8] == ToLE(4, msgid);
    assert f[8..12] == ToLE(4, n);
    WordRoundTrip(msgid);
    WordRoundTrip(n);
    assert n == 12 + |payload| <==> 12 + |payload| < 0x1_0000_0000;
  }

  /** A frame the decoder has room for: a greater size has no rounded capacity on 32 bits. */
  predicate Deliverable(f: seq<byte>) {
    IsFrame(f) && |f| <= B.MAX_SIZE
  }

  lemma ScanFrame(f: seq<byte>, rest: seq<byte>)
    requires Deliverable(f)
    ensures Scan(f + rest) == [Message(MsgId(f), f)] + Scan(rest)
  {
    FrameStart(f, rest);
    assert (f + rest)[..|f|] == f && (f + rest)[|f|..] == rest;
  }

  lemma FrameStart(f: seq<byte>, rest: seq<byte>)
    requires IsFrame(f)
    ensures var s := f + rest; MagicPrefix(s, 0) == 4 && Size(s) == |f| && MsgId(s) == MsgId(f)
  {
    var s := f + rest;
    assert s[..4] == f[..4] && s[4..8] == f[4..8] && s[8..12] == f[8..12];
    MagicPrefixWhole(s, 0);
  }

  /** A longer frame is lost, and with it everything that follows. */
  lemma LongFrameSwallows(f: seq<byte>, rest: seq<byte>)
    requires IsFrame(f) && !Deliverable(f)
    ensures Scan(f + rest) == []
  {
    FrameStart(f, rest);
  }

  lemma {:induction false} ScanShorter(s: seq<byte>)
    ensures forall m | m in Scan(s) :: |m.bytes| <= |s|
    decreases |s|
  {
    var k := MagicPrefix(s, 0);
    if k < 4 {
      if |s| > k {
        ScanShorter(s[k + 1..]);
      }
    } else if |s| >= 12 {
      if Size(s) < 12 {
        ScanShorter(s[12..]);
      } else if |s| >= Size(s) {
        ScanShorter(s[Size(s)..]);
      }
    }
  }

  lemma NotWhole(found: seq<Message>, s: seq<byte>, msgid: u32)
    requires forall m | m in found :: |m.bytes| < |s|
    ensures found != [Message(msgid, s)]
  {
    assert |found| == 1 ==> found[0] in found;
  }

  /** The scan returns the whole buffer exactly when the buffer is a frame the decoder has room for. */
  lemma ScanWhole(s: seq<byte>, msgid: u32)
    ensures Scan(s) == [Message(msgid, s)] <==> Deliverable(s) && MsgId(s) == msgid
  {
    var k := MagicPrefix(s, 0);
    MagicPrefixWhole(s, 0);
    if k < 4 {
      if |s| > k {
        ScanShorter(s[k + 1..]);
        NotWhole(Scan(s), s, msgid);
      }
    } else if |s| >= 12 {
      if Size(s) < 12 {
        ScanShorter(s[12..]);
        NotWhole(Scan(s), s, msgid);
      } else if |s| >= Size(s) && Size(s) <= B.MAX_SIZE {
        assert Scan(s)[0] == Message(MsgId(s), s[..Size(s)]);
        if Size(s) == |s| {
          assert s[..Size(s)] == s && s[Size(s)..] == [];
          assert Scan(s) == [Message(MsgId(s), s)] + Scan([]);
        }
      }
    }
  }

  /** A finished message survives the stream exactly when the decoder has room for it: a longer one is lost
      even where its length fits the size field. */
  lemma FrameSurvives(msgid: u32, payload: seq<byte>)
    ensures var f := Frame(msgid, payload); Scan(f) == [Message(msgid, f)] <==> 12 + |payload| <= B.MAX_SIZE
  {
    FrameIsFrame(msgid, payload);
    ScanWhole(Frame(msgid, payload), msgid);
  }

  function Received(frames: seq<seq<byte>>): seq<Message>
    requires forall i | 0 <= i < |frames| :: IsFrame(frames[i])
  {
    if frames == [] then [] else
    assert IsFrame(frames[0]);
    [Message(MsgId(frames[0]), frames[0])] + Received(frames[1..])
  }

  lemma {:induction false} FramesScanned(frames: seq<seq<byte>>)
    requires forall i | 0 <= i < |frames| :: IsFrame(frames[i])
    ensures Scan(Flatten(frames)) == Received(frames) <==> forall i | 0 <= i < |frames| :: Deliverable(frames[i])
  {
    if frames != [] {
      var f, rest := frames[0], frames[1..];
      FramesScanned(rest);
      if Deliverable(f) {
        ScanFrame(f, Flatten(rest));
        SameTail(Message(MsgId(f), f), Scan(Flatten(rest)), Received(rest));
        assert (forall i | 0 <= i < |frames| :: Deliverable(frames[i])) <==>
               forall i | 0 <= i < |rest| :: Deliverable(rest[i]) by {
          assert forall i | 0 <= i < |rest| :: rest[i] == frames[i + 1];
          assert forall i | 0 < i < |frames| :: frames[i] == rest[i - 1];
        }
      } else {
        LongFrameSwallows(f, Flatten(rest));
      }
    }
  }

  lemma SameTail(m: Message, a: seq<Message>, b: seq<Message>)
    ensures [m] + a == [m] + b <==> a == b
  {
    assert ([m] + a)[1..] == a && ([m] + b)[1..] == b;
  }

  // ----- What may come before a frame -----

  /** After these bytes the decoder is between messages, with no byte of a magic number pending. */
  predicate LeavesIdle(g: seq<byte>) {
    Run(Hunting(0), g).next == Hunting(0)
  }

  lemma ScanAfter(g: seq<byte>, s: seq<byte>)
    requires LeavesIdle(g)
    ensures Scan(g + s) == Scan(g) + Scan(s)
  {
    RunAppend(Hunting(0), g, s);
    RunIsScan(g);
    RunIsScan(s);
    RunIsScan(g + s);
    assert Scan(g) == [] ==> Scan(g) + Scan(s) == Scan(s);
  }

  /** Bytes without a `P` are such. */
  lemma {:induction false} NoMagicLeavesIdle(g: seq<byte>)
    requires MAGIC[0] !in g
    ensures LeavesIdle(g) && Scan(g) == []
  {
    RunIsScan(g);
    if g != [] {
      assert g[0] in g;
      NoMagicLeavesIdle(g[1..]);
      RunIsScan(g[1..]);
      RunSilent(Hunting(0), g);
    }
  }

  /** Framing round trip: after anything that leaves the decoder idle, the receiver finds the ids and bytes of
      all the frames, in order, if and only if it has room for each of them. */
  lemma FramingRoundTrip(g: seq<byte>, frames: seq<seq<byte>>)
    requires LeavesIdle(g) && forall i | 0 <= i < |frames| :: IsFrame(frames[i])
    ensures Scan(g + Flatten(frames)) == Scan(g) + Received(frames) <==>
            forall i | 0 <= i < |frames| :: Deliverable(frames[i])
  {
    ScanAfter(g, Flatten(frames));
    FramesScanned(frames);
    var a, b := Scan(Flatten(frames)), Received(frames);
    assert (Scan(g) + a)[|Scan(g)|..] == a && (Scan(g) + b)[|Scan(g)|..] == b;
  }

  /** Whatever frame follows, it is found, and so is what comes after it. */
  ghost predicate Harmless(g: seq<byte>) {
    forall f, rest | Deliverable(f) :: FoundAfter(g, f, rest)
  }

  predicate FoundAfter(g: seq<byte>, f: seq<byte>, rest: seq<byte>)
    requires Deliverable(f)
  {
    Scan(g + f + rest) == Scan(g) + [Message(MsgId(f), f)] + Scan(rest)
  }

  /** The smallest frame. */
  const PROBE: seq<byte> := MAGIC + [0, 0, 0, 0, 12, 0, 0, 0]

  lemma ProbeIsFrame()
    ensures Deliverable(PROBE) && |PROBE| == 12
    ensures forall i | 4 <= i < 12 :: PROBE[i] != MAGIC[0]
  {
    assert PROBE[8..12] == [12, 0, 0, 0] && PROBE[..4] == MAGIC;
    assert FromLE([12, 0, 0, 0]) == 12 + 256 * FromLE([0, 0, 0]);
    assert FromLE([0, 0, 0]) == 0 + 256 * FromLE([0, 0]);
  }

  lemma {:induction false} ScanTooShort(s: seq<byte>)
    requires |s| < 12
    ensures Scan(s) == []
  {
    var k := MagicPrefix(s, 0);
    if k < 4 && |s| > k {
      ScanTooShort(s[k + 1..]);
    }
  }

  /** Inside a payload, a message that completes is the one announced. */
  lemma FirstOfPayload(msgid: u32, size: u32, p: seq<byte>, s: seq<byte>)
    requires Sound(InPayload(msgid, size, p))
    ensures var msgs := Run(InPayload(msgid, size, p), s).msgs;
      msgs == [] || (p <= msgs[0].bytes && |msgs[0].bytes| == size)
  {
    var k := size - |p|;
    if |s| < k {
      RunPayloadPart(msgid, size, p, s);
    } else {
      assert s == s[..k] + s[k..];
      RunAppend(InPayload(msgid, size, p), s[..k], s[k..]);
      RunPayloadEnd(msgid, size, p, s[..k]);
    }
  }

  /** Inside a header, a message that completes early goes on from that header. */
  lemma FirstOfHeader(h: seq<byte>, s: seq<byte>)
    requires Sound(InHeader(h)) && 0 < |s| <= 12
    ensures var msgs := Run(InHeader(h), s).msgs;
      msgs == [] || (|msgs[0].bytes| > |h| && msgs[0].bytes[|h|] == s[0])
  {
    var k := 12 - |h|;
    if |s| < k {
      RunHeaderPart(h, s);
    } else {
      var whole, rest := h + s[..k], s[k..];
      assert s == s[..k] + rest && whole[|h|] == s[0];
      RunAppend(InHeader(h), s[..k], rest);
      RunHeaderEnd(h, s[..k]);
      if Size(whole) < 12 {
        RunIsScan(rest);
        ScanTooShort(rest);
      } else if Size(whole) > B.MAX_SIZE {
        RunSwallowing(rest);
      } else if Size(whole) > 12 {
        FirstOfPayload(MsgId(whole), Size(whole), whole, rest);
      }
    }
  }

  /** Unless the decoder is idle, it misses the frame. */
  lemma ProbeMissed(st: Scanner)
    requires Sound(st) && st != Hunting(0)
    ensures var msgs := Run(st, PROBE).msgs; msgs == [] || msgs[0].bytes != PROBE
  {
    ProbeIsFrame();
    match st {
      case Hunting(k) =>
        RunSilent(st, PROBE);
        if k < 3 {
          RunIsScan(PROBE[1..]);
          ScanTooShort(PROBE[1..]);
        } else {
          FirstOfHeader(MAGIC, PROBE[1..]);
        }
      case InHeader(h) => FirstOfHeader(h, PROBE);
      case InPayload(msgid, size, p) => FirstOfPayload(msgid, size, p, PROBE);
      case Swallowing => RunSwallowing(PROBE);
    }
  }

  /** Bytes before a frame do no harm, whatever the frame and what follows it, if and only if they leave the
      decoder idle. */
  lemma HarmlessIff(g: seq<byte>)
    ensures Harmless(g) <==> LeavesIdle(g)
  {
    hide LeavesIdle, FoundAfter, Deliverable;
    if LeavesIdle(g) {
      forall f, rest | Deliverable(f)
        ensures FoundAfter(g, f, rest)
      {
        FoundWhenIdle(g, f, rest);
      }
    } else {
      ProbeIsFrame();
      ProbeLost(g);
      assert !FoundAfter(g, PROBE, []);
    }
  }

  lemma FoundWhenIdle(g: seq<byte>, f: seq<byte>, rest: seq<byte>)
    requires LeavesIdle(g) && Deliverable(f)
    ensures FoundAfter(g, f, rest)
  {
    hide Scan, LeavesIdle;
    assert g + f + rest == g + (f + rest);
    ScanAfter(g, f + rest);
    ScanFrame(f, rest);
    assert Scan(g) + ([Message(MsgId(f), f)] + Scan(rest)) == Scan(g) + [Message(MsgId(f), f)] + Scan(rest);
  }

  lemma ProbeLost(g: seq<byte>)
    requires !LeavesIdle(g) && Deliverable(PROBE)
    ensures !FoundAfter(g, PROBE, [])
  {
    var st := Run(Hunting(0), g).next;
    var a, b := Scan(g), Run(st, PROBE).msgs;
    RunAppend(Hunting(0), g, PROBE);
    RunIsScan(g);
    RunIsScan(g + PROBE);
    ProbeMissed(st);
    assert g + PROBE + [] == g + PROBE;
    assert Scan(g + PROBE) == a + b;
    assert Scan([]) == [];
    if b != [] {
      assert (a + b)[|a|] == b[0];
    }
    assert (a + [Message(MsgId(PROBE), PROBE)] + [])[|a|].bytes == PROBE;
  }

  /** For one, a lone `P`: the frame that follows it is not found, though it is all there. */
  lemma StrayMagicHidesFrame(f: seq<byte>)
    requires IsFrame(f)
    ensures Message(MsgId(f), f) !in Scan([MAGIC[0]] + f) && !LeavesIdle([MAGIC[0]])
  {
    var s := [MAGIC[0]] + f;
    assert f[0] == f[..4][0];
    assert MagicPrefix(s[1..], 1) == 1;
    assert s[2..] == f[1..];
    ScanShorter(f[1..]);
    assert Run(Hunting(0), [MAGIC[0]]).next == Run(Hunting(1), []).next;
  }

  /** The first message a call returns is the first message of the scan. */
  lemma DecodeFirst(s: seq<byte>)
    ensures var c := Decode(Hunting(0), s);
      if c.msg.None? then Scan(s) == []
      else Scan(s[..c.used]) == [c.msg.value] && Scan(s) == [c.msg.value] + Scan(s[c.used..])
  {
    var c := Decode(Hunting(0), s);
    DecodeIsRun(Hunting(0), s);
    RunAppend(Hunting(0), s[..c.used], s[c.used..]);
    assert s[..c.used] + s[c.used..] == s;
    RunIsScan(s[..c.used]);
    RunIsScan(s[c.used..]);
    RunIsScan(s);
  }

  /** Decoding a buffer in one call from idle returns the whole buffer exactly when it is a frame the decoder
      has room for. */
  lemma DecodeWhole(s: seq<byte>)
    ensures var c := Decode(Hunting(0), s);
      (c.msg.Some? && c.msg.value.bytes == s) <==> Deliverable(s)
    ensures Deliverable(s) ==> Decode(Hunting(0), s).msg == Some(Message(MsgId(s), s))
  {
    var c := Decode(Hunting(0), s);
    DecodeFirst(s);
    if c.msg.Some? {
      ScanShorter(s[..c.used]);
      assert c.msg.value in Scan(s[..c.used]);
      if c.msg.value.bytes == s {
        assert s[..c.used] == s;
        ScanWhole(s, c.msg.value.msgid);
      }
    }
    if Deliverable(s) {
      ScanWhole(s, MsgId(s));
      assert Scan(s)[0] == Message(MsgId(s), s);
    }
  }

  // ----- Resynchronisation -----

  /** A byte that breaks the magic number is dropped with the bytes before it that matched, and the search starts again
      after it. */
  lemma MismatchSkipped(k: nat, b: byte, rest: seq<byte>)
    requires k < 4 && b != MAGIC[k]
    ensures Scan(MAGIC[..k] + [b] + rest) == Scan(rest)
  {
    var s := MAGIC[..k] + [b] + rest;
    MismatchAt(s, 0, k);
    assert s[k + 1..] == rest;
  }

  lemma {:induction false} MismatchAt(s: seq<byte>, j: nat, k: nat)
    requires j <= k < 4 && |s| > k - j && s[k - j] != MAGIC[k] && forall i | 0 <= i < k - j :: s[i] == MAGIC[j + i]
    ensures MagicPrefix(s, j) == k
    decreases k - j
  {
    if j < k {
      MismatchAt(s[1..], j + 1, k);
    }
  }

  /** A header whose size is smaller than itself is dropped, and the search starts again after it. */
  lemma BadSizeSkipped(header: seq<byte>, rest: seq<byte>)
    requires |header| == 12 && header[..4] == MAGIC && Size(header) < 12
    ensures Scan(header + rest) == Scan(rest) && LeavesIdle(header)
  {
    var s := header + rest;
    MagicPrefixWhole(s, 0);
    MagicPrefixWhole(header, 0);
    assert s[..4] == MAGIC && s[8..12] == header[8..12] && s[12..] == rest;
    assert header[..12] == header && header[12..] == [];
    RunHunting(header, 0, 4);
    RunFrame(header);
    assert Run(Hunting(0), []) == Progress(Hunting(0), []);
  }

  /** A header alone is a message of its own. */
  lemma BareHeader(header: seq<byte>, rest: seq<byte>)
    requires |header| == 12 && header[..4] == MAGIC && Size(header) == 12
    ensures Scan(header + rest) == [Message(MsgId(header), header)] + Scan(rest)
  {
    ScanFrame(header, rest);
  }
}
