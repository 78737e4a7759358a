/** The incremental decoder of src/pomp_prot.c, proved against the framing of module Frames. */
module Prot {
  import opened Wrappers
  import opened Bytes
  import opened Frames
  import opened Buffer

  const INT_MAX := 0x7fff_ffff

  datatype DecodeState = Idle | Magic(idx: nat) | Header | Payload

  /** Number of bytes `copy` moves from the source to the destination. */
  function CopyLength(lensrc: nat, offsrc: nat, lendst: nat, offdst: nat): (n: nat)
    requires offsrc <= lensrc && offdst <= lendst
    ensures offsrc + n <= lensrc && offdst + n <= lendst
    ensures offsrc + n == lensrc || offdst + n == lendst
  {
    if lensrc - offsrc > lendst - offdst then lendst - offdst else lensrc - offsrc
  }

  /** While a payload is read: the storage never passes the rounding limit, and is enough for the whole message
      if the size is within it. */
  predicate RoomOk(size: nat, len: nat, capacity: nat) {
    HEADER_SIZE <= len < size && len <= capacity <= MAX_SIZE && (size <= MAX_SIZE ==> size <= capacity)
  }

  lemma HeaderRoom(kept: nat, size: u32)
    requires kept <= MAX_REUSE && HEADER_SIZE <= size
    ensures var reserved := Grown(kept, 0, size);
      && reserved.Some? && Grown(reserved.value, 0, HEADER_SIZE).Some?
      && (size > HEADER_SIZE ==> RoomOk(size, HEADER_SIZE, Grown(reserved.value, 0, HEADER_SIZE).value))
  {
    AlignBound(size);
    AlignBound(HEADER_SIZE);
  }

  /** A write fails exactly when it would pass the limit. */
  lemma PayloadRoom(size: u32, len: nat, capacity: nat, m: nat)
    requires RoomOk(size, len, capacity) && len + m <= size
    ensures var grown := Grown(capacity, len, len + m);
      && (grown.Some? <==> len + m <= MAX_SIZE)
      && (grown.Some? ==> len + m <= grown.value <= MAX_SIZE && capacity <= grown.value)
  {
    AlignBound(len + m);
  }

  lemma DecodeNothing(st: Scanner)
    requires Sound(st)
    ensures Decode(st, []) == Call(0, st, None)
  {
  }

  class Decoder {
    var state: DecodeState
    const headerbuf: array<byte>
    var msgid: u32
    var size: u32
    var offheader: nat
    var offpayload: nat
    var buf: seq<byte>      // used bytes of the buffer of the message being assembled
    var capacity: nat       // its storage
    var held: Option<nat>   // storage of the buffer of a message given back, kept for the next one

    ghost predicate Valid()
      reads this, headerbuf
    {
      && headerbuf.Length == HEADER_SIZE
      && offheader <= HEADER_SIZE
      && match state
         case Idle => true
         case Magic(k) => k < 4 && (k > 0 ==> offheader == k && headerbuf[..k] == MAGIC[..k])
         case Header => 4 <= offheader < HEADER_SIZE && headerbuf[..4] == MAGIC
         case Payload => offpayload == |buf| && RoomOk(size, |buf|, capacity)
    }

    ghost function Abs(): (st: Scanner)
      requires Valid()
      reads this, headerbuf
      ensures Sound(st)
    {
      match state
      case Idle => Hunting(0)
      case Magic(k) => Hunting(k)
      case Header => InHeader(headerbuf[..offheader])
      case Payload => if size <= MAX_SIZE then InPayload(msgid, size, buf) else Swallowing
    }

    constructor ()
      ensures Valid() && Abs() == Hunting(0) && fresh(headerbuf)
    {
      state, msgid, size, offheader, offpayload, buf := Idle, 0, 0, 0, 0, [];
      capacity, held := 0, None;
      headerbuf := new byte[HEADER_SIZE](_ => 0);
    }

    /** A magic byte: copy it, then compare it. */
    method StepMagic(data: seq<byte>, off: nat)
      requires Valid() && state.Magic? && off < |data|
      modifies this, headerbuf
      ensures Valid() && !state.Idle?
      ensures Feed(old(Abs()), data[off]) == Fed(Abs(), None)
    {
      var idx := state.idx;
      if idx == 0 {
        // each attempt starts from a clean decoder
        msgid, size, offheader, offpayload := 0, 0, 0, 0;
      }
      headerbuf[offheader] := data[off];
      offheader := offheader + 1;
      if headerbuf[idx] != MAGIC[idx] {
        state := Magic(0);
      } else if idx == 3 {
        state := Header;
        assert headerbuf[..4] == MAGIC;
      } else {
        state := Magic(idx + 1);
        assert headerbuf[..idx + 1] == MAGIC[..idx + 1];
      }
    }

    /** Header bytes: copy what is available; on the twelfth byte decode the header. */
    method StepHeader(data: seq<byte>, off: nat, n: nat) returns (off': nat, msg: Option<Message>)
      requires Valid() && state.Header? && off < n <= |data|
      modifies this, headerbuf
      ensures Valid() && off < off' <= n && (state.Idle? <==> msg.Some?)
      ensures Decode(old(Abs()), data[off..off']) == Call(off' - off, Abs(), msg)
    {
      hide Feed, Decode, Run, AfterHeader;
      msg := None;
      ghost var h := headerbuf[..offheader];
      var m := CopyLength(n, off, HEADER_SIZE, offheader);
      forall i | 0 <= i < m { headerbuf[offheader + i] := data[off + i]; }
      off' := off + m;
      offheader := offheader + m;
      assert headerbuf[..offheader] == h + data[off..off'];
      if offheader == HEADER_SIZE {
        DecodeHeaderEnd(h, data[off..off']);
        assert headerbuf[..] == headerbuf[..offheader];
        msg := DecodeHeader();
      } else {
        RunHeaderPart(h, data[off..off']);
        DecodeSilent(InHeader(h), data[off..off']);
        assert headerbuf[..4] == h[..4];
      }
    }

    /** The header is complete: check its size, set a buffer up, and start the payload with the header itself.
        The buffer is a new one, or the one of the message given back, emptied. */
    method DecodeHeader() returns (msg: Option<Message>)
      requires headerbuf.Length == HEADER_SIZE && offheader == HEADER_SIZE && state.Header?
      modifies this
      ensures Valid() && (state.Idle? <==> msg.Some?)
      ensures AfterHeader(headerbuf[..]) == Fed(Abs(), msg)
    {
      msg := None;
      msgid, size := MsgId(headerbuf[..]), Size(headerbuf[..]);
      if size < HEADER_SIZE {
        state := Magic(0);
      } else {
        var kept := if held.None? then 0 else if held.value > MAX_REUSE then MAX_REUSE else held.value;
        HeaderRoom(kept, size);
        var reserved := Grown(kept, 0, size);
        var grown := Grown(reserved.value, 0, HEADER_SIZE);
        capacity := grown.value;
        buf := headerbuf[..];
        offpayload := HEADER_SIZE;
        state := Payload;
        msg := FinishIfComplete();
      }
    }

    /** The check made at the end of every iteration. */
    method FinishIfComplete() returns (msg: Option<Message>)
      requires headerbuf.Length == HEADER_SIZE && offheader <= HEADER_SIZE
      requires state.Payload? && offpayload == |buf| && (RoomOk(size, |buf|, capacity) || |buf| == size)
      requires |buf| == size ==> size <= MAX_SIZE
      modifies this`state, this`held
      ensures Valid()
      ensures |buf| == size ==> state.Idle? && msg == Some(Message(msgid, buf))
      ensures |buf| < size ==> state.Payload? && msg == None
    {
      msg := None;
      if offpayload == size {
        msg := Some(Message(msgid, buf));
        state := Idle;
        held := None;
      }
    }

    /** Payload bytes: take what is available. A write that fails is not noticed: its bytes are dropped. */
    method StepPayload(data: seq<byte>, off: nat, n: nat) returns (off': nat, msg: Option<Message>)
      requires Valid() && state.Payload? && off < n <= |data|
      modifies this
      ensures Valid() && off < off' <= n && (state.Idle? <==> msg.Some?)
      ensures Decode(old(Abs()), data[off..off']) == Call(off' - off, Abs(), msg)
    {
      hide Feed, Decode, Run, Grown;
      ghost var p := buf;
      var m := CopyLength(n, off, size, offpayload);
      off' := off + m;
      PayloadRoom(size, |buf|, capacity, m);
      var grown := Grown(capacity, |buf|, |buf| + m);
      if grown.Some? {
        capacity := grown.value;
        buf := buf + data[off..off'];
        offpayload := offpayload + m;
      }
      if size > MAX_SIZE {
        RunSwallowing(data[off..off']);
        DecodeSilent(Swallowing, data[off..off']);
      } else if offpayload == size {
        DecodePayloadEnd(msgid, size, p, data[off..off']);
      } else {
        RunPayloadPart(msgid, size, p, data[off..off']);
        DecodeSilent(InPayload(msgid, size, p), data[off..off']);
      }
      msg := FinishIfComplete();
    }

    /** A message comes back from the connection. One is kept for reuse, unless the place is taken by the message
        being received. */
    method ReleaseMsg(storage: nat)
      requires Valid()
      modifies this`held
      ensures Valid() && Abs() == old(Abs())
      ensures held == if old(held).None? && !state.Payload? then Some(storage) else old(held)
    {
      if held.None? && !state.Payload? {
        held := Some(storage);
      }
    }

    /** One iteration of the processing loop. */
    method Step(data: seq<byte>, off: nat, n: nat) returns (off': nat, msg: Option<Message>)
      requires Valid() && !state.Idle? && off < n <= |data|
      modifies this, headerbuf
      ensures Valid() && off < off' <= n && (state.Idle? <==> msg.Some?)
      ensures Decode(old(Abs()), data[off..off']) == Call(off' - off, Abs(), msg)
    {
      match state {
        case Magic(_) =>
          DecodeOne(Abs(), data[off]);
          assert data[off..off + 1] == [data[off]];
          StepMagic(data, off);
          off', msg := off + 1, None;
        case Header =>
          off', msg := StepHeader(data, off, n);
        case Payload =>
          off', msg := StepPayload(data, off, n);
      }
    }

    /** Decode at most one message. `msg` stays empty when none completes. */
    method DecodeMsg(data: seq<byte>) returns (used: nat, msg: Option<Message>)
      requires Valid()
      modifies this, headerbuf
      ensures Valid()
      ensures Decode(old(Abs()), data[..Clip(|data|)]) == Call(used, Abs(), msg)
    {
      ghost var st := Abs();
      DecodeNothing(st);
      hide Decode, Run;
      if state.Idle? {
        state := Magic(0);
      }
      var n := Clip(|data|);
      used, msg := 0, None;
      while used < n && !state.Idle?
        invariant Valid() && used <= n
        invariant state.Idle? <==> msg.Some?
        invariant Decode(st, data[..used]) == Call(used, Abs(), msg)
        decreases n - used
      {
        ghost var was, done := Abs(), used;
        DecodeIsRun(st, data[..used]);
        assert data[..used][..used] == data[..used];
        used, msg := Step(data, used, n);
        DecodeAppend(st, data[..done], data[done..used]);
        assert data[..done] + data[done..used] == data[..used];
      }
      if used < n {
        DecodeStops(st, data[..used], data[used..n]);
        assert data[..used] + data[used..n] == data[..n];
      }
    }

    /** The decoding loop a connection runs over one read buffer. */
    method ProcessReadBuf(data: seq<byte>) returns (msgs: seq<Message>)
      requires Valid()
      modifies this, headerbuf
      ensures Valid()
      ensures Progress(Abs(), msgs) == Run(old(Abs()), data)
    {
      hide Feed, Decode;
      ghost var st := Abs();
      var off := 0;
      msgs := [];
      while off < |data|
        invariant Valid() && off <= |data|
        invariant Progress(Abs(), msgs) == Run(st, data[..off])
      {
        var used, msg := DecodeMsg(data[off..]);
        ghost var n := Clip(|data| - off);
        ghost var piece := data[off..off + used];
        assert data[off..][..n][..used] == piece;
        DecodeIsRun(Run(st, data[..off]).next, data[off..][..n]);
        RunAppend(st, data[..off], piece);
        assert data[..off] + piece == data[..off + used];
        off := off + used;
        if msg.Some? {
          msgs := msgs + [msg.value];
        }
      }
      assert data[..off] == data;
    }

    /** Successive reads of a connection: however the stream is cut into chunks, the messages are those
        of one scan of the whole stream. */
    method ProcessReads(chunks: seq<seq<byte>>) returns (msgs: seq<Message>)
      requires Valid() && Abs() == Hunting(0)
      modifies this, headerbuf
      ensures Valid()
      ensures msgs == Scan(Flatten(chunks))
    {
      msgs := [];
      for i := 0 to |chunks|
        invariant Valid()
        invariant Progress(Abs(), msgs) == Run(Hunting(0), Flatten(chunks[..i]))
      {
        var more := ProcessReadBuf(chunks[i]);
        RunAppend(Hunting(0), Flatten(chunks[..i]), chunks[i]);
        FlattenAppend(chunks[..i], chunks[i]);
        assert chunks[..i] + [chunks[i]] == chunks[..i + 1];
        msgs := msgs + more;
      }
      assert chunks[..|chunks|] == chunks;
      RunIsScan(Flatten(chunks));
    }
  }

  /** No call reports more than INT_MAX bytes. */
  function Clip(n: nat): nat {
    if n > INT_MAX then INT_MAX else n
  }

  /** A buffer is accepted as a message, and is not too long for one call, exactly when the first call of a
      fresh decoder returns a message equal to the whole buffer. */
  lemma AcceptedIffDecoded(buf: seq<byte>)
    ensures var c := Decode(Hunting(0), buf[..Clip(|buf|)]);
      (c.msg.Some? && c.msg.value.bytes == buf) <==> IsFrame(buf) && |buf| <= INT_MAX
  {
    var head := buf[..Clip(|buf|)];
    var c := Decode(Hunting(0), head);
    if |buf| <= INT_MAX {
      assert head == buf;
      DecodeWhole(buf);
    } else if c.msg.Some? {
      DecodeFirst(head);
      ScanShorter(head[..c.used]);
      assert c.msg.value in Scan(head[..c.used]);
    }
  }
}
