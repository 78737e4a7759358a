/** Messages of src/pomp_msg.c: the header is written last, and a received buffer is checked first. */
module Msg {
  import opened Wrappers
  import opened Bytes
  import opened Frames
  import B = Buffer

  class Message {
    var msgid: u32
    var finished: bool
    var buf: B.Buffer?  // its first twelve bytes are the room of the header

    ghost predicate Valid()
      reads this, buf, if buf != null then {buf.data} else {}
    {
      buf != null ==> buf.Valid()
    }

    constructor ()
      ensures Valid() && msgid == 0 && !finished && buf == null
    {
      msgid, finished, buf := 0, false, null;
    }

    /** Start a message. A buffer that is shared is left to its other holders; one that is not is emptied, its
        descriptors closed, and used again. */
    method Init(msgid: u32)
      requires Valid()
      modifies this, buf
      ensures Valid() && this.msgid == msgid && !finished
      ensures buf != null && buf.refcount == 1 && buf.Contents() == [] && buf.fdoffs == []
      ensures old(buf) == null || old(buf.refcount) > 1 ==> fresh(buf)
      ensures old(buf) != null && old(buf.refcount) > 1 ==>
        var b := old(buf); b.Valid() && b.refcount == old(buf.refcount) - 1 && b.Contents() == old(buf.Contents())
      ensures old(buf) != null && old(buf.refcount) == 1 ==>
        && buf == old(buf)
        && buf.closed == old(buf.closed) + B.Owned(old(buf.Contents()), old(buf.fdoffs))
    {
      this.msgid, finished := msgid, false;
      if buf != null && buf.refcount > 1 {
        var _ := buf.Unref();
        buf := null;
      }
      if buf != null {
        var _ := buf.ClearPartial(B.MAX_REUSE);
      } else {
        buf := new B.Buffer(0);
      }
    }

    /** What was written after the room left for the header. */
    ghost function Payload(): seq<byte>
      requires Valid()
      reads this, buf, if buf != null then {buf.data} else {}
    {
      if buf != null && |buf.Contents()| >= HEADER_SIZE then buf.Contents()[HEADER_SIZE..] else []
    }

    /** Write the header. */
    method Finish() returns (res: B.Status)
      requires Valid()
      modifies this`finished, buf, if buf != null then {buf.data} else {}
      ensures Valid() && buf == old(buf) && msgid == old(msgid)
      ensures res == if buf == null || old(finished) then B.EINVAL else if old(buf.refcount) > 1 then B.EPERM else B.Ok
      ensures res != B.Ok ==> finished == old(finished) && (buf != null ==> buf.Contents() == old(buf.Contents()))
      ensures res == B.Ok ==> finished && buf.Contents() == Frame(msgid, old(Payload()))
    {
      if buf == null || finished {
        return B.EINVAL;
      }
      res := buf.EnsureCapacity(HEADER_SIZE);
      if res != B.Ok {
        return;
      }
      WriteHeader(buf, msgid);
      finished := true;
      res := B.Ok;
    }
  }

  /** One more piece of the header, in storage that has room for all of it. */
  method Put(b: B.Buffer, pos: nat, more: seq<byte>, ghost s: seq<byte>, ghost h: seq<byte>) returns (next: nat)
    requires b.Valid() && b.refcount == 1 && b.data.Length >= HEADER_SIZE && pos == |h| && pos + |more| <= HEADER_SIZE
    requires b.Contents() == Headed(s, h)
    modifies b`data, b`len, b.data
    ensures b.Valid() && b.data == old(b.data)
    ensures b.Contents() == Headed(s, h + more) && next == |h + more|
  {
    HeadedMore(s, h, more);
    var _, n := b.Write(pos, more);
    next := n;
  }

  /** The first bytes, one by one. */
  method PutBytes(b: B.Buffer, p: seq<byte>) returns (pos: nat)
    requires b.Valid() && b.refcount == 1 && b.data.Length >= HEADER_SIZE >= |p|
    modifies b`data, b`len, b.data
    ensures b.Valid() && b.data == old(b.data) && pos == |p| && b.Contents() == Headed(old(b.Contents()), p)
  {
    ghost var s := b.Contents();
    pos := 0;
    assert Headed(s, p[..0]) == s;
    hide Headed;
    for i := 0 to |p|
      invariant b.Valid() && b.data == old(b.data) && pos == i && b.Contents() == Headed(s, p[..i])
    {
      pos := Put(b, pos, [p[i]], s, p[..i]);
      assert p[..i] + [p[i]] == p[..i + 1];
    }
    assert p[..|p|] == p;
  }

  /** Magic, identifier and size, in place of the first bytes. */
  method WriteHeader(b: B.Buffer, msgid: u32)
    requires b.Valid() && b.refcount == 1 && b.data.Length >= HEADER_SIZE
    modifies b`data, b`len, b.data
    ensures b.Valid() && b.data == old(b.data)
    ensures b.Contents() == Frame(msgid, old(if b.len >= HEADER_SIZE then b.Contents()[HEADER_SIZE..] else []))
  {
    hide ToLE, Headed, Frame;
    ghost var s := b.Contents();
    var pos := PutBytes(b, MAGIC);
    pos := Put(b, pos, ToLE(4, msgid), s, MAGIC);
    HeadedLength(s, MAGIC + ToLE(4, msgid));
    // at least the header, even when no payload was written
    var size := if b.len < HEADER_SIZE then HEADER_SIZE else b.len % 0x1_0000_0000;
    pos := Put(b, pos, ToLE(4, size), s, MAGIC + ToLE(4, msgid));
    HeadedFrame(s, msgid, size);
  }

  lemma HeadedFrame(s: seq<byte>, msgid: u32, size: u32)
    requires size == if |s| < HEADER_SIZE then HEADER_SIZE else |s| % 0x1_0000_0000
    ensures Headed(s, MAGIC + ToLE(4, msgid) + ToLE(4, size)) ==
            Frame(msgid, if |s| >= HEADER_SIZE then s[HEADER_SIZE..] else [])
  {
  }

  /** `s` with its first bytes replaced by `h`. */
  function Headed(s: seq<byte>, h: seq<byte>): seq<byte> {
    h + if |h| < |s| then s[|h|..] else []
  }

  lemma HeadedLength(s: seq<byte>, h: seq<byte>)
    ensures |Headed(s, h)| == if |h| < |s| then |s| else |h|
  {
  }

  lemma HeadedMore(s: seq<byte>, h: seq<byte>, more: seq<byte>)
    ensures Overwrite(Headed(s, h), |h|, more) == Headed(s, h + more)
  {
  }

  /** The checks made on a buffer before it is accepted as a message. */
  method NewWithBuffer(buf: seq<byte>) returns (msgid: Option<u32>)
    ensures msgid == if IsFrame(buf) then Some(MsgId(buf)) else None
  {
    if |buf| < HEADER_SIZE {
      return None;
    }
    assert buf[0..4] == buf[..4];
    if Word(buf[0..4]) != Word(MAGIC) {
      return None;
    }
    LEInjective(buf[0..4], MAGIC);
    if Word(buf[8..12]) != |buf| {
      return None;
    }
    return Some(Word(buf[4..8]));
  }
}
