/** One buffer object is one address of module Sharing, and its writes are those the encoder relies on. */
module Holding {
  import opened Bytes
  import B = Buffer
  import S = Sharing
  import C = Coders

  ghost function ContentOf(b: B.Buffer): S.Content
    requires b.Valid()
    reads b, b.data
  {
    S.Content(b.Contents(), b.fdoffs)
  }

  /** The object is the buffer at that address. */
  ghost predicate Represents(b: B.Buffer, s: S.State, addr: nat)
    reads b, b.data
  {
    S.Wellformed(s) && b.Valid() && addr in s.bufs && s.bufs[addr] == S.Buf(b.refcount, ContentOf(b))
  }

  /** Taking a reference is sharing. */
  method Share(b: B.Buffer, ghost s: S.State, ghost h: nat, ghost from: nat)
    requires from in s.holds && h !in s.holds && Represents(b, s, s.holds[from])
    modifies b`refcount
    ensures Represents(b, S.Next(s, S.Share(h, from)), s.holds[from])
  {
    b.Ref();
  }

  /** Giving a reference back is dropping: the buffer is gone with the last one. */
  method Drop(b: B.Buffer, ghost s: S.State, ghost h: nat) returns (freed: bool)
    requires h in s.holds && S.Counted(s) && Represents(b, s, s.holds[h])
    modifies b`refcount, b`data, b`len, b`fdoffs, b`closed
    ensures
      var t := S.Next(s, S.Drop(h));
      if freed then s.holds[h] !in t.bufs else Represents(b, t, s.holds[h])
  {
    S.NextCounted(s, S.Drop(h));
    freed := b.Unref();
  }

  /** Writing is a change to the content it leaves, and is refused to a holder that is not alone. */
  method Write(b: B.Buffer, pos: nat, p: seq<byte>, ghost s: S.State, ghost h: nat) returns (res: B.Status)
    requires h in s.holds && S.Counted(s) && Represents(b, s, s.holds[h])
    requires B.Defined(b.data.Length, b.len, pos + |p|)
    modifies b`data, b`len, b.data
    ensures b.Valid() && Represents(b, S.Next(s, S.Change(h, ContentOf(b))), s.holds[h])
    ensures res == B.EPERM <==> exists g | g in s.holds && s.holds[g] == s.holds[h] :: g != h
  {
    S.ChangedIffAlone(s, h);
    var next;
    res, next := b.Write(pos, p);
  }

  /** So is clearing. */
  method Clear(b: B.Buffer, maxCapacity: nat, ghost s: S.State, ghost h: nat) returns (res: B.Status)
    requires h in s.holds && S.Counted(s) && Represents(b, s, s.holds[h])
    modifies b`data, b`len, b`fdoffs, b`closed
    ensures b.Valid() && Represents(b, S.Next(s, S.Change(h, ContentOf(b))), s.holds[h])
    ensures res == B.EPERM <==> exists g | g in s.holds && s.holds[g] == s.holds[h] :: g != h
  {
    S.ChangedIffAlone(s, h);
    res := b.ClearPartial(maxCapacity);
  }

  /** And registering a descriptor. */
  method Register(b: B.Buffer, off: nat, fd: int, ghost s: S.State, ghost h: nat) returns (res: B.Status)
    requires h in s.holds && S.Counted(s) && Represents(b, s, s.holds[h]) && fd < 0x8000_0000
    modifies b`fdoffs, b.data
    ensures b.Valid() && Represents(b, S.Next(s, S.Change(h, ContentOf(b))), s.holds[h])
    ensures res == B.EPERM <==> exists g | g in s.holds && s.holds[g] == s.holds[h] :: g != h
  {
    S.ChangedIffAlone(s, h);
    res := b.RegisterFd(off, fd);
  }

  /** A write at the end of a buffer with one holder is a write of the encoder. */
  method WritePiece(b: B.Buffer, p: seq<byte>) returns (ok: bool)
    requires b.Valid() && b.refcount == 1
    requires !C.PutPiece(C.Store(b.Contents(), b.data.Length), p).Lost?
    modifies b`data, b`len, b.data
    ensures b.Valid()
    ensures
      var r := C.PutPiece(old(C.Store(b.Contents(), b.data.Length)), p);
      (ok <==> r.Done?) && C.Store(b.Contents(), b.data.Length) == r.store
  {
    var res, _ := b.Write(b.len, p);
    assert Overwrite(old(b.Contents()), old(b.len), p) == old(b.Contents()) + p;
    ok := res == B.Ok;
  }
}
