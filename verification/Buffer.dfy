/** The buffer of src/pomp_buffer.c: allocated storage of which a prefix is in use, and the offsets of the
    descriptors put in it. Allocation succeeds. */
module Buffer {
  import opened Bytes
  import opened Wrappers

  const ALLOC_STEP: int := 256

  /** Storage kept when a buffer is used again. */
  const MAX_REUSE: nat := 4096
  datatype Status = Ok | EINVAL | EPERM | EBADF | ENFILE

  // ----- Rounding of capacities -----

  /** Sizes have 64 bits, but the mask is the 32-bit constant that clears the low eight bits, so that it
      clears the high half as well. */
  function Align(x: nat): nat {
    (x + ALLOC_STEP - 1) % 0x1_0000_0000 / ALLOC_STEP * ALLOC_STEP
  }

  /** The largest size that can be rounded up. */
  const MAX_SIZE: nat := 0xFFFF_FF00

  /** Rounding is up, to the next multiple, if and only if the size leaves room for it in 32 bits. */
  lemma AlignUp(x: nat)
    ensures Align(x) % ALLOC_STEP == 0
    ensures x <= Align(x) < x + ALLOC_STEP <==> x <= MAX_SIZE
    ensures x <= Align(x) <==> x <= MAX_SIZE
  {
    if x <= MAX_SIZE {
      assert (x + 255) % 0x1_0000_0000 == x + 255;
    } else {
      assert (x + 255) % 0x1_0000_0000 / 256 <= 0xFF_FFFF;
    }
  }

  /** Whatever the size, the result is within the limit; beyond it, at least 32 bits are lost. */
  lemma AlignBound(x: nat)
    ensures Align(x) <= MAX_SIZE && (x <= MAX_SIZE <==> x <= Align(x))
    ensures x > MAX_SIZE ==> Align(x) + 0x1_0000_0000 <= x + 255
    ensures MAX_SIZE < x < 0x1_0000_0000 ==> Align(x) == 0
  {
    AlignUp(x);
    var y := (x + 255) % 0x1_0000_0000;
    assert y / 256 <= 0xFF_FFFF && y / 256 * 256 <= y;
    if x > MAX_SIZE {
      assert y <= x + 255 - 0x1_0000_0000;
    }
  }

  /** A size for which it is not. */
  lemma AlignFails()
    ensures Align(0x1_0000_0000) == 0
  {
  }

  /** Storage after making room for `need` bytes in a buffer of `capacity` of which `len` are used, or nothing
      if that is refused. */
  function Grown(capacity: nat, len: nat, need: nat): Option<nat> {
    if need <= capacity then Some(capacity)
    else if Align(need) < len then None
    else Some(Align(need))
  }

  /** There is room afterwards if and only if there was already, or the size can be rounded; otherwise the call
      is refused, or succeeds with too little storage. */
  lemma GrownEnough(capacity: nat, len: nat, need: nat)
    requires len <= capacity
    ensures var g := Grown(capacity, len, need);
      (g.Some? && need <= g.value) <==> need <= capacity || need <= MAX_SIZE
  {
    AlignUp(need);
  }

  /** A write is defined unless it is let through with too little storage. */
  predicate Defined(capacity: nat, len: nat, need: nat) {
    var g := Grown(capacity, len, need);
    g.Some? ==> need <= g.value
  }

  lemma DefinedIff(capacity: nat, len: nat, need: nat)
    requires len <= capacity
    ensures Defined(capacity, len, need) <==> need <= capacity || need <= MAX_SIZE || Align(need) < len
  {
    AlignUp(need);
  }

  // ----- The buffer -----

  /** Writing where the last write ended is appending. */
  lemma WriteTwice(s: seq<byte>, pos: nat, p: seq<byte>, q: seq<byte>)
    requires pos <= |s|
    ensures Overwrite(Overwrite(s, pos, p), pos + |p|, q) == Overwrite(s, pos, p + q)
    ensures Overwrite(s, pos, p)[pos..pos + |p|] == p
  {
    var t := Overwrite(s, pos, p);
    assert t[..pos + |p|] == s[..pos] + p;
    if pos + |p| + |q| < |s| {
      assert t[pos + |p| + |q|..] == s[pos + |p| + |q|..];
    }
  }

  /** Storage of which `len` bytes are in use, before and after a copy of `p` at `pos`. */
  lemma WriteIn(before: seq<byte>, after: seq<byte>, len: nat, pos: nat, p: seq<byte>)
    requires len <= |before| && pos + |p| <= |before| && after == before[..pos] + p + before[pos + |p|..]
    ensures var next := pos + |p|;
      var n := if next > len then next else len;
      && after[..n][pos..next] == p
      && (forall i | 0 <= i < len && !(pos <= i < next) :: after[..n][i] == before[..len][i])
      && (pos <= len ==> after[..n] == Overwrite(before[..len], pos, p))
  {
  }

  function FdIn(s: seq<byte>, off: nat): int {
    if off + 4 > |s| then -1
    else
      var w := Word(s[off..off + 4]);
      if w < 0x8000_0000 then w else -1
  }

  /** The descriptors a clear closes: those found at the registered offsets. */
  function Owned(s: seq<byte>, offs: seq<nat>): seq<int> {
    if offs == [] then []
    else
      var before := Owned(s, offs[..|offs| - 1]);
      var fd := FdIn(s, offs[|offs| - 1]);
      if fd >= 0 then before + [fd] else before
  }

  class Buffer {
    var refcount: nat
    var data: array<byte>  // as many bytes as the capacity
    var len: nat
    var fdoffs: seq<nat>
    ghost var closed: seq<int>

    ghost predicate Valid()
      reads this, data
    {
      refcount >= 1 && len <= data.Length && |fdoffs| <= MAX_FD_COUNT
    }

    ghost function Contents(): seq<byte>
      requires Valid()
      reads this, data
    {
      data[..len]
    }

    constructor (capacity: nat)
      ensures Valid() && fresh(data) && refcount == 1 && data.Length == capacity
      ensures Contents() == [] && fdoffs == [] && closed == []
    {
      data := new byte[capacity](_ => 0);
      refcount, len, fdoffs, closed := 1, 0, [], [];
    }

    method SetCapacity(capacity: nat) returns (res: Status)
      requires Valid()
      modifies this`data
      ensures Valid() && Contents() == old(Contents())
      ensures res == if capacity < len then EINVAL else if refcount > 1 then EPERM else Ok
      ensures if res == Ok then fresh(data) && data.Length == capacity else data == old(data)
    {
      if capacity < len {
        return EINVAL;
      }
      if refcount > 1 {
        return EPERM;
      }
      var bigger := new byte[capacity](_ => 0);
      for i := 0 to len
        invariant data == old(data) && bigger[..i] == data[..i]
      {
        bigger[i] := data[i];
      }
      data := bigger;
      assert data[..len] == old(data[..len]);
      res := Ok;
    }

    method SetLen(n: nat) returns (res: Status)
      requires Valid()
      modifies this`len
      ensures Valid()
      ensures res == if n > data.Length then EINVAL else if refcount > 1 then EPERM else Ok
      ensures len == if res == Ok then n else old(len)
    {
      if n > data.Length {
        return EINVAL;
      }
      if refcount > 1 {
        return EPERM;
      }
      len := n;
      res := Ok;
    }

    method EnsureCapacity(capacity: nat) returns (res: Status)
      requires Valid()
      modifies this`data
      ensures Valid() && Contents() == old(Contents())
      ensures data == old(data) || (fresh(data) && capacity > old(data.Length))
      ensures var g := Grown(old(data.Length), len, capacity);
        && res == (if refcount > 1 then EPERM else if g.None? then EINVAL else Ok)
        && data.Length == if res == Ok then g.value else old(data.Length)
    {
      if refcount > 1 {
        return EPERM;
      }
      res := Ok;
      if capacity > data.Length {
        res := SetCapacity(Align(capacity));
      }
    }

    /** Write at a position, growing as needed. A position beyond the end leaves a gap of whatever the storage
        holds. */
    method Write(pos: nat, p: seq<byte>) returns (res: Status, next: nat)
      requires Valid() && Defined(data.Length, len, pos + |p|)
      modifies this`data, this`len, data
      ensures Valid() && (data == old(data) || (fresh(data) && pos + |p| > old(data.Length)))
      ensures res == if refcount > 1 then EPERM
                     else if Grown(old(data.Length), old(len), pos + |p|).None? then EINVAL else Ok
      ensures res != Ok ==> Contents() == old(Contents()) && data.Length == old(data.Length) && next == pos
      ensures res == Ok ==> data.Length == Grown(old(data.Length), old(len), pos + |p|).value
      ensures res == Ok ==> next == pos + |p| && len == if next > old(len) then next else old(len)
      ensures res == Ok ==> Contents()[pos..next] == p
      ensures res == Ok ==> forall i | 0 <= i < old(len) && !(pos <= i < next) :: Contents()[i] == old(Contents())[i]
      ensures res == Ok && pos <= old(len) ==> Contents() == Overwrite(old(Contents()), pos, p)
    {
      next := pos;
      if refcount > 1 {
        return EPERM, pos;
      }
      res := EnsureCapacity(pos + |p|);
      if res != Ok {
        return res, pos;
      }
      ghost var before := data[..];
      CopyIn(pos, p);
      next := pos + |p|;
      assert data[..] == before[..pos] + p + before[next..];
      WriteIn(before, data[..], len, pos, p);
      assert before[..len] == old(data[..len]);
      if next > len {
        len := next;
      }
    }

    function GetFd(off: nat): int
      requires Valid()
      reads this, data
    {
      FdIn(data[..len], off)
    }

    /** Put a descriptor at an offset, and own it. */
    method RegisterFd(off: nat, fd: int) returns (res: Status)
      requires Valid() && fd < 0x8000_0000
      modifies this`fdoffs, data
      ensures Valid()
      ensures res == if refcount > 1 then EPERM else if off + 4 > len then EINVAL else if fd < 0 then EBADF
                     else if |old(fdoffs)| >= MAX_FD_COUNT then ENFILE else Ok
      ensures res != Ok ==> Contents() == old(Contents()) && fdoffs == old(fdoffs)
      ensures res == Ok ==> Contents() == Overwrite(old(Contents()), off, ToLE(4, fd))
      ensures res == Ok ==> fdoffs == old(fdoffs) + [off] && GetFd(off) == fd
    {
      if refcount > 1 {
        return EPERM;
      }
      if off + 4 > len {
        return EINVAL;
      }
      if fd < 0 {
        return EBADF;
      }
      if |fdoffs| >= MAX_FD_COUNT {
        return ENFILE;
      }
      ghost var before := data[..];
      CopyIn(off, ToLE(4, fd));
      assert data[..] == before[..off] + ToLE(4, fd) + before[off + 4..];
      WriteIn(before, data[..], len, off, ToLE(4, fd));
      assert before[..len] == old(data[..len]) && data[..][..len] == data[..len];
      WordRoundTrip(fd);
      fdoffs := fdoffs + [off];
      res := Ok;
    }

    /** Close the descriptors owned, and forget the content. A large enough allocation is kept. */
    method ClearPartial(maxCapacity: nat) returns (res: Status)
      requires Valid()
      modifies this`data, this`len, this`fdoffs, this`closed
      ensures Valid() && (data == old(data) || fresh(data))
      ensures res == if refcount > 1 then EPERM else Ok
      ensures res != Ok ==> Contents() == old(Contents()) && fdoffs == old(fdoffs) && closed == old(closed)
      ensures res == Ok ==> Contents() == [] && fdoffs == []
      ensures res == Ok ==> closed == old(closed) + Owned(old(Contents()), old(fdoffs))
      ensures data.Length == if res == Ok && maxCapacity < old(data.Length) then maxCapacity else old(data.Length)
    {
      if refcount > 1 {
        return EPERM;
      }
      for i := 0 to |fdoffs|
        invariant data == old(data) && len == old(len) && fdoffs == old(fdoffs)
        invariant closed == old(closed) + Owned(data[..len], fdoffs[..i])
      {
        assert fdoffs[..i + 1][..i] == fdoffs[..i];
        var fd := GetFd(fdoffs[i]);
        if fd >= 0 {
          closed := closed + [fd];
        }
      }
      assert fdoffs[..|fdoffs|] == fdoffs;
      fdoffs, len := [], 0;
      if maxCapacity < data.Length {
        data := new byte[maxCapacity](_ => 0);
      }
      res := Ok;
    }

    method Ref()
      requires Valid()
      modifies this`refcount
      ensures Valid() && refcount == old(refcount) + 1
    {
      refcount := refcount + 1;
    }

    /** Give a reference back. With the last one, what the buffer owns is released. */
    method Unref() returns (freed: bool)
      requires Valid()
      modifies this`refcount, this`data, this`len, this`fdoffs, this`closed
      ensures freed <==> old(refcount) == 1
      ensures !freed ==> Valid() && refcount == old(refcount) - 1 && Contents() == old(Contents())
                         && fdoffs == old(fdoffs) && closed == old(closed)
      ensures freed ==> closed == old(closed) + Owned(old(Contents()), old(fdoffs))
    {
      freed := refcount == 1;
      if freed {
        var _ := ClearPartial(0);
      }
      refcount := refcount - 1;
    }

    method CopyIn(pos: nat, p: seq<byte>)
      requires Valid() && pos + |p| <= data.Length
      modifies data
      ensures data[..pos] == old(data[..pos]) && data[pos..pos + |p|] == p
      ensures data[pos + |p|..] == old(data[pos + |p|..])
    {
      for i := 0 to |p|
        invariant data[..pos] == old(data[..pos]) && data[pos..pos + i] == p[..i]
        invariant data[pos + |p|..] == old(data[pos + |p|..])
      {
        data[pos + i] := p[i];
      }
    }
  }
}
