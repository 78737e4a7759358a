/** The encoder and the decoder as objects that move a position over a message. */
module Coders {
  import opened Bytes
  import opened Wrappers
  import opened Codec
  import opened Args
  import Varint
  import B = Buffer

  /** What a write answers. `Overrun` is no answer: the copy goes past the storage. */
  datatype Status = Ok | EINVAL | EPERM | ENFILE | EMFILE | Overrun

  // ----- Storage -----

  /** The bytes up to the position of the encoder, header included, and the storage of the buffer. */
  datatype Store = Store(data: seq<byte>, capacity: nat)

  datatype Stored = Done(store: Store) | Refused(store: Store) | Lost

  /** One write to the buffer: it grows as rounding says, which may be refused, or be too little. */
  function PutPiece(s: Store, p: seq<byte>): Stored {
    var end := |s.data| + |p|;
    match B.Grown(s.capacity, |s.data|, end)
    case None => Refused(s)
    case Some(capacity) => if end <= capacity then Done(Store(s.data + p, capacity)) else Lost
  }

  /** Successive writes, up to the first one that fails. */
  function PutAll(s: Store, pieces: seq<seq<byte>>): Stored
    decreases |pieces|
  {
    if pieces == [] then Done(s)
    else
      var r := PutPiece(s, pieces[0]);
      if r.Done? then PutAll(r.store, pieces[1..]) else r
  }

  /** Before the first write the buffer is empty, and not as long as the header: that makes no difference. */
  lemma FirstPiece(capacity: nat)
    ensures B.Grown(capacity, 0, 13) == B.Grown(capacity, 12, 13)
  {
  }

  /** The longest message the buffer can hold. */
  function Limit(s: Store): nat {
    if s.capacity > B.MAX_SIZE then s.capacity else B.MAX_SIZE
  }

  predicate Within(s: Store) {
    |s.data| <= Limit(s)
  }

  /** A write is done if and only if it ends within the limit. Beyond, it is refused, unless rounding the end
      leaves the storage no smaller than what is written already, which takes more than 65536 bytes at once. */
  lemma PieceIff(s: Store, p: seq<byte>)
    requires Within(s)
    ensures
      var r, end := PutPiece(s, p), |s.data| + |p|;
      && (r.Done? <==> end <= Limit(s))
      && (r.Done? ==> r.store.data == s.data + p && Limit(r.store) == Limit(s) && Within(r.store))
      && (r.Lost? <==> end > Limit(s) && B.Align(end) >= |s.data|)
      && (r.Lost? ==> |p| > 0x1_0000)
  {
    B.AlignBound(|s.data| + |p|);
  }

  lemma {:induction false} PutAllIff(s: Store, pieces: seq<seq<byte>>)
    requires Within(s)
    ensures
      var r := PutAll(s, pieces);
      && (r.Done? <==> |s.data| + |Flatten(pieces)| <= Limit(s))
      && (r.Done? ==> r.store.data == s.data + Flatten(pieces) && Limit(r.store) == Limit(s))
      && (r.Lost? ==> exists i | 0 <= i < |pieces| :: |pieces[i]| > 0x1_0000)
    decreases |pieces|
  {
    hide PutPiece, Limit;
    if pieces != [] {
      PieceIff(s, pieces[0]);
      var r := PutPiece(s, pieces[0]);
      if r.Done? {
        PutAllIff(r.store, pieces[1..]);
        assert s.data + (pieces[0] + Flatten(pieces[1..])) == s.data + pieces[0] + Flatten(pieces[1..]);
      }
    }
  }

  // ----- Arguments -----

  predicate TooLong(a: Arg) {
    a.Text? && |a.bytes| + 1 > 0xffff
  }

  /** The writes made for an argument. A descriptor is first written as zero. */
  function Pieces(a: Arg): seq<seq<byte>>
    requires IsValue(a) && !TooLong(a)
  {
    match a
    case Number(k, v) => [[Tag(k)], EncodeData(a)]
    case Text(s) => [[Tag(STR)], Varint.Encode(|s| + 1), s + [0]]
    case Block(s) => [[Tag(BUF)], Varint.Encode(|s|), s]
    case Descriptor(_) => [[Tag(FD)], [0, 0, 0, 0]]
  }

  lemma Flatten2(a: seq<byte>, b: seq<byte>)
    ensures Flatten([a, b]) == a + b
  {
    assert [a, b][1..] == [b];
    assert Flatten([b]) == b + Flatten<byte>([]);
  }

  lemma Flatten3(a: seq<byte>, b: seq<byte>, c: seq<byte>)
    ensures Flatten([a, b, c]) == a + (b + c)
  {
    assert [a, b, c][1..] == [b, c];
    Flatten2(b, c);
  }

  /** Together they are the coding of the argument. */
  lemma PiecesAre(a: Arg)
    requires IsEncodable(a)
    ensures |Flatten(Pieces(a))| == |EncodeArg(a)|
    ensures !a.Descriptor? ==> Flatten(Pieces(a)) == EncodeArg(a)
  {
    match a {
      case Number(k, v) => Flatten2([Tag(k)], EncodeData(a));
      case Text(s) =>
        Flatten3([Tag(STR)], Varint.Encode(|s| + 1), s + [0]);
        assert Varint.Encode(|s| + 1) + (s + [0]) == Varint.Encode(|s| + 1) + s + [0];
      case Block(s) => Flatten3([Tag(BUF)], Varint.Encode(|s|), s);
      case Descriptor(_) => Flatten2([Tag(FD)], [0, 0, 0, 0]);
    }
  }

  /** Only a block has a piece that can be lost. */
  lemma {:induction false} SmallPieces(a: Arg)
    requires IsValue(a) && !TooLong(a) && !a.Block?
    ensures forall i | 0 <= i < |Pieces(a)| :: |Pieces(a)[i]| <= 0x1_0000
  {
    match a {
      case Number(k, v) =>
        NumberWordRoundTrip(k, v);
        Varint.EncodeLengths(ToWord(k, v));
      case Text(s) => Varint.EncodeLengths(|s| + 1);
      case Descriptor(_) =>
    }
  }

  /** Answer of a write. Finished messages and shared buffers are read-only, strings have a maximum size, the
      buffer has a limit, descriptors must be valid, there is room for four of them, and `dupOk` tells whether
      the system could duplicate one. */
  function StatusOf(a: Arg, finished: bool, shared: bool, fdcount: nat, dupOk: bool, s: Store): Status
    requires IsValue(a)
  {
    if finished then EPERM
    else if TooLong(a) then EINVAL
    else if shared then EPERM
    else if a.Descriptor? && a.fd < 0 then EINVAL
    else match PutAll(s, Pieces(a))
      case Lost => Overrun
      case Refused(_) => EINVAL
      case Done(_) =>
        if !a.Descriptor? then Ok
        else if !dupOk then EMFILE
        else if fdcount >= MAX_FD_COUNT then ENFILE
        else Ok
  }

  /** What a write leaves, a success included: the pieces written before a failure stay. */
  function Kept(a: Arg, finished: bool, shared: bool, s: Store): Store
    requires IsValue(a)
  {
    if finished || shared || TooLong(a) then s
    else
      var r := PutAll(s, if a.Descriptor? && a.fd < 0 then [[Tag(FD)]] else Pieces(a));
      if r.Lost? then s else r.store
  }

  /** Where a block ends, and where its bytes begin. */
  predicate BlockOverruns(s: Store, a: Arg)
    requires IsEncodable(a)
  {
    var end := |s.data| + |EncodeArg(a)|;
    a.Block? && end > Limit(s) && end - |a.bytes| <= Limit(s) && B.Align(end) >= end - |a.bytes|
  }

  /** A write to an unfinished message with a buffer of its own succeeds if and only if the argument is one that
      can be encoded, the message then ends within the limit, and a descriptor can be duplicated and has a place.
      It overruns the storage if and only if it is a block that begins within the limit and ends beyond it, where
      rounding its end gives at least what is written before it. */
  lemma StatusExact(a: Arg, fdcount: nat, dupOk: bool, s: Store)
    requires IsValue(a) && Within(s)
    ensures StatusOf(a, false, false, fdcount, dupOk, s) == Ok <==>
      && IsEncodable(a) && |s.data| + |EncodeArg(a)| <= Limit(s)
      && (a.Descriptor? ==> dupOk && fdcount < MAX_FD_COUNT)
    ensures StatusOf(a, false, false, fdcount, dupOk, s) == Overrun <==> IsEncodable(a) && BlockOverruns(s, a)
  {
    hide PutAll, EncodeArg, Limit, Pieces;
    if IsEncodable(a) {
      PiecesAre(a);
      PutAllIff(s, Pieces(a));
      if a.Block? {
        BlockLost(s, a);
      } else {
        SmallPieces(a);
      }
    }
  }

  lemma BlockLost(s: Store, a: Arg)
    requires IsEncodable(a) && a.Block? && Within(s)
    ensures PutAll(s, Pieces(a)).Lost? <==> BlockOverruns(s, a)
  {
    var tag, size, bytes := [Tag(BUF)], Varint.Encode(|a.bytes|), a.bytes;
    Varint.EncodeLengths(|a.bytes|);
    assert EncodeArg(a) == tag + (size + bytes);
    assert Pieces(a) == [tag, size, bytes];
    PutThree(s, tag, size, bytes);
    hide PutPiece, PutAll, Pieces, EncodeArg, Limit;
    PieceIff(s, tag);
    var r := PutPiece(s, tag);
    if r.Done? {
      PieceIff(r.store, size);
      var t := PutPiece(r.store, size);
      if t.Done? {
        PieceIff(t.store, bytes);
      }
    }
  }

  lemma PutThree(s: Store, a: seq<byte>, b: seq<byte>, c: seq<byte>)
    ensures
      var r := PutPiece(s, a);
      PutAll(s, [a, b, c]) ==
        if !r.Done? then r
        else
          var t := PutPiece(r.store, b);
          if !t.Done? then t else PutPiece(t.store, c)
  {
    hide PutPiece;
    assert [a, b, c][1..] == [b, c] && [b, c][1..] == [c] && [c][1..] == [];
    var r := PutPiece(s, a);
    if r.Done? {
      var t := PutPiece(r.store, b);
      if t.Done? {
        assert PutAll(t.store, [c]) == PutPiece(t.store, c);
      }
    }
  }

  lemma PutTwo(s: Store, a: seq<byte>, b: seq<byte>)
    ensures
      var r := PutPiece(s, a);
      PutAll(s, [a, b]) == if r.Done? then PutPiece(r.store, b) else r
  {
    hide PutPiece;
    assert [a, b][1..] == [b] && [b][1..] == [];
    var r := PutPiece(s, a);
    assert r.Done? ==> PutAll(r.store, [b]) == PutPiece(r.store, b);
  }

  lemma DonePiece(s: Store, p: seq<byte>)
    ensures PutPiece(s, p).Done? ==> PutPiece(s, p).store.data == s.data + p
  {
  }

  lemma PutOne(s: Store, a: seq<byte>)
    ensures PutAll(s, [a]) == PutPiece(s, a)
  {
  }

  /** The longest block, in a message of its own: four gigabytes are copied to 256 bytes. */
  lemma LongestBlockOverruns(header: seq<byte>, bytes: seq<byte>)
    requires |header| == 12 && |bytes| == 0xFFFF_FFFF
    ensures StatusOf(Block(bytes), false, false, 0, true, Store(header, 256)) == Overrun
  {
    var s, a := Store(header, 256), Block(bytes);
    Varint.EncodeLengths(|bytes|);
    assert |EncodeArg(a)| == 1 + |Varint.Encode(|bytes|)| + |bytes|;
    StatusExact(a, 0, true, s);
  }

  /** Nothing can be written to a message of 0xFFFFFF00 bytes that fills its storage. */
  lemma FullIsRefused(a: Arg, fdcount: nat, dupOk: bool, s: Store)
    requires IsEncodable(a) && |s.data| == s.capacity == B.MAX_SIZE
    ensures StatusOf(a, false, false, fdcount, dupOk, s) == EINVAL
  {
    StatusExact(a, fdcount, dupOk, s);
    var rest := |EncodeArg(a)|;
    if a.Block? {
      B.AlignBound(|s.data| + rest);
    }
  }

  /** Anything but a block is written or refused, at every piece. */
  lemma NotLost(a: Arg, s: Store)
    requires IsValue(a) && !TooLong(a) && !a.Block? && Within(s)
    ensures !PutAll(s, Pieces(a)).Lost?
    ensures !PutPiece(s, [Tag(FD)]).Lost?
  {
    SmallPieces(a);
    PutAllIff(s, Pieces(a));
    PieceIff(s, [Tag(FD)]);
  }

  /** After a success the message has grown by the coding of the argument; after anything it is within its limit. */
  lemma KeptIs(a: Arg, finished: bool, shared: bool, fdcount: nat, dupOk: bool, s: Store)
    requires IsValue(a) && Within(s)
    ensures
      var t := Kept(a, finished, shared, s);
      && Limit(t) == Limit(s) && Within(t)
      && (StatusOf(a, finished, shared, fdcount, dupOk, s) == Ok ==>
            && IsEncodable(a) && |t.data| == |s.data| + |EncodeArg(a)|
            && (!a.Descriptor? ==> t.data == s.data + EncodeArg(a)))
  {
    hide PutAll, PutPiece, EncodeArg, Pieces, Limit;
    if !finished && !shared && !TooLong(a) {
      KeptWithin(s, [[Tag(FD)]]);
      KeptWithin(s, Pieces(a));
      if IsEncodable(a) {
        PiecesAre(a);
        PutAllIff(s, Pieces(a));
      }
    }
  }

  lemma {:induction false} KeptWithin(s: Store, pieces: seq<seq<byte>>)
    requires Within(s)
    ensures var r := PutAll(s, pieces); !r.Lost? ==> Limit(r.store) == Limit(s) && Within(r.store)
    decreases |pieces|
  {
    hide Limit;
    if pieces != [] {
      PieceIff(s, pieces[0]);
      if PutPiece(s, pieces[0]).Done? {
        KeptWithin(PutPiece(s, pieces[0]).store, pieces[1..]);
      }
    }
  }

  lemma SubSlice(s: seq<byte>, p: nat, q: nat, n: nat)
    requires 0 < n && p + q + n <= |s|
    ensures s[p..][q..q + n - 1] == s[p + q..p + q + n][..n - 1] && s[p..][q + n - 1] == s[p + q..p + q + n][n - 1]
  {
  }

  class Encoder {
    var data: seq<byte>
    var capacity: nat
    var fdoffs: seq<nat>
    var finished: bool
    var shared: bool  // the buffer of the message has another holder

    ghost function Abs(): Msg
      reads this
    {
      Msg(data, fdoffs)
    }

    ghost function Buf(): Store
      reads this
    {
      Store(data, capacity)
    }

    ghost predicate Valid()
      reads this
    {
      Within(Buf())
    }

    constructor (header: seq<byte>, capacity: nat)
      requires |header| == 12
      ensures Valid() && Buf() == Store(header, capacity) && Abs() == Msg(header, []) && !finished && !shared
    {
      data, fdoffs, finished, shared := header, [], false, false;
      this.capacity := capacity;
    }

    /** One write to the buffer. */
    method Put(p: seq<byte>) returns (ok: bool)
      requires !PutPiece(Buf(), p).Lost?
      modifies this`data, this`capacity
      ensures var r := PutPiece(old(Buf()), p); (ok <==> r.Done?) && Buf() == r.store
    {
      var end := |data| + |p|;
      ok := true;
      if end > capacity {
        var rounded := B.Align(end);
        if rounded < |data| {
          return false;
        }
        capacity := rounded;
      }
      data := data + p;
    }

    method WriteNumber(k: Kind, v: int) returns (res: Status)
      requires Valid() && IsValue(Number(k, v))
      modifies this`data, this`capacity
      ensures res == StatusOf(Number(k, v), finished, shared, 0, true, old(Buf()))
      ensures Buf() == Kept(Number(k, v), finished, shared, old(Buf()))
    {
      if finished || shared {
        return EPERM;
      }
      NumberWordRoundTrip(k, v);
      var d: seq<byte>;
      if IsFixed(k) {
        d := ToLE(Size(k), ToWord(k, v));
      } else {
        d := Varint.WriteVarint(ToWord(k, v));
      }
      NotLost(Number(k, v), Buf());
      assert Pieces(Number(k, v)) == [[Tag(k)], d];
      PutTwo(Buf(), [Tag(k)], d);
      hide PutPiece, PutAll, Pieces, IsValue, Limit;
      var ok := Put([Tag(k)]);
      if ok {
        ok := Put(d);
      }
      res := if ok then Ok else EINVAL;
    }

    method WriteStr(s: seq<byte>) returns (res: Status)
      requires Valid() && IsValue(Text(s))
      modifies this`data, this`capacity
      ensures res == StatusOf(Text(s), finished, shared, 0, true, old(Buf()))
      ensures Buf() == Kept(Text(s), finished, shared, old(Buf()))
    {
      if finished {
        return EPERM;
      }
      var len := |s| + 1;
      if len > 0xffff {
        return EINVAL;
      }
      if shared {
        return EPERM;
      }
      NotLost(Text(s), Buf());
      PutThree(Buf(), [Tag(STR)], Varint.Encode(len), s + [0]);
      assert Pieces(Text(s)) == [[Tag(STR)], Varint.Encode(len), s + [0]];
      hide PutPiece, PutAll, Pieces, IsValue, Limit;
      var ok := Put([Tag(STR)]);
      if ok {
        var d := Varint.WriteVarint(len);
        ok := Put(d);
      }
      if ok {
        ok := Put(s + [0]);
      }
      res := if ok then Ok else EINVAL;
    }

    method WriteBuf(s: seq<byte>) returns (res: Status)
      requires Valid() && IsValue(Block(s)) && StatusOf(Block(s), finished, shared, 0, true, Buf()) != Overrun
      modifies this`data, this`capacity
      ensures res == StatusOf(Block(s), finished, shared, 0, true, old(Buf()))
      ensures Buf() == Kept(Block(s), finished, shared, old(Buf()))
    {
      if finished || shared {
        return EPERM;
      }
      PutThree(Buf(), [Tag(BUF)], Varint.Encode(|s|), s);
      assert Pieces(Block(s)) == [[Tag(BUF)], Varint.Encode(|s|), s];
      hide PutPiece, PutAll, Pieces, Limit;
      var ok := Put([Tag(BUF)]);
      if ok {
        var d := Varint.WriteVarint(|s|);
        ok := Put(d);
      }
      if ok {
        ok := Put(s);
      }
      res := if ok then Ok else EINVAL;
    }

    /** The tag goes out first, then a zero in the place of the descriptor, so that a refused descriptor leaves
        bytes behind. The number stored is that of the duplicate. */
    method WriteFd(fd: int, dupOk: bool) returns (res: Status)
      requires Valid() && IsValue(Descriptor(fd))
      modifies this`data, this`capacity, this`fdoffs
      ensures res == StatusOf(Descriptor(fd), finished, shared, |old(fdoffs)|, dupOk, old(Buf()))
      ensures res == Ok ==> fd >= 0 && Abs() == Append(old(Abs()), Descriptor(fd))
      ensures res == Ok ==> capacity == Kept(Descriptor(fd), finished, shared, old(Buf())).capacity
      ensures res != Ok ==> Buf() == Kept(Descriptor(fd), finished, shared, old(Buf())) && fdoffs == old(fdoffs)
    {
      if finished || shared {
        return EPERM;
      }
      NotLost(Descriptor(fd), Buf());
      PutOne(Buf(), [Tag(FD)]);
      PutTwo(Buf(), [Tag(FD)], [0, 0, 0, 0]);
      assert Pieces(Descriptor(fd)) == [[Tag(FD)], [0, 0, 0, 0]];
      DonePiece(Buf(), [Tag(FD)]);
      hide PutAll, PutPiece, Pieces, Limit, ToLE;
      var ok := Put([Tag(FD)]);
      if !ok || fd < 0 {
        return EINVAL;
      }
      var off := |data|;
      DonePiece(Buf(), [0, 0, 0, 0]);
      ok := Put([0, 0, 0, 0]);
      if !ok {
        return EINVAL;
      }
      if !dupOk || |fdoffs| >= MAX_FD_COUNT {
        return if !dupOk then EMFILE else ENFILE;
      }
      data := data[..off] + ToLE(4, fd);
      fdoffs := fdoffs + [off];
      assert data == old(data) + ([Tag(FD)] + ToLE(4, fd));
      res := Ok;
    }

    method Write(a: Arg, dupOk: bool) returns (res: Status)
      requires Valid() && IsValue(a) && StatusOf(a, finished, shared, |fdoffs|, dupOk, Buf()) != Overrun
      modifies this`data, this`capacity, this`fdoffs
      ensures res == StatusOf(a, finished, shared, |old(fdoffs)|, dupOk, old(Buf())) && Valid()
      ensures res == Ok ==> IsEncodable(a) && Abs() == Append(old(Abs()), a)
      ensures res == Ok ==> capacity == Kept(a, finished, shared, old(Buf())).capacity
      ensures res != Ok ==> Buf() == Kept(a, finished, shared, old(Buf())) && fdoffs == old(fdoffs)
    {
      KeptIs(a, finished, shared, |fdoffs|, dupOk, Buf());
      hide PutAll, Pieces, EncodeArg, Limit;
      match a {
        case Number(k, v) => res := WriteNumber(k, v);
        case Text(s) => res := WriteStr(s);
        case Block(s) => res := WriteBuf(s);
        case Descriptor(fd) => res := WriteFd(fd, dupOk);
      }
    }
  }

  class Decoder {
    const m: Msg
    var pos: nat

    constructor (m: Msg, pos: nat)
      ensures this.m == m && this.pos == pos
    {
      this.m, this.pos := m, pos;
    }

    /** Read a tag; stay in front of it if it is not the expected one. */
    method ReadTag(k: Kind) returns (ok: bool)
      modifies this`pos
      ensures ok <==> old(pos) < |m.data| && m.data[old(pos)] == Tag(k)
      ensures pos == if ok then old(pos) + 1 else old(pos)
    {
      if pos + 1 > |m.data| {
        return false;
      }
      var t := m.data[pos];
      pos := pos + 1;
      if t != Tag(k) {
        pos := pos - 1;
        return false;
      }
      ok := true;
    }

    method ReadBytes(n: nat) returns (r: Option<seq<byte>>)
      requires pos <= |m.data|
      modifies this`pos
      ensures r.Some? <==> old(pos) + n <= |m.data|
      ensures r.Some? ==> pos == old(pos) + n && r.value == m.data[old(pos)..pos]
      ensures r.None? ==> pos == old(pos)
    {
      if pos + n > |m.data| {
        return None;
      }
      r := Some(m.data[pos..pos + n]);
      pos := pos + n;
    }

    method ReadVarint() returns (r: Varint.Parsed)
      requires pos <= |m.data|
      modifies this`pos
      ensures r == Varint.Decode(m.data[old(pos)..])
      ensures r.Value? ==> pos == old(pos) + r.used && pos <= |m.data|
      ensures !r.Value? ==> old(pos) <= pos <= |m.data|
    {
      r := Varint.ReadVarint(m.data, pos);
      pos := if r.Value? then pos + r.used else |m.data|;
    }

    method ReadFixedData(k: Kind) returns (r: Outcome)
      requires pos <= |m.data| && IsFixed(k)
      modifies this`pos
      ensures r == DecodeData(k, m.data[old(pos)..], false)
      ensures old(pos) <= pos && (r.Got? ==> pos == old(pos) + r.used)
    {
      var d := ReadBytes(Size(k));
      if d.None? {
        return Bad;
      }
      assert d.value == m.data[old(pos)..][..Size(k)];
      r := Got(Number(k, FromWord(k, FromLE(d.value))), Size(k));
    }

    method ReadTextData() returns (r: Outcome)
      requires pos <= |m.data|
      modifies this`pos
      ensures r == DecodeData(STR, m.data[old(pos)..], false)
      ensures old(pos) <= pos && (r.Got? ==> pos == old(pos) + r.used)
    {
      hide CString, Varint.Decode;
      var size := ReadVarint();
      if !size.Value? {
        return if size.Short? then Bad else Outcome.Undefined;
      }
      var len := size.v % 0x1_0000;
      if len == 0 {
        return Bad;
      }
      var d := ReadBytes(len);
      if d.None? || d.value[len - 1] != 0 {
        return Bad;
      }
      SubSlice(m.data, old(pos), size.used, len);
      r := Got(Text(CString(d.value[..len - 1])), size.used + len);
    }

    method ReadBlockData() returns (r: Outcome)
      requires pos <= |m.data|
      modifies this`pos
      ensures r == DecodeData(BUF, m.data[old(pos)..], false)
      ensures old(pos) <= pos && (r.Got? ==> pos == old(pos) + r.used)
    {
      var size := ReadVarint();
      if !size.Value? {
        return if size.Short? then Bad else Outcome.Undefined;
      }
      var len := size.v % Varint.TWO_32;
      var d := ReadBytes(len);
      if d.None? {
        return Bad;
      }
      assert d.value == m.data[old(pos)..][size.used..size.used + len];
      r := Got(Block(d.value), size.used + len);
    }

    method ReadIntegerData(k: Kind) returns (r: Outcome)
      requires pos <= |m.data| && IsVarint(k)
      modifies this`pos
      ensures r == DecodeData(k, m.data[old(pos)..], false)
      ensures old(pos) <= pos && (r.Got? ==> pos == old(pos) + r.used)
    {
      var word := ReadVarint();
      if !word.Value? {
        return if word.Short? then Bad else Outcome.Undefined;
      }
      r := Got(Number(k, FromWord(k, word.v)), word.used);
    }

    /** Look the position up among the registered ones first. */
    method ReadFdData() returns (r: Outcome)
      requires pos <= |m.data|
      modifies this`pos
      ensures r == DecodeData(FD, m.data[old(pos)..], old(pos) in m.fdoffs)
      ensures old(pos) <= pos && (r.Got? ==> pos == old(pos) + r.used)
    {
      var i := 0;
      while i < |m.fdoffs| && m.fdoffs[i] != pos
        invariant 0 <= i <= |m.fdoffs| && pos == old(pos)
        invariant forall j | 0 <= j < i :: m.fdoffs[j] != pos
      {
        i := i + 1;
      }
      if i == |m.fdoffs| || pos + 4 > |m.data| {
        return Bad;
      }
      assert m.data[pos..pos + 4] == m.data[pos..][..4];
      var fd := Varint.Signed(0x8000_0000, FromLE(m.data[pos..pos + 4]));
      if fd < 0 {
        return Bad;
      }
      pos := pos + 4;
      r := Got(Descriptor(fd), 4);
    }

    method Read(k: Kind) returns (r: Outcome)
      modifies this`pos
      ensures r == DecodeArg(m, old(pos), k)
      ensures old(pos) <= pos && (r.Got? ==> pos == old(pos) + r.used)
    {
      var ok := ReadTag(k);
      if !ok {
        return Bad;
      }
      r := ReadData(k);
      if r.Got? {
        r := Got(r.arg, 1 + r.used);
      }
    }

    method ReadData(k: Kind) returns (r: Outcome)
      requires pos <= |m.data|
      modifies this`pos
      ensures r == DecodeData(k, m.data[old(pos)..], old(pos) in m.fdoffs)
      ensures old(pos) <= pos && (r.Got? ==> pos == old(pos) + r.used)
    {
      if k == STR {
        r := ReadTextData();
      } else if k == BUF {
        r := ReadBlockData();
      } else if k == FD {
        r := ReadFdData();
      } else if IsFixed(k) {
        r := ReadFixedData(k);
      } else {
        r := ReadIntegerData(k);
      }
    }

    /** The argument at the current position, whatever its kind. */
    method ReadNext(check: bool) returns (r: Outcome)
      requires pos < |m.data|
      modifies this`pos
      ensures r == NextArg(m, old(pos), check)
      ensures r.Got? ==> pos == old(pos) + r.used
    {
      var t := m.data[pos];
      match KindOfTag(t) {
        case None => r := Bad;
        case Some(k) =>
          if k == FD && !check {
            var skipped := ReadBytes(5);
            r := if skipped.Some? then Got(Descriptor(-1), 5) else Bad;
          } else {
            r := Read(k);
          }
      }
    }

    /** Give each argument to the callback until it answers no. */
    method WalkArgs(goOn: Arg -> bool, check: bool) returns (visited: seq<Arg>, ok: bool)
      modifies this`pos
      ensures Advances(WalkerOf(m, check), |m.data|)
      ensures var v := Walk(WalkerOf(m, check), |m.data|, old(pos), goOn);
        visited == v.args && ok == v.ok && (ok ==> pos == v.pos)
    {
      hide NextArg;
      WalkerAdvances(m, check);
      ghost var next := WalkerOf(m, check);
      ghost var v := Walk(next, |m.data|, pos, goOn);
      visited := [];
      while pos < |m.data|
        invariant var rest := Walk(next, |m.data|, pos, goOn); v == rest.(args := visited + rest.args)
        decreases |m.data| - pos
      {
        WalkStep(next, |m.data|, pos, goOn, visited, v);
        var r := ReadNext(check);
        if !r.Got? {
          return visited, false;
        }
        visited := visited + [r.arg];
        if !goOn(r.arg) {
          return visited, true;
        }
      }
      ok := true;
    }
  }
}
