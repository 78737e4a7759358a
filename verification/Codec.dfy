/** Typed arguments of a message: how src/pomp_encoder.c lays them out after the header, and how
    src/pomp_decoder.c reads them back. */
module Codec {
  import opened Bytes
  import opened Wrappers
  import Varint

  datatype Kind = I8 | U8 | I16 | U16 | I32 | U32 | I64 | U64 | STR | BUF | F32 | F64 | FD

  /** Floating point numbers are their bit patterns. Text is the characters before the terminator. */
  datatype Arg = Number(kind: Kind, value: int) | Text(bytes: seq<byte>) | Block(bytes: seq<byte>)
               | Descriptor(fd: int)
  {
    function Kind(): Kind {
      match this
      case Number(kind, _) => kind
      case Text(_) => STR
      case Block(_) => BUF
      case Descriptor(_) => FD
    }
  }

  function Tag(k: Kind): byte {
    match k
    case I8 => 1 case U8 => 2 case I16 => 3 case U16 => 4 case I32 => 5 case U32 => 6 case I64 => 7 case U64 => 8
    case STR => 9 case BUF => 10 case F32 => 11 case F64 => 12 case FD => 13
  }

  function KindOfTag(t: byte): Option<Kind> {
    if t == 1 then Some(I8) else if t == 2 then Some(U8) else if t == 3 then Some(I16) else if t == 4 then Some(U16)
    else if t == 5 then Some(I32) else if t == 6 then Some(U32) else if t == 7 then Some(I64)
    else if t == 8 then Some(U64) else if t == 9 then Some(STR) else if t == 10 then Some(BUF)
    else if t == 11 then Some(F32) else if t == 12 then Some(F64) else if t == 13 then Some(FD) else None
  }

  lemma TagRoundTrip(k: Kind, t: byte)
    ensures KindOfTag(Tag(k)) == Some(k)
    ensures KindOfTag(t).Some? <==> 1 <= t <= 13
    ensures KindOfTag(t).Some? ==> Tag(KindOfTag(t).value) == t
  {
  }

  predicate IsFixed(k: Kind) { k.I8? || k.U8? || k.I16? || k.U16? || k.F32? || k.F64? }

  predicate IsVarint(k: Kind) { k.I32? || k.U32? || k.I64? || k.U64? }

  predicate IsSigned(k: Kind) { k.I8? || k.I16? || k.I32? || k.I64? }

  /** Half the number of values of the kind. */
  function Half(k: Kind): int
    requires IsFixed(k) || IsVarint(k)
  {
    match k
    case I8 => 0x80 case U8 => 0x80
    case I16 => 0x8000 case U16 => 0x8000
    case I32 => 0x8000_0000 case U32 => 0x8000_0000 case F32 => 0x8000_0000
    case _ => 0x8000_0000_0000_0000
  }

  /** Size of the data of a fixed kind. */
  function Size(k: Kind): nat
    requires IsFixed(k)
  {
    match k
    case I8 => 1 case U8 => 1 case I16 => 2 case U16 => 2 case F32 => 4
    case _ => 8
  }

  /** Values the C types of the interface can hold. Strings longer than the protocol allows are included. */
  predicate IsValue(a: Arg) {
    match a
    case Number(k, v) =>
      (IsFixed(k) || IsVarint(k)) && if IsSigned(k) then -Half(k) <= v < Half(k) else 0 <= v < 2 * Half(k)
    case Text(s) => forall i | 0 <= i < |s| :: s[i] != 0
    case Block(s) => |s| < Varint.TWO_32
    case Descriptor(fd) => -0x8000_0000 <= fd < 0x8000_0000
  }

  /** The ones the encoder takes, as long as the buffer has room. */
  predicate IsEncodable(a: Arg) {
    && IsValue(a)
    && (a.Text? ==> |a.bytes| + 1 <= 0xffff)
    && (a.Descriptor? ==> a.fd >= 0)
  }

  // ----- One argument -----

  /** The word that stands for a number: two's complement, or zigzag before a varint. */
  function ToWord(k: Kind, v: int): nat
    requires IsValue(Number(k, v))
  {
    if IsFixed(k) then v % (2 * Half(k))
    else if IsSigned(k) then
      Varint.ZigzagBijection(Half(k), v, 0);
      Varint.Zigzag(Half(k), v)
    else v
  }

  /** Narrowing to the width of the kind is part of the conversion. */
  function FromWord(k: Kind, w: nat): int
    requires IsFixed(k) || IsVarint(k)
  {
    if IsFixed(k) then (if IsSigned(k) then Varint.Signed(Half(k), w) else w)
    else if IsSigned(k) then Varint.Unzigzag(Half(k), w)
    else w % (2 * Half(k))
  }

  function EncodeData(a: Arg): (s: seq<byte>)
    requires IsEncodable(a)
    ensures |s| >= 1
  {
    match a
    case Number(k, v) =>
      if IsFixed(k) then ToLE(Size(k), ToWord(k, v)) else Varint.Encode(ToWord(k, v))
    case Text(s) => Varint.Encode(|s| + 1) + s + [0]
    case Block(s) => Varint.Encode(|s|) + s
    case Descriptor(fd) => ToLE(4, fd)
  }

  function EncodeArg(a: Arg): seq<byte>
    requires IsEncodable(a)
  {
    [Tag(a.Kind())] + EncodeData(a)
  }

  /** An argument and how many bytes it took; or an error; or a varint C gives no meaning to. */
  datatype Outcome = Got(arg: Arg, used: nat) | Bad | Undefined

  /** Characters before the first terminator. */
  function CString(s: seq<byte>): seq<byte> {
    if s == [] || s[0] == 0 then [] else [s[0]] + CString(s[1..])
  }

  lemma {:induction false} CStringWhole(s: seq<byte>)
    requires forall i | 0 <= i < |s| :: s[i] != 0
    ensures CString(s) == s
  {
    if s != [] {
      CStringWhole(s[1..]);
    }
  }

  function DecodeText(s: seq<byte>, used: nat, len: nat): Outcome
    requires used <= |s|
  {
    if len == 0 || used + len > |s| || s[used + len - 1] != 0 then Bad
    else Got(Text(CString(s[used..used + len - 1])), used + len)
  }

  function DecodeBlock(s: seq<byte>, used: nat, len: nat): Outcome
    requires used <= |s|
  {
    if used + len > |s| then Bad else Got(Block(s[used..used + len]), used + len)
  }

  /** Descriptors are read only where one was registered. */
  function DecodeFd(s: seq<byte>, registered: bool): Outcome {
    if !registered || |s| < 4 then Bad
    else
      var fd := Varint.Signed(0x8000_0000, FromLE(s[..4]));
      if fd < 0 then Bad else Got(Descriptor(fd), 4)
  }

  /** `s` is what follows the tag. */
  function DecodeData(k: Kind, s: seq<byte>, registered: bool): Outcome {
    if IsFixed(k) then
      if |s| < Size(k) then Bad else Got(Number(k, FromWord(k, FromLE(s[..Size(k)]))), Size(k))
    else if k == FD then DecodeFd(s, registered)
    else match Varint.Decode(s)
      case Short => Bad
      case Undefined => Undefined
      case Value(w, used) =>
        if k == STR then DecodeText(s, used, w % 0x1_0000)
        else if k == BUF then DecodeBlock(s, used, w % Varint.TWO_32)
        else Got(Number(k, FromWord(k, w)), used)
  }

  lemma NumberWordRoundTrip(k: Kind, v: int)
    requires IsValue(Number(k, v))
    ensures ToWord(k, v) < 2 * Half(k) && FromWord(k, ToWord(k, v)) == v
  {
    if IsVarint(k) && IsSigned(k) {
      Varint.ZigzagBijection(Half(k), v, 0);
    }
  }

  lemma NumberRoundTrip(k: Kind, v: int, suffix: seq<byte>)
    requires IsValue(Number(k, v))
    ensures var s := EncodeData(Number(k, v)); DecodeData(k, s + suffix, false) == Got(Number(k, v), |s|)
  {
    var s := EncodeData(Number(k, v));
    NumberWordRoundTrip(k, v);
    if IsFixed(k) {
      Weights();
      LERoundTrip(Size(k), ToWord(k, v));
      assert (s + suffix)[..Size(k)] == s;
    } else {
      Varint.RoundTrip(ToWord(k, v), suffix);
    }
  }

  lemma Sized(k: Kind, s: seq<byte>, p: Varint.Parsed, registered: bool := false)
    requires k.STR? || k.BUF?
    requires p.Value? && p == Varint.Decode(s)
    ensures DecodeData(k, s, registered) ==
      if k.STR? then DecodeText(s, p.used, p.v % 0x1_0000) else DecodeBlock(s, p.used, p.v % Varint.TWO_32)
  {
  }

  lemma TextBetween(head: seq<byte>, t: seq<byte>, suffix: seq<byte>)
    requires forall i | 0 <= i < |t| :: t[i] != 0
    ensures DecodeText(head + (t + [0] + suffix), |head|, |t| + 1) == Got(Text(t), |head| + |t| + 1)
  {
    var s := head + (t + [0] + suffix);
    CStringWhole(t);
    assert s[|head|..|head| + |t|] == t && s[|head| + |t|] == 0;
  }

  lemma TextAfter(head: seq<byte>, t: seq<byte>, suffix: seq<byte>)
    requires IsEncodable(Text(t))
    requires Varint.Decode(head + (t + [0] + suffix)) == Varint.Value(|t| + 1, |head|)
    ensures DecodeData(STR, head + t + [0] + suffix, false) == Got(Text(t), |head| + |t| + 1)
  {
    hide DecodeData, DecodeText, Varint.Decode;
    TextBetween(head, t, suffix);
    Sized(STR, head + (t + [0] + suffix), Varint.Value(|t| + 1, |head|));
    assert head + t + [0] + suffix == head + (t + [0] + suffix);
  }

  lemma TextRoundTrip(t: seq<byte>, suffix: seq<byte>)
    requires IsEncodable(Text(t))
    ensures var s := EncodeData(Text(t)); DecodeData(STR, s + suffix, false) == Got(Text(t), |s|)
  {
    Varint.RoundTrip(|t| + 1, t + [0] + suffix);
    TextAfter(Varint.Encode(|t| + 1), t, suffix);
  }

  lemma BlockBetween(head: seq<byte>, t: seq<byte>, suffix: seq<byte>)
    ensures DecodeBlock(head + (t + suffix), |head|, |t|) == Got(Block(t), |head| + |t|)
  {
    assert (head + (t + suffix))[|head|..|head| + |t|] == t;
  }

  lemma BlockAfter(head: seq<byte>, t: seq<byte>, suffix: seq<byte>)
    requires IsEncodable(Block(t))
    requires Varint.Decode(head + (t + suffix)) == Varint.Value(|t|, |head|)
    ensures DecodeData(BUF, head + t + suffix, false) == Got(Block(t), |head| + |t|)
  {
    hide DecodeData, DecodeBlock, Varint.Decode;
    BlockBetween(head, t, suffix);
    Sized(BUF, head + (t + suffix), Varint.Value(|t|, |head|));
    assert head + t + suffix == head + (t + suffix);
  }

  lemma BlockRoundTrip(t: seq<byte>, suffix: seq<byte>)
    requires IsEncodable(Block(t))
    ensures var s := EncodeData(Block(t)); DecodeData(BUF, s + suffix, false) == Got(Block(t), |s|)
  {
    Varint.RoundTrip(|t|, t + suffix);
    BlockAfter(Varint.Encode(|t|), t, suffix);
  }

  // ----- What is accepted, of any bytes -----

  /** Data of a fixed size is accepted if and only if it is all there; a descriptor also has to be registered and not
      negative. */
  lemma FixedExactly(k: Kind, s: seq<byte>, registered: bool)
    requires IsFixed(k) || k == FD
    ensures
      var r := DecodeData(k, s, registered);
      if k == FD then
        if registered && |s| >= 4 && s[3] < 128 then r == Got(Descriptor(FromLE(s[..4])), 4) else r == Bad
      else
        if |s| >= Size(k) then r.Got? && r.used == Size(k) && r.arg.Kind() == k else r == Bad
  {
    if k == FD && |s| >= 4 {
      TopByte(s[..4]);
    }
  }

  lemma TopByte(s: seq<byte>)
    requires |s| == 4
    ensures FromLE(s) < 0x8000_0000 <==> s[3] < 128
    ensures FromLE(s) < 0x1_0000_0000
  {
    assert FromLE(s[3..]) == s[3] as int;
    assert FromLE(s[2..]) == s[2] as int + 256 * FromLE(s[3..]) by { assert s[2..][1..] == s[3..]; }
    assert FromLE(s[1..]) == s[1] as int + 256 * FromLE(s[2..]) by { assert s[1..][1..] == s[2..]; }
  }

  /** After a coding of at most ten bytes, a number is always accepted. */
  lemma NumberExactly(k: Kind, head: seq<byte>, rest: seq<byte>, registered: bool)
    requires IsVarint(k) && Varint.IsVarint(head) && |head| <= 10
    ensures
      var r := DecodeData(k, head + rest, registered);
      r.Got? && r.used == |head| && r.arg.Kind() == k
  {
    hide Varint.Decode, Varint.Raw, Varint.IsVarint, FromWord;
    Varint.DecodeVarint(head, rest);
  }

  /** A block is accepted if and only if as many bytes as announced follow, 32 bits of the announcement counting, and
      it is those bytes. */
  lemma BlockExactly(head: seq<byte>, rest: seq<byte>, registered: bool)
    requires Varint.IsVarint(head) && |head| <= 10
    ensures
      var r, len := DecodeData(BUF, head + rest, registered), Varint.Raw(head) % Varint.TWO_64 % Varint.TWO_32;
      r == if len <= |rest| then Got(Block(rest[..len]), |head| + len) else Bad
  {
    hide DecodeData, Varint.Decode, Varint.Raw, Varint.IsVarint;
    var s, n := head + rest, Varint.Raw(head) % Varint.TWO_64;
    Varint.DecodeVarint(head, rest);
    Sized(BUF, s, Varint.Value(n, |head|), registered);
    var len := n % Varint.TWO_32;
    if len <= |rest| {
      assert s[|head|..|head| + len] == rest[..len];
    }
  }

  /** A string is accepted if and only if as many bytes as announced follow, 16 bits of the announcement counting, and
      the last of them is the terminator; it is those before the first terminator. */
  lemma TextExactly(head: seq<byte>, rest: seq<byte>, registered: bool)
    requires Varint.IsVarint(head) && |head| <= 10
    ensures
      var r, len := DecodeData(STR, head + rest, registered), Varint.Raw(head) % Varint.TWO_64 % 0x1_0000;
      if 1 <= len <= |rest| && rest[len - 1] == 0 then
        && r.Got? && r.used == |head| + len && r.arg.Text? && r.arg.bytes < rest[..len]
        && (forall i | 0 <= i < |r.arg.bytes| :: r.arg.bytes[i] != 0) && rest[|r.arg.bytes|] == 0
      else r == Bad
  {
    hide DecodeData, DecodeText, Varint.Decode, Varint.Raw, Varint.IsVarint;
    var n := Varint.Raw(head) % Varint.TWO_64;
    Varint.DecodeVarint(head, rest);
    Sized(STR, head + rest, Varint.Value(n, |head|), registered);
    TextOf(head, rest, n % 0x1_0000);
  }

  lemma TextOf(head: seq<byte>, rest: seq<byte>, len: nat)
    ensures
      var r := DecodeText(head + rest, |head|, len);
      if 1 <= len <= |rest| && rest[len - 1] == 0 then
        && r.Got? && r.used == |head| + len && r.arg.Text? && r.arg.bytes < rest[..len]
        && (forall i | 0 <= i < |r.arg.bytes| :: r.arg.bytes[i] != 0) && rest[|r.arg.bytes|] == 0
      else r == Bad
  {
    hide CString;
    var s := head + rest;
    if 1 <= len <= |rest| {
      var t := rest[..len - 1];
      assert s[|head|..|head| + len - 1] == t && s[|head| + len - 1] == rest[len - 1];
      CStringIs(t);
    }
  }

  lemma {:induction false} CStringIs(s: seq<byte>)
    ensures CString(s) <= s && (forall i | 0 <= i < |CString(s)| :: CString(s)[i] != 0)
    ensures |CString(s)| < |s| ==> s[|CString(s)|] == 0
  {
    if s != [] && s[0] != 0 {
      CStringIs(s[1..]);
    }
  }

  /** Without a coding of at most ten bytes nothing is accepted: bytes are missing, or C gives the shift no meaning. */
  lemma NothingSized(k: Kind, s: seq<byte>, registered: bool)
    requires !IsFixed(k) && k != FD && (forall n | 0 < n <= 10 && n <= |s| :: !Varint.IsVarint(s[..n]))
    ensures DecodeData(k, s, registered) == if |s| <= 10 then Bad else Undefined
  {
    var n := Varint.Leading(s);
    if n < |s| {
      assert Varint.IsVarint(s[..n + 1]);
    }
  }

  /** Reading the data of an argument, whatever follows, gives it back and leaves what follows. */
  lemma DataRoundTrip(a: Arg, suffix: seq<byte>, registered: bool)
    requires IsEncodable(a) && (a.Descriptor? ==> registered)
    ensures DecodeData(a.Kind(), EncodeData(a) + suffix, registered) == Got(a, |EncodeData(a)|)
  {
    match a {
      case Number(k, v) => NumberRoundTrip(k, v, suffix);
      case Text(t) => TextRoundTrip(t, suffix);
      case Block(t) => BlockRoundTrip(t, suffix);
      case Descriptor(fd) =>
        Weights();
        LERoundTrip(4, fd);
        assert (EncodeData(a) + suffix)[..4] == EncodeData(a);
    }
  }
}
