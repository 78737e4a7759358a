/** Base-128 integers and zigzag, as written by src/pomp_encoder.c and read by src/pomp_decoder.c. Masks and
    shifts by seven bits are written as remainders and quotients by 128. */
module Varint {
  import opened Bytes

  const TWO_32: int := 0x1_0000_0000
  const TWO_64: int := 0x1_0000_0000_0000_0000

  function Encode(v: nat): (r: seq<byte>)
    ensures |r| >= 1
  {
    if v < 128 then [v] else [v % 128 + 128] + Encode(v / 128)
  }

  /** The number whose groups of seven bits are these, least significant first. */
  function Raw(s: seq<byte>): nat {
    if s == [] then 0 else s[0] as int % 128 + 128 * Raw(s[1..])
  }

  function Power(k: nat): (r: nat)
    ensures r >= 1
  {
    if k == 0 then 1 else 128 * Power(k - 1)
  }

  /** How many leading bytes announce another one. */
  function Leading(s: seq<byte>): (k: nat)
    ensures k <= |s|
    ensures forall i | 0 <= i < k :: s[i] >= 128
    ensures k < |s| ==> s[k] < 128
  {
    if s == [] || s[0] < 128 then 0 else 1 + Leading(s[1..])
  }

  /** Outcome of reading at some position: a value of 64 bits and the bytes used, or not enough bytes, or a
      shift by 64 bits or more, which C leaves undefined. */
  datatype Parsed = Value(v: nat, used: nat) | Short | Undefined

  function Decode(s: seq<byte>): Parsed {
    var k := Leading(s);
    if k >= 10 && |s| > 10 then Undefined
    else if k == |s| then Short
    else Value(Raw(s[..k + 1]) % TWO_64, k + 1)
  }

  /** A complete coding, of any length: all bytes but the last announce another one. */
  predicate IsVarint(s: seq<byte>) {
    && s != [] && s[|s| - 1] < 128
    && (forall i | 0 <= i < |s| - 1 :: s[i] >= 128)
  }

  // ----- Numbers and groups -----

  lemma {:induction false} RawAppend(s: seq<byte>, b: byte)
    ensures Raw(s + [b]) == Raw(s) + b as int % 128 * Power(|s|)
  {
    if s == [] {
      assert s + [b] == [b];
      assert Raw([b]) == b as int % 128 + 128 * Raw([]);
    } else {
      assert (s + [b])[1..] == s[1..] + [b];
      RawAppend(s[1..], b);
      Scale(b as int % 128, Power(|s| - 1));
    }
  }

  lemma Scale(x: int, p: int)
    ensures 128 * (x * p) == x * (128 * p)
  {
  }

  lemma {:induction false} RawBound(s: seq<byte>)
    ensures Raw(s) < Power(|s|)
  {
    if s != [] {
      RawBound(s[1..]);
    }
  }

  lemma RawCons(b: byte, t: seq<byte>)
    ensures Raw([b] + t) == b as int % 128 + 128 * Raw(t)
  {
    assert ([b] + t)[1..] == t;
  }

  lemma VarintCons(b: byte, t: seq<byte>)
    requires b >= 128 && IsVarint(t)
    ensures IsVarint([b] + t)
  {
    var s := [b] + t;
    assert s[|s| - 1] == t[|t| - 1];
    assert forall i | 0 < i < |s| :: s[i] == t[i - 1];
  }

  lemma {:induction false} EncodeIsVarint(v: nat)
    ensures IsVarint(Encode(v)) && Raw(Encode(v)) == v
  {
    if v < 128 {
      RawCons(v, []);
      assert [v] + [] == [v];
    } else {
      EncodeIsVarint(v / 128);
      VarintCons(v % 128 + 128, Encode(v / 128));
      RawCons(v % 128 + 128, Encode(v / 128));
    }
  }

  // ----- Length -----

  lemma {:induction false} EncodeLength(v: nat, k: nat)
    requires k >= 1 && v < Power(k)
    ensures |Encode(v)| <= k
  {
    if v >= 128 {
      assert Power(1) == 128 * Power(0);
      assert k > 1;
      EncodeLength(v / 128, k - 1);
    }
  }

  /** At most three bytes for 16 bits, five for 32, ten for 64. */
  lemma EncodeLengths(v: nat)
    ensures v < 0x1_0000 ==> |Encode(v)| <= 3
    ensures v < TWO_32 ==> |Encode(v)| <= 5
    ensures v < TWO_64 ==> |Encode(v)| <= 10
  {
    assert Power(3) == 128 * 128 * 128;
    assert Power(6) == 128 * 128 * 128 * Power(3);
    assert Power(5) == 128 * 128 * Power(3);
    assert Power(9) == 128 * 128 * 128 * Power(6);
    assert Power(10) == 128 * Power(9);
    if v < 0x1_0000 { EncodeLength(v, 3); }
    if v < TWO_32 { EncodeLength(v, 5); }
    if v < TWO_64 { EncodeLength(v, 10); }
  }

  /** No coding of a number is shorter than the encoder's, and the encoder's is the only one that does not
      end with a useless zero group. */
  lemma {:induction false} Minimal(s: seq<byte>)
    requires IsVarint(s)
    ensures |Encode(Raw(s))| <= |s|
    ensures s == Encode(Raw(s)) <==> |s| == 1 || s[|s| - 1] != 0
  {
    var t := s[1..];
    assert s == [s[0]] + t;
    RawCons(s[0], t);
    if |s| > 1 {
      Minimal(t);
      EncodeIsVarint(0);
      if Raw(t) > 0 {
        MinimalStep(s[0], t);
      }
    }
  }

  lemma MinimalStep(b: byte, t: seq<byte>)
    requires b >= 128 && Raw(t) > 0
    ensures var r := Encode(Raw([b] + t)); |r| == 1 + |Encode(Raw(t))| && (r == [b] + t <==> Encode(Raw(t)) == t)
  {
    RawCons(b, t);
    var v := Raw([b] + t);
    assert v / 128 == Raw(t) && v % 128 + 128 == b as int;
    assert Encode(v) == [b] + Encode(Raw(t));
    assert ([b] + t)[1..] == t && Encode(v)[1..] == Encode(Raw(t));
  }

  // ----- Reading back -----

  lemma LeadingOf(s: seq<byte>, suffix: seq<byte>)
    requires IsVarint(s)
    ensures Leading(s + suffix) == |s| - 1
  {
    var k := Leading(s + suffix);
    var n := |s| - 1;
    assert (s + suffix)[n] == s[n];
    forall i | 0 <= i < n
      ensures (s + suffix)[i] >= 128
    {
      assert (s + suffix)[i] == s[i];
    }
  }

  /** Reading what was written, whatever follows, gives the value back and leaves what follows. */
  lemma RoundTrip(v: nat, suffix: seq<byte>)
    requires v < TWO_64
    ensures Decode(Encode(v) + suffix) == Value(v, |Encode(v)|)
  {
    hide Encode, Decode, Raw, IsVarint;
    EncodeIsVarint(v);
    EncodeLengths(v);
    DecodeVarint(Encode(v), suffix);
  }

  lemma PrefixFree(a: nat, b: nat)
    requires Encode(a) <= Encode(b)
    ensures a == b
  {
    hide Raw, Encode;
    EncodeIsVarint(a);
    EncodeIsVarint(b);
    var s, t := Encode(a), Encode(b);
    assert t[|s| - 1] == s[|s| - 1];
    assert |s| == |t| && s == t;
  }

  /** Every coding of at most ten bytes is read as the number it denotes, modulo 2^64. */
  lemma DecodeVarint(s: seq<byte>, suffix: seq<byte>)
    requires IsVarint(s) && |s| <= 10
    ensures Decode(s + suffix) == Value(Raw(s) % TWO_64, |s|)
  {
    LeadingOf(s, suffix);
    assert (s + suffix)[..|s|] == s;
  }

  /** Bytes that arrive later do not change a value already complete. */
  lemma DecodeStable(s: seq<byte>, suffix: seq<byte>)
    requires Decode(s).Value?
    ensures Decode(s + suffix) == Decode(s)
  {
    var k := Leading(s);
    var t := s[..k + 1];
    assert IsVarint(t);
    assert s + suffix == t + (s[k + 1..] + suffix);
    DecodeVarint(t, s[k + 1..] + suffix);
  }

  // ----- The loops -----

  lemma EncodeStep(v: nat, low: seq<byte>)
    ensures v / 128 != 0 ==> low + Encode(v) == low + [v % 128 + 128] + Encode(v / 128)
    ensures v / 128 == 0 ==> Encode(v) == [v % 128]
  {
  }

  /** The encoder's loop: the digits fill a local array of ten bytes. */
  method WriteVarint(value: nat) returns (r: seq<byte>)
    requires value < TWO_64
    ensures r == Encode(value)
  {
    hide Encode;
    EncodeLengths(value);
    var d := new byte[10];
    var n, v, more := 0, value, true;
    while more
      invariant 0 <= n <= 10
      invariant more ==> Encode(value) == d[..n] + Encode(v)
      invariant !more ==> Encode(value) == d[..n]
      decreases if more then 1 + v else 0
    {
      var b: nat := v % 128;
      ghost var was, low := v, d[..n];
      v := v / 128;
      more := v != 0;
      if more {
        b := b + 128;
      }
      EncodeStep(was, low);
      d[n] := b;
      assert d[..n + 1] == low + [b];
      n := n + 1;
    }
    r := d[..n];
  }

  lemma AddModulo(a: nat, b: nat)
    ensures (a % TWO_64 + b) % TWO_64 == (a + b) % TWO_64
  {
    var q := a / TWO_64;
    assert a + b == (a % TWO_64 + b) + TWO_64 * q;
  }

  lemma DecodeAt(s: seq<byte>, k: nat)
    requires k <= |s| && (forall i | 0 <= i < k :: s[i] >= 128)
    ensures k == |s| && k <= 10 ==> Decode(s) == Short
    ensures k == 10 && |s| > 10 ==> Decode(s) == Undefined
    ensures k < |s| && k < 10 && s[k] < 128 ==> Decode(s) == Value(Raw(s[..k + 1]) % TWO_64, k + 1)
  {
    var n := Leading(s);
    assert n < |s| ==> s[n] < 128;
  }

  lemma AddGroup(s: seq<byte>, k: nat)
    requires k < |s|
    ensures Raw(s[..k + 1]) < Power(k + 1)
    ensures Raw(s[..k + 1]) % TWO_64 == (Raw(s[..k]) % TWO_64 + s[k] as int % 128 * Power(k)) % TWO_64
  {
    assert s[..k + 1] == s[..k] + [s[k]];
    RawAppend(s[..k], s[k]);
    RawBound(s[..k + 1]);
    AddModulo(Raw(s[..k]), s[k] as int % 128 * Power(k));
  }

  lemma NoGroups(s: seq<byte>)
    ensures Raw(s[..0]) == 0 && Power(0) == 1
  {
  }

  /** The decoder's loop. The value stays below the weight of the next group, so that setting the bits of
      the group is adding them. */
  method ReadVarint(buf: seq<byte>, start: nat) returns (r: Parsed)
    requires start <= |buf|
    ensures r == Decode(buf[start..])
  {
    hide Raw, Power, Leading, Decode;
    ghost var s := buf[start..];
    var v, k := 0, 0;
    NoGroups(s);
    while true
      invariant 0 <= k <= 10 && start + k <= |buf|
      invariant forall i | 0 <= i < k :: s[i] >= 128
      invariant 0 <= v < Power(k) && v == Raw(s[..k]) % TWO_64
      decreases |buf| - start - k
    {
      DecodeAt(s, k);
      if start + k == |buf| {
        return Short;
      }
      if k == 10 {
        return Undefined;
      }
      var b := buf[start + k];
      AddGroup(s, k);
      v := (v + b as int % 128 * Power(k)) % TWO_64;
      k := k + 1;
      if b < 128 {
        return Value(v, k);
      }
    }
  }

  // ----- Zigzag -----

  const HALF_32: int := 0x8000_0000
  const HALF_64: int := 0x8000_0000_0000_0000

  /** Two's complement reading of a word of `2 * half` values. */
  function Signed(half: int, x: nat): int {
    if x < half then x else x - 2 * half
  }

  /** Shift left, then exclusive or with the sign spread over the word: zero, or all ones. */
  function Zigzag(half: int, v: int): int
    requires half > 0
  {
    var shifted := 2 * v % (2 * half);
    if v < 0 then 2 * half - 1 - shifted else shifted
  }

  /** Shift right without sign, narrow to the word, then exclusive or with zero or minus one. */
  function Unzigzag(half: int, d: nat): int
    requires half > 0
  {
    var x := Signed(half, d / 2 % (2 * half));
    if d % 2 == 1 then -x - 1 else x
  }

  predicate Width(half: int) {
    half == HALF_32 || half == HALF_64
  }

  lemma ZigzagValue(half: int, v: int)
    requires Width(half) && -half <= v < half
    ensures Zigzag(half, v) == if v < 0 then -2 * v - 1 else 2 * v
  {
    if half == HALF_32 {
    } else {
    }
  }

  lemma UnzigzagValue(half: int, d: nat)
    requires Width(half) && d < 2 * half
    ensures Unzigzag(half, d) == if d % 2 == 1 then -(d / 2) - 1 else d / 2
  {
    if half == HALF_32 {
    } else {
    }
  }

  /** Zigzag is a bijection between the signed and the unsigned words, at both widths. */
  lemma ZigzagBijection(half: int, v: int, d: nat)
    requires Width(half) && -half <= v < half && d < 2 * half
    ensures 0 <= Zigzag(half, v) < 2 * half && -half <= Unzigzag(half, d) < half
    ensures Unzigzag(half, Zigzag(half, v)) == v
    ensures Zigzag(half, Unzigzag(half, d)) == d
  {
    ZigzagValue(half, v);
    UnzigzagValue(half, Zigzag(half, v));
    UnzigzagValue(half, d);
    ZigzagValue(half, Unzigzag(half, d));
  }

  /** Small magnitudes, of either sign, get short codings. */
  lemma ZigzagShort(half: int, v: int)
    requires Width(half) && -half <= v < half
    ensures -64 <= v < 64 <==> |Encode(Zigzag(half, v))| == 1
  {
    ZigzagValue(half, v);
  }
}
