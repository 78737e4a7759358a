/** Bytes and the little endian words of the protocol. */
module Bytes {
  type byte = x: int | 0 <= x < 256
  type u32 = x: int | 0 <= x < 0x1_0000_0000

  /** How many descriptors a buffer can hold. */
  const MAX_FD_COUNT: nat := 4

  // ----- Little endian words -----

  /** `n` bytes, low order first. */
  function ToLE(n: nat, w: nat): (s: seq<byte>)
    ensures |s| == n
  {
    if n == 0 then [] else [w % 256] + ToLE(n - 1, w / 256)
  }

  function FromLE(s: seq<byte>): nat {
    if s == [] then 0 else s[0] as int + 256 * FromLE(s[1..])
  }

  /** Number of values of that many bytes. */
  function Weight(n: nat): (r: nat)
    ensures r >= 1
  {
    if n == 0 then 1 else 256 * Weight(n - 1)
  }

  lemma Weights()
    ensures Weight(1) == 0x100 && Weight(2) == 0x1_0000 && Weight(4) == 0x1_0000_0000
    ensures Weight(8) == 0x1_0000_0000_0000_0000
  {
    assert Weight(2) == 256 * Weight(1);
    assert Weight(4) == 256 * 256 * Weight(2);
    assert Weight(6) == 256 * 256 * Weight(4);
    assert Weight(8) == 256 * 256 * Weight(6);
  }

  lemma {:induction false} LERoundTrip(n: nat, w: nat)
    requires w < Weight(n)
    ensures FromLE(ToLE(n, w)) == w
  {
    if n > 0 {
      LERoundTrip(n - 1, w / 256);
      assert ToLE(n, w)[1..] == ToLE(n - 1, w / 256);
    }
  }

  lemma {:induction false} LEBound(s: seq<byte>)
    ensures FromLE(s) < Weight(|s|)
  {
    if s != [] {
      LEBound(s[1..]);
    }
  }

  lemma SameDigit(a: byte, restA: nat, b: byte, restB: nat)
    requires a + 256 * restA == b + 256 * restB
    ensures a == b && restA == restB
  {
  }

  lemma {:induction false} LEInjective(a: seq<byte>, b: seq<byte>)
    requires |a| == |b| && FromLE(a) == FromLE(b)
    ensures a == b
  {
    if a != [] {
      SameDigit(a[0], FromLE(a[1..]), b[0], FromLE(b[1..]));
      LEInjective(a[1..], b[1..]);
      assert a == [a[0]] + a[1..] && b == [b[0]] + b[1..];
    }
  }

  /** A word of four bytes. */
  function Word(s: seq<byte>): u32
    requires |s| == 4
  {
    LEBound(s);
    Weights();
    FromLE(s)
  }

  lemma WordRoundTrip(x: u32)
    ensures Word(ToLE(4, x)) == x
  {
    Weights();
    LERoundTrip(4, x);
  }

  function Flatten<T>(parts: seq<seq<T>>): seq<T> {
    if parts == [] then [] else parts[0] + Flatten(parts[1..])
  }

  lemma {:induction false} FlattenAppend<T>(parts: seq<seq<T>>, last: seq<T>)
    ensures Flatten(parts + [last]) == Flatten(parts) + last
  {
    if parts == [] {
      assert Flatten([last]) == last + Flatten<T>([]);
    } else {
      assert (parts + [last])[1..] == parts[1..] + [last];
      FlattenAppend(parts[1..], last);
    }
  }

  /** Bytes written at a position of a buffer, which grows if needed. */
  function Overwrite(buf: seq<byte>, pos: nat, data: seq<byte>): (r: seq<byte>)
    requires pos <= |buf|
    ensures |r| == if pos + |data| > |buf| then pos + |data| else |buf|
  {
    buf[..pos] + data + (if pos + |data| < |buf| then buf[pos + |data|..] else [])
  }
}
