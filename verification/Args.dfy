/** Lists of arguments in a message: written one after the other by src/pomp_encoder.c, read with a list of
    kinds or walked from tag to tag by src/pomp_decoder.c. */
module Args {
  import opened Bytes
  import opened Wrappers
  import opened Codec

  /** A message buffer: its bytes, header included, and the offsets registered as holding a descriptor. */
  datatype Msg = Msg(data: seq<byte>, fdoffs: seq<nat>)

  predicate Encodable(args: seq<Arg>) {
    forall i | 0 <= i < |args| :: IsEncodable(args[i])
  }

  function Kinds(args: seq<Arg>): (r: seq<Kind>)
    ensures |r| == |args|
  {
    seq(|args|, i requires 0 <= i < |args| => args[i].Kind())
  }

  function Append(m: Msg, a: Arg): Msg
    requires IsEncodable(a)
  {
    Msg(m.data + EncodeArg(a), if a.Descriptor? then m.fdoffs + [|m.data| + 1] else m.fdoffs)
  }

  function AppendAll(m: Msg, args: seq<Arg>): Msg
    requires Encodable(args)
  {
    if args == [] then m else Append(AppendAll(m, args[..|args| - 1]), args[|args| - 1])
  }

  /** The codings one after the other. */
  function Flat(args: seq<Arg>): seq<byte>
    requires Encodable(args)
  {
    if args == [] then [] else EncodeArg(args[0]) + Flat(args[1..])
  }

  /** How many of them are descriptors. */
  function Slots(args: seq<Arg>): nat {
    if args == [] then 0 else (if args[0].Descriptor? then 1 else 0) + Slots(args[1..])
  }

  /** An argument of the expected kind at `pos`: a different tag there is an error. */
  function DecodeArg(m: Msg, pos: nat, k: Kind): Outcome {
    if pos >= |m.data| || m.data[pos] != Tag(k) then Bad
    else match DecodeData(k, m.data[pos + 1..], pos + 1 in m.fdoffs)
      case Got(a, used) => Got(a, 1 + used)
      case r => r
  }

  /** Reading an argument of some kind at some position. */
  type Reader = (nat, Kind) -> Outcome

  function ReaderOf(m: Msg): Reader {
    (pos: nat, k: Kind) => DecodeArg(m, pos, k)
  }

  datatype Reading = Read(args: seq<Arg>, pos: nat) | Failed | Undefined

  function Prepend(a: Arg, r: Reading): Reading {
    if r.Read? then r.(args := [a] + r.args) else r
  }

  /** Arguments of the given kinds from `pos` on. */
  function ReadAll(reader: Reader, pos: nat, kinds: seq<Kind>): Reading
    decreases |kinds|
  {
    if kinds == [] then Read([], pos)
    else match reader(pos, kinds[0])
      case Got(a, used) => Prepend(a, ReadAll(reader, pos + used, kinds[1..]))
      case Bad => Failed
      case Undefined => Reading.Undefined
  }

  // ----- Bounds -----

  lemma GotBound(k: Kind, s: seq<byte>, registered: bool)
    ensures var r := DecodeData(k, s, registered); r.Got? ==> 1 <= r.used <= |s| && r.arg.Kind() == k
  {
  }

  lemma ArgBound(m: Msg, pos: nat, k: Kind)
    ensures var r := DecodeArg(m, pos, k); r.Got? ==> 2 <= r.used && pos + r.used <= |m.data| && r.arg.Kind() == k
  {
    if pos < |m.data| {
      GotBound(k, m.data[pos + 1..], pos + 1 in m.fdoffs);
    }
  }

  // ----- One argument of a message -----

  lemma ReadBack(m: Msg, pos: nat, a: Arg, suffix: seq<byte>)
    requires IsEncodable(a) && pos <= |m.data| && m.data[pos..] == EncodeArg(a) + suffix
    requires a.Descriptor? ==> pos + 1 in m.fdoffs
    ensures DecodeArg(m, pos, a.Kind()) == Got(a, |EncodeArg(a)|)
  {
    var d := EncodeData(a);
    assert m.data[pos] == m.data[pos..][0];
    assert m.data[pos + 1..] == m.data[pos..][1..];
    assert (EncodeArg(a) + suffix)[1..] == d + suffix;
    DataRoundTrip(a, suffix, pos + 1 in m.fdoffs);
  }

  // ----- Lists -----

  /** The message as it was after `i` arguments is a prefix of the finished one. */
  lemma {:induction false} AppendPrefix(m: Msg, args: seq<Arg>, i: nat)
    requires Encodable(args) && i <= |args|
    ensures AppendAll(m, args[..i]).data <= AppendAll(m, args).data
    ensures AppendAll(m, args[..i]).fdoffs <= AppendAll(m, args).fdoffs
    decreases |args|
  {
    if i == |args| {
      assert args[..i] == args;
    } else {
      var butLast := args[..|args| - 1];
      AppendPrefix(m, butLast, i);
      assert butLast[..i] == args[..i];
    }
  }

  /** Where each argument starts, and where the last one ends. */
  function Positions(m: Msg, args: seq<Arg>): (r: seq<nat>)
    requires Encodable(args)
    ensures |r| == |args| + 1
  {
    seq(|args| + 1, i requires 0 <= i <= |args| => |AppendAll(m, args[..i]).data|)
  }

  lemma ReadInside(all: Msg, part: Msg, a: Arg)
    requires IsEncodable(a)
    requires Append(part, a).data <= all.data && Append(part, a).fdoffs <= all.fdoffs
    ensures DecodeArg(all, |part.data|, a.Kind()) == Got(a, |EncodeArg(a)|)
  {
    var pos, end := |part.data|, |part.data| + |EncodeArg(a)|;
    assert all.data[..end] == part.data + EncodeArg(a);
    assert all.data[pos..] == EncodeArg(a) + all.data[end..];
    if a.Descriptor? {
      assert all.fdoffs[|part.fdoffs|] == pos + 1;
    }
    ReadBack(all, pos, a, all.data[end..]);
  }

  /** Each of these arguments is found at its position, and reading it leads to the next position. */
  predicate Chain(reader: Reader, args: seq<Arg>, pos: seq<nat>)
    requires |pos| == |args| + 1
  {
    forall i | 0 <= i < |args| :: Link(reader, args[i], pos[i], pos[i + 1])
  }

  predicate Link(reader: Reader, a: Arg, pos: nat, next: nat) {
    pos < next && reader(pos, a.Kind()) == Got(a, next - pos)
  }

  lemma AppendNext(m: Msg, args: seq<Arg>, i: nat)
    requires Encodable(args) && i < |args|
    ensures AppendAll(m, args[..i + 1]) == Append(AppendAll(m, args[..i]), args[i])
  {
    assert args[..i + 1][..i] == args[..i];
  }

  lemma EncodedLink(m: Msg, args: seq<Arg>, i: nat)
    requires Encodable(args) && i < |args|
    ensures var pos, next := |AppendAll(m, args[..i]).data|, |AppendAll(m, args[..i + 1]).data|;
      Link(ReaderOf(AppendAll(m, args)), args[i], pos, next)
  {
    AppendNext(m, args, i);
    AppendPrefix(m, args, i + 1);
    LinkInside(AppendAll(m, args), AppendAll(m, args[..i]), AppendAll(m, args[..i + 1]), args[i]);
  }

  lemma LinkInside(all: Msg, part: Msg, next: Msg, a: Arg)
    requires IsEncodable(a) && next == Append(part, a) && next.data <= all.data && next.fdoffs <= all.fdoffs
    ensures Link(ReaderOf(all), a, |part.data|, |next.data|)
  {
    ReadInside(all, part, a);
  }

  lemma EncodedChain(m: Msg, args: seq<Arg>)
    requires Encodable(args)
    ensures Chain(ReaderOf(AppendAll(m, args)), args, Positions(m, args))
    ensures Positions(m, args)[0] == |m.data| && Positions(m, args)[|args|] == |AppendAll(m, args).data|
  {
    hide Link, EncodeArg, IsEncodable, ReaderOf;
    var all, pos := AppendAll(m, args), Positions(m, args);
    forall i | 0 <= i < |args|
      ensures Link(ReaderOf(all), args[i], pos[i], pos[i + 1])
    {
      EncodedLink(m, args, i);
    }
    assert args[..0] == [] && args[..|args|] == args;
  }

  lemma {:induction false} ReadChain(reader: Reader, args: seq<Arg>, pos: seq<nat>)
    requires |pos| == |args| + 1 && Chain(reader, args, pos)
    ensures ReadAll(reader, pos[0], Kinds(args)) == Read(args, pos[|args|])
  {
    if args != [] {
      assert Link(reader, args[0], pos[0], pos[1]);
      assert Chain(reader, args[1..], pos[1..]);
      ReadChain(reader, args[1..], pos[1..]);
      assert Kinds(args)[1..] == Kinds(args[1..]);
      assert args == [args[0]] + args[1..];
    }
  }

  /** Reading a message with the kinds of its first arguments gives exactly those, and with the kinds of all
      of them ends at the end of the message. */
  lemma ListRoundTrip(m: Msg, args: seq<Arg>, k: nat)
    requires Encodable(args) && k <= |args|
    ensures var all, pos := AppendAll(m, args), Positions(m, args);
      && ReadAll(ReaderOf(all), |m.data|, Kinds(args[..k])) == Read(args[..k], pos[k])
      && pos[|args|] == |all.data|
  {
    EncodedChain(m, args);
    var reader, pos := ReaderOf(AppendAll(m, args)), Positions(m, args);
    assert Chain(reader, args[..k], pos[..k + 1]);
    ReadChain(reader, args[..k], pos[..k + 1]);
  }

  /** A kind that does not match what comes next is refused. */
  lemma WrongKind(m: Msg, pos: nat, j: Kind, k: Kind)
    requires DecodeArg(m, pos, j).Got? && k != j
    ensures DecodeArg(m, pos, k) == Bad
  {
    TagRoundTrip(k, 0);
    TagRoundTrip(j, 0);
  }

  // ----- Walking from tag to tag -----

  /** The argument at `pos`, whatever its kind. Without `check`, a descriptor is skipped unread. */
  function NextArg(m: Msg, pos: nat, check: bool): (r: Outcome)
    ensures r.Got? ==> r.used > 0 && pos + r.used <= |m.data|
  {
    if pos >= |m.data| then Bad
    else match KindOfTag(m.data[pos])
      case None => Bad
      case Some(k) =>
        if k == FD && !check then
          if pos + 5 <= |m.data| then Got(Descriptor(-1), 5) else Bad
        else
          ArgBound(m, pos, k);
          DecodeArg(m, pos, k)
  }

  function WalkerOf(m: Msg, check: bool): nat -> Outcome {
    (pos: nat) => NextArg(m, pos, check)
  }

  predicate Advances(next: nat -> Outcome, len: nat) {
    forall pos: nat | pos < len :: next(pos).Got? ==> next(pos).used > 0
  }

  lemma WalkerAdvances(m: Msg, check: bool)
    ensures Advances(WalkerOf(m, check), |m.data|)
  {
  }

  /** What a walk did: the arguments given to the callback, whether it ended without error, and where. */
  datatype Visit = Visit(args: seq<Arg>, ok: bool, pos: nat)

  function VisitFirst(a: Arg, v: Visit): Visit {
    v.(args := [a] + v.args)
  }

  function Walk(next: nat -> Outcome, len: nat, pos: nat, goOn: Arg -> bool): Visit
    requires Advances(next, len)
    decreases len - pos
  {
    if pos >= len then Visit([], true, pos)
    else
      var r := next(pos);
      if !r.Got? then Visit([], false, pos)
      else if !goOn(r.arg) then Visit([r.arg], true, pos + r.used)
      else VisitFirst(r.arg, Walk(next, len, pos + r.used, goOn))
  }

  lemma WalkStep(next: nat -> Outcome, len: nat, pos: nat, goOn: Arg -> bool, before: seq<Arg>, v: Visit)
    requires Advances(next, len) && pos < len
    requires var w := Walk(next, len, pos, goOn); v == w.(args := before + w.args)
    ensures var r := next(pos);
      && (!r.Got? ==> v == Visit(before, false, pos))
      && (r.Got? && !goOn(r.arg) ==> v == Visit(before + [r.arg], true, pos + r.used))
      && (r.Got? && goOn(r.arg) ==>
            var w := Walk(next, len, pos + r.used, goOn); v == w.(args := before + [r.arg] + w.args))
  {
    var r := next(pos);
    if r.Got? && goOn(r.arg) {
      var w := Walk(next, len, pos + r.used, goOn);
      assert before + ([r.arg] + w.args) == before + [r.arg] + w.args;
    }
  }

  /** The arguments up to the first one that makes the callback stop. */
  function Until(args: seq<Arg>, goOn: Arg -> bool): seq<Arg> {
    if args == [] then []
    else if !goOn(args[0]) then [args[0]]
    else [args[0]] + Until(args[1..], goOn)
  }

  predicate WalkChain(next: nat -> Outcome, len: nat, args: seq<Arg>, pos: seq<nat>)
    requires |pos| == |args| + 1
  {
    forall i | 0 <= i < |args| :: WalkLink(next, len, args[i], pos[i], pos[i + 1])
  }

  predicate WalkLink(next: nat -> Outcome, len: nat, a: Arg, pos: nat, end: nat) {
    pos < end <= len && next(pos) == Got(a, end - pos)
  }

  lemma {:induction false} WalkUntil(next: nat -> Outcome, len: nat, args: seq<Arg>, pos: seq<nat>, goOn: Arg -> bool)
    requires Advances(next, len) && |pos| == |args| + 1 && WalkChain(next, len, args, pos) && pos[|args|] == len
    ensures var n := |Until(args, goOn)|;
      n <= |args| && Walk(next, len, pos[0], goOn) == Visit(Until(args, goOn), true, pos[n])
  {
    if args != [] {
      assert WalkLink(next, len, args[0], pos[0], pos[1]);
      assert WalkChain(next, len, args[1..], pos[1..]);
      WalkUntil(next, len, args[1..], pos[1..], goOn);
    }
  }

  /** What the callback gets to see of the arguments. */
  function Seen(args: seq<Arg>, check: bool): (r: seq<Arg>)
    ensures |r| == |args|
  {
    seq(|args|, i requires 0 <= i < |args| => if args[i].Descriptor? && !check then Descriptor(-1) else args[i])
  }

  lemma NextOfLink(m: Msg, a: Arg, pos: nat, end: nat, check: bool)
    requires pos < end && DecodeArg(m, pos, a.Kind()) == Got(a, end - pos)
    requires a.Descriptor? ==> end == pos + 5
    ensures WalkLink(WalkerOf(m, check), |m.data|, if a.Descriptor? && !check then Descriptor(-1) else a, pos, end)
  {
    TagRoundTrip(a.Kind(), 0);
    ArgBound(m, pos, a.Kind());
  }

  lemma WalkInside(m: Msg, args: seq<Arg>, i: nat, check: bool)
    requires Encodable(args) && i < |args|
    ensures var all, pos := AppendAll(m, args), Positions(m, args);
      WalkLink(WalkerOf(all, check), |all.data|, Seen(args, check)[i], pos[i], pos[i + 1])
  {
    var all, pos := AppendAll(m, args), Positions(m, args);
    EncodedLink(m, args, i);
    AppendNext(m, args, i);
    NextOfLink(all, args[i], pos[i], pos[i + 1], check);
  }

  /** A walk over an encoded message visits exactly its arguments, up to the one that stops it. */
  lemma WalkVisits(m: Msg, args: seq<Arg>, check: bool, goOn: Arg -> bool)
    requires Encodable(args)
    ensures var all, seen := AppendAll(m, args), Until(Seen(args, check), goOn);
      && Advances(WalkerOf(all, check), |all.data|) && |seen| <= |args|
      && Walk(WalkerOf(all, check), |all.data|, |m.data|, goOn) == Visit(seen, true, Positions(m, args)[|seen|])
  {
    var all, pos := AppendAll(m, args), Positions(m, args);
    var next, seen := WalkerOf(all, check), Seen(args, check);
    WalkerAdvances(all, check);
    EncodedChain(m, args);
    forall i | 0 <= i < |args|
      ensures WalkLink(next, |all.data|, seen[i], pos[i], pos[i + 1])
    {
      WalkInside(m, args, i, check);
    }
    WalkUntil(next, |all.data|, seen, pos, goOn);
  }
}
