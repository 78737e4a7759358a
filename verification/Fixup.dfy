/** What the receiver does to the bytes of a message that carries descriptors: each slot gets the number the
    descriptor has on this side, and is registered. Models the callback given to the walk in
    src/pomp_conn.c. */
module Fixup {
  import opened Bytes
  import opened Codec
  import opened Args
  import B = Buffer

  /** The message as received: no descriptor is registered in it. */
  function Arrived(p: Msg, args: seq<Arg>): Msg
    requires Encodable(args)
  {
    Msg(p.data + Flat(args), p.fdoffs)
  }

  /** Walk from `pos`, giving the descriptors in turn to the slots met. The walk stops at the first slot that
      cannot be filled. */
  function FillSlots(m: Msg, pos: nat, fds: seq<int>): Msg
    requires forall i | 0 <= i < |fds| :: fds[i] >= 0
    decreases |m.data| - pos
  {
    if pos >= |m.data| then m
    else
      var r := NextArg(m, pos, false);
      if !r.Got? then m
      else if !r.arg.Descriptor? then FillSlots(m, pos + r.used, fds)
      else if r.used != 5 || fds == [] || |m.fdoffs| >= MAX_FD_COUNT then m
      else FillSlots(Msg(Overwrite(m.data, pos + 1, ToLE(4, fds[0])), m.fdoffs + [pos + 1]), pos + 5, fds[1..])
  }

  /** The same arguments, with the descriptors as they are numbered here. */
  function Renumber(args: seq<Arg>, fds: seq<int>): (r: seq<Arg>)
    requires Slots(args) == |fds|
    ensures |r| == |args|
  {
    if args == [] then []
    else if args[0].Descriptor? then [Descriptor(fds[0])] + Renumber(args[1..], fds[1..])
    else [args[0]] + Renumber(args[1..], fds)
  }

  predicate Valid(fds: seq<int>) {
    forall i | 0 <= i < |fds| :: 0 <= fds[i] < 0x8000_0000
  }

  lemma {:induction false} RenumberEncodable(args: seq<Arg>, fds: seq<int>)
    requires Encodable(args) && Slots(args) == |fds| && Valid(fds)
    ensures Encodable(Renumber(args, fds))
  {
    hide IsEncodable;
    if args != [] {
      assert Encodable(args[1..]);
      if args[0].Descriptor? {
        RenumberEncodable(args[1..], fds[1..]);
        EncodableFd(fds[0]);
      } else {
        RenumberEncodable(args[1..], fds);
      }
    }
  }

  lemma EncodableFd(fd: int)
    requires 0 <= fd < 0x8000_0000
    ensures IsEncodable(Descriptor(fd))
  {
  }

  lemma {:induction false} AppendHead(m: Msg, args: seq<Arg>)
    requires Encodable(args) && args != []
    ensures IsEncodable(args[0]) && AppendAll(m, args) == AppendAll(Append(m, args[0]), args[1..])
    decreases |args|
  {
    hide EncodeArg, IsEncodable;
    if |args| > 1 {
      var butLast := args[..|args| - 1];
      AppendHead(m, butLast);
      assert args[1..][..|args| - 2] == butLast[1..];
    } else {
      assert args[..0] == [];
      assert AppendAll(m, args) == Append(AppendAll(m, []), args[0]);
    }
  }

  lemma ArrivedHead(p: Msg, args: seq<Arg>)
    requires Encodable(args) && args != []
    ensures Arrived(p, args).data == p.data + EncodeArg(args[0]) + Flat(args[1..])
    ensures Arrived(p, args).data[|p.data|..] == EncodeArg(args[0]) + Flat(args[1..])
  {
  }

  /** An argument that is not a descriptor is passed over. */
  lemma PassOver(p: Msg, args: seq<Arg>)
    requires Encodable(args) && args != [] && !args[0].Descriptor?
    ensures NextArg(Arrived(p, args), |p.data|, false) == Got(args[0], |EncodeArg(args[0])|)
    ensures Arrived(p, args) == Arrived(Append(p, args[0]), args[1..])
  {
    hide EncodeArg, IsEncodable, DecodeArg;
    var m, a := Arrived(p, args), args[0];
    ArrivedHead(p, args);
    ReadBack(m, |p.data|, a, Flat(args[1..]));
    var end := |p.data| + |EncodeArg(a)|;
    EncodeArgSize(a);
    NextOfLink(m, a, |p.data|, end, false);
  }

  lemma EncodeArgSize(a: Arg)
    requires IsEncodable(a)
    ensures |EncodeArg(a)| >= 2 && EncodeArg(a)[0] == Tag(a.Kind()) && (a.Descriptor? ==> |EncodeArg(a)| == 5)
  {
  }

  /** A descriptor is met where the next argument is one. */
  lemma MeetSlot(p: Msg, args: seq<Arg>)
    requires Encodable(args) && args != [] && args[0].Descriptor?
    ensures |p.data| + 5 <= |Arrived(p, args).data|
    ensures NextArg(Arrived(p, args), |p.data|, false) == Got(Descriptor(-1), 5)
  {
    hide ToLE, Flat;
    var m, n := Arrived(p, args), |p.data|;
    ArrivedHead(p, args);
    EncodeArgSize(args[0]);
    TagRoundTrip(FD, 0);
    assert m.data[n] == m.data[n..][0] == Tag(FD);
  }

  /** Five bytes, of which the last four are replaced. */
  lemma ReplaceSlot(head: seq<byte>, slot: seq<byte>, number: seq<byte>, rest: seq<byte>)
    requires |slot| == 5 && |number| == 4
    ensures Overwrite(head + slot + rest, |head| + 1, number) == head + ([slot[0]] + number) + rest
  {
    var s := head + slot + rest;
    assert s[..|head| + 1] == head + [slot[0]];
    assert s[|head| + 5..] == rest;
    assert head + ([slot[0]] + number) == head + [slot[0]] + number;
  }

  /** A slot is overwritten with the new number. */
  lemma FillSlot(p: Msg, args: seq<Arg>, fd: int)
    requires Encodable(args) && args != [] && args[0].Descriptor? && 0 <= fd < 0x8000_0000
    ensures NextArg(Arrived(p, args), |p.data|, false) == Got(Descriptor(-1), 5)
    ensures
      var m := Arrived(p, args);
      |p.data| + 5 <= |m.data| && Arrived(Append(p, Descriptor(fd)), args[1..])
      == Msg(Overwrite(m.data, |p.data| + 1, ToLE(4, fd)), m.fdoffs + [|p.data| + 1])
  {
    MeetSlot(p, args);
    ArrivedHead(p, args);
    FdCoding(args[0]);
    FdCoding(Descriptor(fd));
    hide EncodeArg, ToLE, NextArg, Overwrite, Flat, IsEncodable;
    ReplaceSlot(p.data, EncodeArg(args[0]), ToLE(4, fd), Flat(args[1..]));
  }

  lemma FdCoding(a: Arg)
    requires a.Descriptor? && IsEncodable(a)
    ensures EncodeArg(a) == [Tag(FD)] + ToLE(4, a.fd) && |EncodeArg(a)| == 5 && EncodeArg(a)[0] == Tag(FD)
  {
  }

  /** The first argument as numbered here, and the descriptors left for the others. */
  function First(args: seq<Arg>, fds: seq<int>): Arg
    requires args != [] && Slots(args) == |fds|
  {
    if args[0].Descriptor? then Descriptor(fds[0]) else args[0]
  }

  function Left(args: seq<Arg>, fds: seq<int>): (r: seq<int>)
    requires args != [] && Slots(args) == |fds|
    ensures Slots(args[1..]) == |r|
  {
    if args[0].Descriptor? then fds[1..] else fds
  }

  lemma RenumberHead(args: seq<Arg>, fds: seq<int>)
    requires args != [] && Slots(args) == |fds|
    ensures Renumber(args, fds)[0] == First(args, fds)
    ensures Renumber(args, fds)[1..] == Renumber(args[1..], Left(args, fds))
  {
  }

  /** One turn of the walk. */
  lemma FillFirst(p: Msg, args: seq<Arg>, fds: seq<int>)
    requires Encodable(args) && args != [] && Slots(args) == |fds| && Valid(fds)
    requires |p.fdoffs| + |fds| <= MAX_FD_COUNT && IsEncodable(First(args, fds))
    ensures
      var q := Append(p, First(args, fds));
      && |q.fdoffs| + |Left(args, fds)| <= MAX_FD_COUNT
      && FillSlots(Arrived(p, args), |p.data|, fds) ==
         FillSlots(Arrived(q, args[1..]), |q.data|, Left(args, fds))
  {
    hide EncodeArg, IsEncodable, NextArg, Overwrite, Flat, ToLE;
    ArrivedHead(p, args);
    EncodeArgSize(args[0]);
    if args[0].Descriptor? {
      FillSlot(p, args, fds[0]);
      EncodeArgSize(Descriptor(fds[0]));
    } else {
      PassOver(p, args);
    }
  }

  /** With a descriptor for each slot, and no more than a buffer can hold, the message becomes the one its
      sender would have written with the descriptors of this side. */
  lemma {:induction false} FixupDelivers(p: Msg, args: seq<Arg>, fds: seq<int>)
    requires Encodable(args) && Slots(args) == |fds| && Valid(fds) && |p.fdoffs| + |fds| <= MAX_FD_COUNT
    ensures Encodable(Renumber(args, fds))
    ensures FillSlots(Arrived(p, args), |p.data|, fds) == AppendAll(p, Renumber(args, fds))
    decreases |args|
  {
    RenumberEncodable(args, fds);
    if args == [] {
      assert Arrived(p, args).data == p.data;
    } else {
      hide IsEncodable, Append, Arrived, FillSlots, AppendAll, Renumber, Slots;
      var renumbered := Renumber(args, fds);
      RenumberHead(args, fds);
      AppendHead(p, renumbered);
      FillFirst(p, args, fds);
      FixupDelivers(Append(p, First(args, fds)), args[1..], Left(args, fds));
    }
  }

  // ----- Release -----

  /** The descriptors among the arguments, in order. */
  function FdsOf(args: seq<Arg>): seq<int> {
    if args == [] then []
    else
      var before, last := FdsOf(args[..|args| - 1]), args[|args| - 1];
      if last.Descriptor? then before + [last.fd] else before
  }

  predicate OffsetsInside(m: Msg) {
    forall i | 0 <= i < |m.fdoffs| :: m.fdoffs[i] + 4 <= |m.data|
  }

  lemma {:induction false} OwnedInside(s: seq<byte>, t: seq<byte>, offs: seq<nat>)
    requires forall i | 0 <= i < |offs| :: offs[i] + 4 <= |s|
    ensures B.Owned(s + t, offs) == B.Owned(s, offs)
  {
    if offs != [] {
      var off := offs[|offs| - 1];
      OwnedInside(s, t, offs[..|offs| - 1]);
      assert (s + t)[off..off + 4] == s[off..off + 4];
    }
  }

  lemma OwnedAppend(m: Msg, a: Arg)
    requires IsEncodable(a) && OffsetsInside(m)
    ensures OffsetsInside(Append(m, a))
    ensures B.Owned(Append(m, a).data, Append(m, a).fdoffs) ==
      B.Owned(m.data, m.fdoffs) + if a.Descriptor? then [a.fd] else []
  {
    var t := Append(m, a);
    EncodeArgSize(a);
    OwnedInside(m.data, EncodeArg(a), m.fdoffs);
    if a.Descriptor? {
      SlotHolds(m.data, a.fd);
      hide B.FdIn, EncodeArg;
      assert t.fdoffs[..|m.fdoffs|] == m.fdoffs;
    }
  }

  lemma SlotHolds(s: seq<byte>, fd: int)
    requires IsEncodable(Descriptor(fd))
    ensures B.FdIn(s + EncodeArg(Descriptor(fd)), |s| + 1) == fd
  {
    var t := s + EncodeArg(Descriptor(fd));
    EncodeArgSize(Descriptor(fd));
    assert t[|s| + 1..|s| + 5] == ToLE(4, fd);
    WordRoundTrip(fd);
  }

  /** Clearing a message closes what it held before, then the descriptors written to it, in order. */
  lemma {:induction false} OwnedAll(m: Msg, args: seq<Arg>)
    requires Encodable(args) && OffsetsInside(m)
    ensures
      var all := AppendAll(m, args);
      OffsetsInside(all) && B.Owned(all.data, all.fdoffs) == B.Owned(m.data, m.fdoffs) + FdsOf(args)
    decreases |args|
  {
    hide IsEncodable, EncodeArg, B.Owned, Append, OffsetsInside;
    if args != [] {
      var n := |args| - 1;
      OwnedAll(m, args[..n]);
      OwnedAppend(AppendAll(m, args[..n]), args[n]);
    }
  }

  // ----- Any bytes -----

  /** How many slots a walk from `pos` meets before it ends or fails. */
  function SlotsMet(m: Msg, pos: nat): nat
    decreases |m.data| - pos
  {
    if pos >= |m.data| then 0
    else
      var r := NextArg(m, pos, false);
      if !r.Got? then 0 else (if r.arg.Descriptor? then 1 else 0) + SlotsMet(m, pos + r.used)
  }

  /** They are the descriptors among the arguments of a walk that nothing stops. */
  lemma {:induction false} WalkMeets(m: Msg, pos: nat, goOn: Arg -> bool)
    requires forall a :: goOn(a)
    ensures Advances(WalkerOf(m, false), |m.data|)
    ensures Slots(Walk(WalkerOf(m, false), |m.data|, pos, goOn).args) == SlotsMet(m, pos)
    decreases |m.data| - pos
  {
    hide NextArg;
    WalkerAdvances(m, false);
    var next := WalkerOf(m, false);
    if pos < |m.data| && next(pos).Got? {
      WalkMeets(m, pos + next(pos).used, goOn);
      var rest := Walk(next, |m.data|, pos + next(pos).used, goOn);
      assert ([next(pos).arg] + rest.args)[1..] == rest.args;
    }
  }

  /** What the walk finds depends on the bytes from its position on. */
  lemma SameNext(m: Msg, n: Msg, pos: nat)
    requires pos <= |m.data| == |n.data| && m.data[pos..] == n.data[pos..]
    ensures NextArg(m, pos, false) == NextArg(n, pos, false)
  {
    if pos < |m.data| {
      assert m.data[pos] == m.data[pos..][0] == n.data[pos..][0] == n.data[pos];
      assert m.data[pos + 1..] == m.data[pos..][1..] == n.data[pos..][1..] == n.data[pos + 1..];
    }
  }

  lemma {:induction false} SameSlots(m: Msg, n: Msg, pos: nat)
    requires pos <= |m.data| == |n.data| && m.data[pos..] == n.data[pos..]
    ensures SlotsMet(m, pos) == SlotsMet(n, pos)
    decreases |m.data| - pos
  {
    hide NextArg;
    SameNext(m, n, pos);
    var r := NextArg(m, pos, false);
    if pos < |m.data| && r.Got? {
      assert m.data[pos + r.used..] == m.data[pos..][r.used..] == n.data[pos..][r.used..] == n.data[pos + r.used..];
      SameSlots(m, n, pos + r.used);
    }
  }

  lemma {:induction false} OwnedBefore(s: seq<byte>, t: seq<byte>, pos: nat, offs: seq<nat>)
    requires pos <= |s| && pos <= |t| && s[..pos] == t[..pos]
    requires forall i | 0 <= i < |offs| :: offs[i] + 4 <= pos
    ensures B.Owned(s, offs) == B.Owned(t, offs)
  {
    if offs != [] {
      var off := offs[|offs| - 1];
      OwnedBefore(s, t, pos, offs[..|offs| - 1]);
      assert s[off..off + 4] == s[..pos][off..off + 4] == t[..pos][off..off + 4] == t[off..off + 4];
    }
  }

  /** One slot, filled. */
  function WithFd(m: Msg, off: nat, fd: int): Msg
    requires off <= |m.data| && 0 <= fd
  {
    Msg(Overwrite(m.data, off, ToLE(4, fd)), m.fdoffs + [off])
  }

  lemma WithFdKeeps(m: Msg, off: nat, fd: int)
    requires off + 4 <= |m.data| && 0 <= fd
    ensures
      var t := WithFd(m, off, fd);
      |t.data| == |m.data| && t.data[..off] == m.data[..off] && t.data[off + 4..] == m.data[off + 4..]
  {
  }

  lemma WithFdOwns(m: Msg, off: nat, fd: int)
    requires off + 4 <= |m.data| && 0 <= fd < 0x8000_0000
    requires forall i | 0 <= i < |m.fdoffs| :: m.fdoffs[i] + 4 <= off
    ensures
      var t := WithFd(m, off, fd);
      && |t.data| == |m.data| && t.data[off + 4..] == m.data[off + 4..]
      && B.Owned(t.data, t.fdoffs) == B.Owned(m.data, m.fdoffs) + [fd]
  {
    var t := WithFd(m, off, fd);
    assert t.data[..off] == m.data[..off];
    assert t.data[off..off + 4] == ToLE(4, fd);
    WordRoundTrip(fd);
    OwnedBefore(m.data, t.data, off, m.fdoffs);
    assert t.fdoffs[..|m.fdoffs|] == m.fdoffs;
  }

  function Served(slots: nat, fds: seq<int>): seq<int> {
    if slots < |fds| then fds[..slots] else fds
  }

  lemma ServedFirst(slots: nat, fds: seq<int>, owned: seq<int>)
    requires fds != []
    ensures owned + [fds[0]] + Served(slots, fds[1..]) == owned + Served(1 + slots, fds)
  {
    assert Served(1 + slots, fds) == [fds[0]] + Served(slots, fds[1..]);
  }

  /** One turn of the walk over any bytes. */
  lemma FillTurn(m: Msg, pos: nat, fds: seq<int>)
    requires (forall i | 0 <= i < |fds| :: fds[i] >= 0) && |m.fdoffs| + |fds| <= MAX_FD_COUNT && pos < |m.data|
    ensures
      var r := NextArg(m, pos, false);
      if !r.Got? then FillSlots(m, pos, fds) == m && SlotsMet(m, pos) == 0
      else if !r.arg.Descriptor? then
        && FillSlots(m, pos, fds) == FillSlots(m, pos + r.used, fds)
        && SlotsMet(m, pos) == SlotsMet(m, pos + r.used)
      else
        && pos + 5 <= |m.data| && SlotsMet(m, pos) == 1 + SlotsMet(m, pos + 5)
        && FillSlots(m, pos, fds) ==
           if fds == [] then m else FillSlots(WithFd(m, pos + 1, fds[0]), pos + 5, fds[1..])
  {
    hide NextArg, Overwrite, ToLE;
    if NextArg(m, pos, false).Got? && NextArg(m, pos, false).arg.Descriptor? {
      SlotIsFive(m, pos);
    }
  }

  predicate AllBefore(offs: seq<nat>, pos: nat) {
    forall i | 0 <= i < |offs| :: offs[i] + 4 <= pos
  }

  lemma ServedNone(slots: nat, fds: seq<int>, owned: seq<int>)
    requires slots == 0 || fds == []
    ensures owned + Served(slots, fds) == owned
  {
  }

  lemma FillEnd(m: Msg, pos: nat, fds: seq<int>)
    requires Valid(fds) && pos >= |m.data|
    ensures FillSlots(m, pos, fds) == m && SlotsMet(m, pos) == 0
  {
  }

  /** One slot, and the number of those that follow. */
  lemma SlotFilled(m: Msg, pos: nat, fd: int)
    requires pos + 5 <= |m.data| && 0 <= fd < 0x8000_0000 && AllBefore(m.fdoffs, pos)
    ensures
      var t := WithFd(m, pos + 1, fd);
      && |t.data| == |m.data| && |t.fdoffs| == |m.fdoffs| + 1 && AllBefore(t.fdoffs, pos + 5)
      && SlotsMet(t, pos + 5) == SlotsMet(m, pos + 5)
      && B.Owned(t.data, t.fdoffs) == B.Owned(m.data, m.fdoffs) + [fd]
  {
    hide B.Owned, SlotsMet, Overwrite, ToLE;
    WithFdOwns(m, pos + 1, fd);
    SameSlots(m, WithFd(m, pos + 1, fd), pos + 5);
  }

  /** The walk gives the descriptors in turn to the slots it meets, as many as there are of both. */
  lemma {:induction false} FilledOwns(m: Msg, pos: nat, fds: seq<int>)
    requires Valid(fds) && |m.fdoffs| + |fds| <= MAX_FD_COUNT && AllBefore(m.fdoffs, pos)
    ensures
      var t := FillSlots(m, pos, fds);
      B.Owned(t.data, t.fdoffs) == B.Owned(m.data, m.fdoffs) + Served(SlotsMet(m, pos), fds)
    decreases |m.data| - pos
  {
    hide NextArg, B.Owned, FillSlots, SlotsMet, WithFd, Served;
    var owned, slots := B.Owned(m.data, m.fdoffs), SlotsMet(m, pos);
    if slots == 0 || fds == [] {
      ServedNone(slots, fds, owned);
    }
    if pos >= |m.data| {
      FillEnd(m, pos, fds);
    } else {
      FillTurn(m, pos, fds);
      var r := NextArg(m, pos, false);
      if r.Got? && r.arg.Descriptor? && fds != [] {
        SlotFilled(m, pos, fds[0]);
        FilledOwns(WithFd(m, pos + 1, fds[0]), pos + 5, fds[1..]);
        ServedFirst(SlotsMet(m, pos + 5), fds, owned);
      } else if r.Got? && !r.arg.Descriptor? {
        assert AllBefore(m.fdoffs, pos + r.used);
        FilledOwns(m, pos + r.used, fds);
      }
    }
  }

  lemma SlotIsFive(m: Msg, pos: nat)
    requires NextArg(m, pos, false).Got? && NextArg(m, pos, false).arg.Descriptor?
    ensures NextArg(m, pos, false).used == 5 && pos + 5 <= |m.data|
  {
    TagRoundTrip(FD, 0);
    if pos < |m.data| && KindOfTag(m.data[pos]).Some? {
      ArgBound(m, pos, KindOfTag(m.data[pos]).value);
    }
  }

  /** Whatever the bytes of a message, and however many descriptors came: those found in the bytes afterwards, which
      the release of the message closes, are those given to it, in order, one for each slot met as far as they go. */
  lemma ReleaseCloses(bytes: seq<byte>, fds: seq<int>)
    requires Valid(fds) && |fds| <= MAX_FD_COUNT
    ensures
      var m := Msg(bytes, []);
      var filled := FillSlots(m, 12, fds);
      B.Owned(filled.data, filled.fdoffs) == Served(SlotsMet(m, 12), fds)
  {
    FilledOwns(Msg(bytes, []), 12, fds);
    assert B.Owned(bytes, []) == [];
  }

  // ----- Delivery -----

  /** The walk that fills the slots, with `n` descriptors: it stops, without error, at the first slot that gets none. */
  function WalkWith(m: Msg, pos: nat, n: nat): Visit
    decreases |m.data| - pos
  {
    if pos >= |m.data| then Visit([], true, pos)
    else
      var r := NextArg(m, pos, false);
      if !r.Got? then Visit([], false, pos)
      else if r.arg.Descriptor? && n == 0 then Visit([r.arg], true, pos + r.used)
      else VisitFirst(r.arg, WalkWith(m, pos + r.used, if r.arg.Descriptor? then n - 1 else n))
  }

  /** A decoded message is given to the user if and only if that walk does not fail. */
  predicate Delivered(bytes: seq<byte>, n: nat) {
    WalkWith(Msg(bytes, []), 12, n).ok
  }

  /** With a descriptor for every slot it is the walk that nothing stops. */
  lemma {:induction false} WalkWithEnough(m: Msg, pos: nat, n: nat, goOn: Arg -> bool)
    requires (forall a :: goOn(a)) && SlotsMet(m, pos) <= n
    ensures Advances(WalkerOf(m, false), |m.data|)
    ensures WalkWith(m, pos, n) == Walk(WalkerOf(m, false), |m.data|, pos, goOn)
    decreases |m.data| - pos
  {
    hide NextArg;
    WalkerAdvances(m, false);
    if pos < |m.data| {
      var r := NextArg(m, pos, false);
      if r.Got? {
        WalkWithEnough(m, pos + r.used, if r.arg.Descriptor? then n - 1 else n, goOn);
      }
    }
  }

  /** With fewer, it ends well at the first slot left without one. */
  lemma {:induction false} WalkWithout(m: Msg, pos: nat, n: nat)
    requires n < SlotsMet(m, pos)
    ensures WalkWith(m, pos, n).ok && Slots(WalkWith(m, pos, n).args) == n + 1
    decreases |m.data| - pos
  {
    hide NextArg;
    var r := NextArg(m, pos, false);
    if r.arg.Descriptor? && n == 0 {
      assert [r.arg][1..] == [];
    } else {
      var n' := if r.arg.Descriptor? then n - 1 else n;
      WalkWithout(m, pos + r.used, n');
      var rest := WalkWith(m, pos + r.used, n');
      assert ([r.arg] + rest.args)[1..] == rest.args;
    }
  }

  /** Any message whose own walk ends well is delivered; any other only if it stopped for want of a descriptor. */
  lemma DeliveredIff(bytes: seq<byte>, n: nat, goOn: Arg -> bool)
    requires forall a :: goOn(a)
    ensures
      var m := Msg(bytes, []);
      && Advances(WalkerOf(m, false), |bytes|)
      && (Delivered(bytes, n) <==>
            Walk(WalkerOf(m, false), |bytes|, 12, goOn).ok
            || n < Slots(Walk(WalkerOf(m, false), |bytes|, 12, goOn).args))
  {
    var m := Msg(bytes, []);
    WalkMeets(m, 12, goOn);
    if n < SlotsMet(m, 12) {
      WalkWithout(m, 12, n);
    } else {
      WalkWithEnough(m, 12, n, goOn);
    }
  }

  /** Descriptors beyond the slots make no difference. */
  lemma DeliveredServed(bytes: seq<byte>, n: nat)
    ensures
      var slots := SlotsMet(Msg(bytes, []), 12);
      Delivered(bytes, n) <==> Delivered(bytes, if n < slots then n else slots)
  {
    var m := Msg(bytes, []);
    if n >= SlotsMet(m, 12) {
      WalkWithEnough(m, 12, n, a => true);
      WalkWithEnough(m, 12, SlotsMet(m, 12), a => true);
    }
  }

  lemma {:induction false} SameWalk(m: Msg, n: Msg, pos: nat, k: nat)
    requires pos <= |m.data| == |n.data| && m.data[pos..] == n.data[pos..]
    ensures WalkWith(m, pos, k) == WalkWith(n, pos, k)
    decreases |m.data| - pos
  {
    hide NextArg;
    SameNext(m, n, pos);
    var r := NextArg(m, pos, false);
    if pos < |m.data| && r.Got? {
      assert m.data[pos + r.used..] == m.data[pos..][r.used..] == n.data[pos..][r.used..] == n.data[pos + r.used..];
      SameWalk(m, n, pos + r.used, if r.arg.Descriptor? && k > 0 then k - 1 else k);
    }
  }

  lemma SenderNext(p: Msg, args: seq<Arg>)
    requires Encodable(args) && args != []
    ensures
      var m, r := Arrived(p, args), NextArg(Arrived(p, args), |p.data|, false);
      var q := Msg(p.data + EncodeArg(args[0]), p.fdoffs);
      && |p.data| < |m.data| && r.Got? && (r.arg.Descriptor? <==> args[0].Descriptor?)
      && |p.data| + r.used == |q.data| && Arrived(q, args[1..]) == m
  {
    hide EncodeArg, IsEncodable, NextArg;
    EncodeArgSize(args[0]);
    ArrivedHead(p, args);
    if args[0].Descriptor? {
      MeetSlot(p, args);
    } else {
      PassOver(p, args);
    }
  }

  lemma NothingArrives(p: Msg)
    ensures Arrived(p, []).data == p.data
  {
  }

  /** The walk over the message of a sender, from one of its arguments on. */
  lemma {:induction false} SenderWalk(p: Msg, args: seq<Arg>, n: nat)
    requires Encodable(args) && Slots(args) <= n
    ensures SlotsMet(Arrived(p, args), |p.data|) == Slots(args) && WalkWith(Arrived(p, args), |p.data|, n).ok
    decreases |args|
  {
    hide EncodeArg, IsEncodable, NextArg, Arrived;
    if args == [] {
      NothingArrives(p);
    } else {
      SenderNext(p, args);
      SenderWalk(Msg(p.data + EncodeArg(args[0]), p.fdoffs), args[1..], if args[0].Descriptor? then n - 1 else n);
    }
  }
}
