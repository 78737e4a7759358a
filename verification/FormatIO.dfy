/** The format interpreters as the loops they are, on terminated strings, writing and reading as they go. */
module FormatIO {
  import opened Bytes
  import opened Wrappers
  import opened Codec
  import opened Args
  import opened Coders
  import opened Format

  /** The characters of a C string, none of which is the terminator. */
  predicate IsCString(fmt: string) {
    forall i | 0 <= i < |fmt| :: fmt[i] != '\0'
  }

  /** Reading is allowed up to the terminator, included. */
  function CharAt(fmt: string, i: nat): char
    requires i <= |fmt|
  {
    if i == |fmt| then '\0' else fmt[i]
  }

  /** One character of a conversion, in place. */
  lemma EncoderStep(fmt: string, i: nat, f: Flags)
    requires IsCString(fmt) && i <= |fmt|
    ensures
      var c, conv := CharAt(fmt, i), EncoderConversion(fmt[i..], f);
      if c == 'l' then
        if CharAt(fmt, i + 1) == 'l' then i + 2 <= |fmt| && conv == EncoderConversion(fmt[i + 2..], f.(ll := true))
        else conv == EncoderConversion(fmt[i + 1..], f.(l := true))
      else if c == 'h' then
        if CharAt(fmt, i + 1) == 'h' then i + 2 <= |fmt| && conv == EncoderConversion(fmt[i + 2..], f.(hh := true))
        else conv == EncoderConversion(fmt[i + 1..], f.(h := true))
      else if c == 'p' then
        if CharAt(fmt, i + 1) == '%' && CharAt(fmt, i + 2) == 'u' then
          i + 3 <= |fmt| && conv == Some(Conversion(BUF, fmt[i + 3..]))
        else conv == None
      else
        var k := EncoderKind(c, f);
        if k.None? then conv == None else i < |fmt| && conv == Some(Conversion(k.value, fmt[i + 1..]))
  {
    var s := fmt[i..];
    if i < |fmt| {
      assert s[0] == fmt[i] && s[1..] == fmt[i + 1..];
      if i + 1 < |fmt| {
        assert s[1] == fmt[i + 1] && s[2..] == fmt[i + 2..];
        if i + 2 < |fmt| {
          assert s[2] == fmt[i + 2] && s[3..] == fmt[i + 3..];
        }
      }
    }
  }

  /** The encoder's reading of one conversion, after its percent sign. */
  method EncoderSpecifier(fmt: string, start: nat) returns (k: Option<Kind>, next: nat)
    requires IsCString(fmt) && start <= |fmt|
    ensures var c := EncoderConversion(fmt[start..], NO_FLAGS);
      (c.None? ==> k.None?) && (c.Some? ==> k == Some(c.value.kind) && next <= |fmt| && fmt[next..] == c.value.rest)
  {
    hide EncoderConversion, EncoderKind;
    var f := NO_FLAGS;
    next := start;
    while true
      invariant next <= |fmt| && EncoderConversion(fmt[start..], NO_FLAGS) == EncoderConversion(fmt[next..], f)
      decreases |fmt| - next
    {
      EncoderStep(fmt, next, f);
      var c := CharAt(fmt, next);
      next := next + 1;
      if c == 'l' {
        if CharAt(fmt, next) == 'l' {
          next := next + 1;
          f := f.(ll := true);
        } else {
          f := f.(l := true);
        }
      } else if c == 'h' {
        if CharAt(fmt, next) == 'h' {
          next := next + 1;
          f := f.(hh := true);
        } else {
          f := f.(h := true);
        }
      } else if c == 'p' {
        k := None;
        if CharAt(fmt, next) == '%' && CharAt(fmt, next + 1) == 'u' {
          k := Some(BUF);
          next := next + 2;
        }
        return;
      } else {
        k := EncoderKind(c, f);
        return;
      }
    }
  }

  /** One character of a conversion, in place. */
  lemma DecoderStep(fmt: string, i: nat, f: Flags)
    requires IsCString(fmt) && i <= |fmt|
    ensures
      var c, conv := CharAt(fmt, i), DecoderConversion(fmt[i..], f);
      if c == 'l' then
        if CharAt(fmt, i + 1) == 'l' then i + 2 <= |fmt| && conv == DecoderConversion(fmt[i + 2..], f.(ll := true))
        else conv == DecoderConversion(fmt[i + 1..], f.(l := true))
      else if c == 'h' then
        if CharAt(fmt, i + 1) == 'h' then i + 2 <= |fmt| && conv == DecoderConversion(fmt[i + 2..], f.(hh := true))
        else conv == DecoderConversion(fmt[i + 1..], f.(h := true))
      else if c == 'm' then conv == DecoderConversion(fmt[i + 1..], f.(m := true))
      else if c == 'p' then
        if CharAt(fmt, i + 1) == '%' && CharAt(fmt, i + 2) == 'u' then
          i + 3 <= |fmt| && conv == Some(Conversion(BUF, fmt[i + 3..]))
        else conv == None
      else
        var k := DecoderKind(c, f);
        if k.None? then conv == None else i < |fmt| && conv == Some(Conversion(k.value, fmt[i + 1..]))
  {
    var s := fmt[i..];
    if i < |fmt| {
      assert s[0] == fmt[i] && s[1..] == fmt[i + 1..];
      if i + 1 < |fmt| {
        assert s[1] == fmt[i + 1] && s[2..] == fmt[i + 2..];
        if i + 2 < |fmt| {
          assert s[2] == fmt[i + 2] && s[3..] == fmt[i + 3..];
        }
      }
    }
  }

  /** The decoder's. */
  method DecoderSpecifier(fmt: string, start: nat) returns (k: Option<Kind>, next: nat)
    requires IsCString(fmt) && start <= |fmt|
    ensures var c := DecoderConversion(fmt[start..], NO_FLAGS);
      (c.None? ==> k.None?) && (c.Some? ==> k == Some(c.value.kind) && next <= |fmt| && fmt[next..] == c.value.rest)
  {
    hide DecoderConversion, DecoderKind;
    var f := NO_FLAGS;
    next := start;
    while true
      invariant next <= |fmt| && DecoderConversion(fmt[start..], NO_FLAGS) == DecoderConversion(fmt[next..], f)
      decreases |fmt| - next
    {
      DecoderStep(fmt, next, f);
      var c := CharAt(fmt, next);
      next := next + 1;
      if c == 'l' {
        if CharAt(fmt, next) == 'l' {
          next := next + 1;
          f := f.(ll := true);
        } else {
          f := f.(l := true);
        }
      } else if c == 'h' {
        if CharAt(fmt, next) == 'h' {
          next := next + 1;
          f := f.(hh := true);
        } else {
          f := f.(h := true);
        }
      } else if c == 'm' {
        f := f.(m := true);
      } else if c == 'p' {
        k := None;
        if CharAt(fmt, next) == '%' && CharAt(fmt, next + 1) == 'u' {
          k := Some(BUF);
          next := next + 2;
        }
        return;
      } else {
        k := DecoderKind(c, f);
        return;
      }
    }
  }

  predicate AllValues(args: seq<Arg>) {
    forall i | 0 <= i < |args| :: IsValue(args[i])
  }

  /** What is known of a message while it is written. */
  datatype Situation = Situation(finished: bool, shared: bool, fdcount: nat, buf: Store)

  function Status1(a: Arg, dupOk: bool, w: Situation): Status
    requires IsValue(a)
  {
    StatusOf(a, w.finished, w.shared, w.fdcount, dupOk, w.buf)
  }

  /** After an argument was written. */
  function Advanced(a: Arg, w: Situation): Situation
    requires IsEncodable(a)
  {
    w.(fdcount := if a.Descriptor? then w.fdcount + 1 else w.fdcount,
       buf := Store(w.buf.data + EncodeArg(a), Kept(a, w.finished, w.shared, w.buf).capacity))
  }

  /** Answer of writing the arguments from `n` on in turn: that of the first one refused. */
  function StatusOfAll(args: seq<Arg>, n: nat, dupOk: nat -> bool, w: Situation): Status
    requires AllValues(args) && n <= |args|
    decreases |args| - n
  {
    if n == |args| then Ok
    else
      var status := Status1(args[n], dupOk(n), w);
      if status != Ok then status
      else
        OkIsEncodable(args[n], dupOk(n), w);
        StatusOfAll(args, n + 1, dupOk, Advanced(args[n], w))
  }

  lemma OkIsEncodable(a: Arg, dupOk: bool, w: Situation)
    requires IsValue(a) && Status1(a, dupOk, w) == Ok
    ensures IsEncodable(a)
  {
  }

  lemma AdvancedWithin(a: Arg, dupOk: bool, w: Situation)
    requires IsValue(a) && Within(w.buf) && Status1(a, dupOk, w) == Ok
    ensures IsEncodable(a) && Limit(Advanced(a, w).buf) == Limit(w.buf) && Within(Advanced(a, w).buf)
  {
    KeptIs(a, w.finished, w.shared, w.fdcount, dupOk, w.buf);
  }

  predicate AllDuplicated(args: seq<Arg>, n: nat, dupOk: nat -> bool) {
    forall i: nat | n <= i < |args| && args[i].Descriptor? :: dupOk(i)
  }

  /** The arguments can all be encoded, the message ends within its limit, and every descriptor can be duplicated
      and has a place. */
  predicate Acceptable(args: seq<Arg>, n: nat, dupOk: nat -> bool, w: Situation)
    requires n <= |args|
  {
    n == |args| ||
    (&& !w.finished && !w.shared && Encodable(args[n..]) && AllDuplicated(args, n, dupOk)
     && |w.buf.data| + |Flat(args[n..])| <= Limit(w.buf)
     && (Slots(args[n..]) > 0 ==> w.fdcount + Slots(args[n..]) <= MAX_FD_COUNT))
  }

  lemma FirstOfRest(args: seq<Arg>, n: nat)
    requires n < |args|
    ensures args[n..][0] == args[n] && args[n..][1..] == args[n + 1..]
    ensures Encodable(args[n..]) <==> IsEncodable(args[n]) && Encodable(args[n + 1..])
    ensures Slots(args[n..]) == (if args[n].Descriptor? then 1 else 0) + Slots(args[n + 1..])
    ensures Encodable(args[n..]) ==> Flat(args[n..]) == EncodeArg(args[n]) + Flat(args[n + 1..])
  {
    hide IsEncodable, EncodeArg;
    assert args[n..][1..] == args[n + 1..];
    assert args[n..] == [args[n]] + args[n + 1..];
  }

  lemma AcceptableStep(args: seq<Arg>, n: nat, dupOk: nat -> bool, w: Situation)
    requires AllValues(args) && n < |args| && Within(w.buf)
    ensures Acceptable(args, n, dupOk, w) <==>
      && Status1(args[n], dupOk(n), w) == Ok && IsEncodable(args[n])
      && Acceptable(args, n + 1, dupOk, Advanced(args[n], w))
  {
    var a := args[n];
    FirstOfRest(args, n);
    if !w.finished && !w.shared {
      StatusExact(a, w.fdcount, dupOk(n), w.buf);
      if Status1(a, dupOk(n), w) == Ok {
        AdvancedWithin(a, dupOk(n), w);
        assert Encodable(args[n + 1..]) ==> |Advanced(a, w).buf.data| == |w.buf.data| + |EncodeArg(a)|;
        assert AllDuplicated(args, n, dupOk) <==> (a.Descriptor? ==> dupOk(n)) && AllDuplicated(args, n + 1, dupOk);
      }
    }
  }

  /** A list of arguments is written whole if and only if it is acceptable. */
  lemma {:induction false} AcceptedIff(args: seq<Arg>, n: nat, dupOk: nat -> bool, w: Situation)
    requires AllValues(args) && n <= |args| && Within(w.buf)
    ensures StatusOfAll(args, n, dupOk, w) == Ok <==> Acceptable(args, n, dupOk, w)
    decreases |args| - n
  {
    hide Acceptable, Status1, Advanced, IsEncodable;
    if n == |args| {
      NothingIsAcceptable(args, dupOk, w);
    } else {
      AcceptableStep(args, n, dupOk, w);
      if Status1(args[n], dupOk(n), w) == Ok {
        AdvancedWithin(args[n], dupOk(n), w);
        AcceptedIff(args, n + 1, dupOk, Advanced(args[n], w));
      }
    }
  }

  lemma NothingIsAcceptable(args: seq<Arg>, dupOk: nat -> bool, w: Situation)
    ensures Acceptable(args, |args|, dupOk, w)
  {
  }

  /** One conversion of a format, and the argument it takes. */
  lemma TakeArgument(s: string, args: seq<Arg>, n: nat)
    requires s != [] && n <= |args| && EncoderParse(s).kinds == Kinds(args[n..])
    ensures var c := if s[0] == '%' then EncoderConversion(s[1..], NO_FLAGS) else None;
      && (c.None? ==> n == |args| && !EncoderParse(s).ok)
      && (c.Some? ==> n < |args| && args[n].Kind() == c.value.kind
                      && EncoderParse(c.value.rest) == Parse(Kinds(args[n + 1..]), EncoderParse(s).ok))
  {
    var p := EncoderParse(s);
    var c := if s[0] == '%' then EncoderConversion(s[1..], NO_FLAGS) else None;
    assert |p.kinds| == |args| - n;
    if c.Some? {
      assert p.kinds[0] == Kinds(args[n..])[0] == args[n].Kind();
      assert p.kinds[1..] == EncoderParse(c.value.rest).kinds;
      assert Kinds(args[n..])[1..] == Kinds(args[n + 1..]);
    }
  }

  predicate Written(m0: Msg, m: Msg, args: seq<Arg>, n: nat)
    requires n <= |args|
  {
    Encodable(args[..n]) && m == AppendAll(m0, args[..n])
  }

  lemma WriteOneMore(m0: Msg, m: Msg, args: seq<Arg>, n: nat)
    requires n < |args| && Written(m0, m, args, n) && IsEncodable(args[n])
    ensures Written(m0, Append(m, args[n]), args, n + 1)
  {
    assert args[..n + 1] == args[..n] + [args[n]];
  }

  /** Read one conversion. There is an argument for it, and the rest of the format is for the others. */
  method NextConversion(fmt: string, i: nat, ghost args: seq<Arg>, ghost n: nat, ghost ok: bool)
    returns (k: Option<Kind>, next: nat)
    requires IsCString(fmt) && i < |fmt| && n <= |args| && EncoderParse(fmt[i..]) == Parse(Kinds(args[n..]), ok)
    ensures k.None? ==> n == |args| && !ok
    ensures k.Some? ==>
      && n < |args| && args[n].Kind() == k.value && i < next <= |fmt|
      && EncoderParse(fmt[next..]) == Parse(Kinds(args[n + 1..]), ok)
  {
    TakeArgument(fmt[i..], args, n);
    assert fmt[i..][1..] == fmt[i + 1..];
    EncoderShorter(fmt[i + 1..], NO_FLAGS);
    hide EncoderParse, EncoderConversion, Kinds;
    if fmt[i] != '%' {
      return None, i;
    }
    k, next := EncoderSpecifier(fmt, i + 1);
  }

  lemma WriteStart(m: Msg, args: seq<Arg>)
    ensures Written(m, m, args, 0) && args[0..] == args
  {
    assert args[..0] == [];
  }

  /** At the end of the format, all the arguments were written. */
  lemma WriteEnd(m0: Msg, m: Msg, args: seq<Arg>, n: nat, ok: bool)
    requires n <= |args| && Written(m0, m, args, n) && EncoderParse([]) == Parse(Kinds(args[n..]), ok)
    ensures n == |args| && ok && Encodable(args) && m == AppendAll(m0, args)
  {
    assert |Kinds(args[n..])| == 0;
    assert args[..n] == args;
  }

  ghost function SituationOf(enc: Encoder): Situation
    reads enc
  {
    Situation(enc.finished, enc.shared, |enc.fdoffs|, enc.Buf())
  }

  /** Write one of the arguments. */
  method WriteNext(enc: Encoder, args: seq<Arg>, n: nat, dupOk: nat -> bool) returns (res: Status)
    requires AllValues(args) && n < |args| && enc.Valid() && StatusOfAll(args, n, dupOk, SituationOf(enc)) != Overrun
    modifies enc`data, enc`capacity, enc`fdoffs
    ensures enc.Valid()
    ensures res != Ok ==> res == StatusOfAll(args, n, dupOk, old(SituationOf(enc)))
    ensures res == Ok ==>
      && IsEncodable(args[n]) && enc.Abs() == Append(old(enc.Abs()), args[n])
      && StatusOfAll(args, n + 1, dupOk, SituationOf(enc)) == StatusOfAll(args, n, dupOk, old(SituationOf(enc)))
  {
    hide EncodeArg, IsEncodable, StatusOf, Kept, Limit;
    res := enc.Write(args[n], dupOk(n));
  }

  lemma NothingToWrite(args: seq<Arg>, dupOk: nat -> bool, w: Situation)
    requires AllValues(args)
    ensures StatusOfAll(args, |args|, dupOk, w) == Ok
  {
  }

  /** Write with a format. Each conversion takes the next argument, which has its type. */
  method Writev(enc: Encoder, fmt: string, args: seq<Arg>, dupOk: nat -> bool) returns (res: Status)
    requires IsCString(fmt) && EncoderParse(fmt).kinds == Kinds(args) && AllValues(args)
    requires enc.Valid() && StatusOfAll(args, 0, dupOk, SituationOf(enc)) != Overrun
    modifies enc`data, enc`capacity, enc`fdoffs
    ensures
      var status := StatusOfAll(args, 0, dupOk, old(SituationOf(enc)));
      res == if status != Ok then status else if EncoderParse(fmt).ok then Ok else EINVAL
    ensures res == Ok ==> Encodable(args) && enc.Abs() == AppendAll(old(enc.Abs()), args)
    ensures res == Ok <==> EncoderParse(fmt).ok && Acceptable(args, 0, dupOk, old(SituationOf(enc)))
  {
    AcceptedIff(args, 0, dupOk, SituationOf(enc));
    hide EncodeArg, IsEncodable, EncoderConversion, StatusOfAll, Acceptable, Limit, Append, Written, EncoderParse;
    var i, n := 0, 0;
    ghost var status := StatusOfAll(args, 0, dupOk, SituationOf(enc));
    ghost var ok := EncoderParse(fmt).ok;
    WriteStart(enc.Abs(), args);
    assert fmt[0..] == fmt;
    while i < |fmt|
      invariant i <= |fmt| && n <= |args| && enc.Valid()
      invariant EncoderParse(fmt[i..]) == Parse(Kinds(args[n..]), ok)
      invariant Written(old(enc.Abs()), enc.Abs(), args, n)
      invariant status == StatusOfAll(args, n, dupOk, SituationOf(enc))
      decreases |fmt| - i
    {
      if n == |args| {
        NothingToWrite(args, dupOk, SituationOf(enc));
      }
      var k, next := NextConversion(fmt, i, args, n, ok);
      if k.None? {
        return EINVAL;
      }
      ghost var m := enc.Abs();
      res := WriteNext(enc, args, n, dupOk);
      if res != Ok {
        return;
      }
      WriteOneMore(old(enc.Abs()), m, args, n);
      i, n := next, n + 1;
    }
    assert fmt[i..] == [];
    WriteEnd(old(enc.Abs()), enc.Abs(), args, n, ok);
    NothingToWrite(args, dupOk, SituationOf(enc));
    res := Ok;
  }

  function After(args: seq<Arg>, r: Reading): Reading {
    if r.Read? then r.(args := args + r.args) else r
  }

  /** One conversion of a format, and what it reads. */
  lemma ScanStep(reader: Reader, pos: nat, s: string, strings: nat, before: seq<Arg>, all: Reading)
    requires s != [] && all == After(before, Scan(reader, pos, s, strings))
    ensures var c := if s[0] == '%' then DecoderConversion(s[1..], NO_FLAGS) else None;
      && (c.None? || (c.value.kind == STR && strings >= MAX_DECODE_STR) ==> all == Failed)
      && (c.Some? && !(c.value.kind == STR && strings >= MAX_DECODE_STR) ==>
            match reader(pos, c.value.kind)
            case Bad => all == Failed
            case Undefined => all == Reading.Undefined
            case Got(a, used) =>
              var next := if c.value.kind == STR then strings + 1 else strings;
              all == After(before + [a], Scan(reader, pos + used, c.value.rest, next)))
  {
    var c := if s[0] == '%' then DecoderConversion(s[1..], NO_FLAGS) else None;
    if c.Some? && !(c.value.kind == STR && strings >= MAX_DECODE_STR) && reader(pos, c.value.kind).Got? {
      var r := reader(pos, c.value.kind);
      var rest := Scan(reader, pos + r.used, c.value.rest, if c.value.kind == STR then strings + 1 else strings);
      if rest.Read? {
        assert before + ([r.arg] + rest.args) == before + [r.arg] + rest.args;
      }
    }
  }

  /** Which of the arguments are strings. */
  function TextSlots(args: seq<Arg>): set<nat> {
    set i: nat | i < |args| && args[i].Text?
  }

  lemma SlotsGrow(args: seq<Arg>, a: Arg)
    ensures TextSlots(args + [a]) == if a.Text? then TextSlots(args) + {|args|} else TextSlots(args)
  {
  }

  /** Free the strings whose places were saved. */
  method FreeStrings(saved: seq<nat>, owned: set<nat>) returns (live: set<nat>)
    requires forall x | x in owned :: x in saved
    ensures live == {}
  {
    live := owned;
    for i := 0 to |saved|
      invariant forall x | x in live :: x in saved[i..]
    {
      live := live - {saved[i]};
      assert saved[i..] == [saved[i]] + saved[i + 1..];
    }
  }

  /** Read with a format. `live` tells which of the results are strings left to the caller to free: all of
      them after a success, none after an error. */
  method Readv(dec: Decoder, fmt: string) returns (r: Reading, live: set<nat>)
    requires IsCString(fmt)
    modifies dec`pos
    ensures r == Scan(ReaderOf(dec.m), old(dec.pos), fmt, 0)
    ensures r.Read? ==> dec.pos == r.pos && live == TextSlots(r.args)
    ensures !r.Read? ==> live == {}
  {
    hide DecodeArg, DecoderConversion, Scan, ReaderOf, TextSlots;
    var i := 0;
    var args: seq<Arg>, saved: seq<nat> := [], [];
    live := {};
    ghost var reader := ReaderOf(dec.m);
    ghost var all := Scan(reader, dec.pos, fmt, 0);
    assert fmt[0..] == fmt && all == After([], all);
    NoSlots();
    while i < |fmt|
      invariant i <= |fmt| && |saved| <= MAX_DECODE_STR
      invariant live == TextSlots(args) && (forall x | x in live :: x in saved)
      invariant all == After(args, Scan(reader, dec.pos, fmt[i..], |saved|))
      decreases |fmt| - i
    {
      ScanStep(reader, dec.pos, fmt[i..], |saved|, args, all);
      assert fmt[i..][1..] == fmt[i + 1..];
      if fmt[i] != '%' {
        live := FreeStrings(saved, live);
        return Failed, live;
      }
      var k, next := DecoderSpecifier(fmt, i + 1);
      if k.None? || (k.value == STR && |saved| == MAX_DECODE_STR) {
        live := FreeStrings(saved, live);
        return Failed, live;
      }
      DecoderShorter(fmt[i + 1..], NO_FLAGS);
      var got := ReadKind(dec, k.value, reader);
      if !got.Got? {
        live := FreeStrings(saved, live);
        return if got.Bad? then Failed else Reading.Undefined, live;
      }
      SlotsGrow(args, got.arg);
      if k.value == STR {
        saved := saved + [|args|];
        live := live + {|args|};
      }
      args := args + [got.arg];
      i := next;
    }
    r := Read(args, dec.pos);
    ScanEnd(reader, dec.pos, |saved|);
    assert fmt[i..] == [] && args + [] == args;
  }

  lemma NoSlots()
    ensures TextSlots([]) == {}
  {
  }

  lemma ScanEnd(reader: Reader, pos: nat, strings: nat)
    ensures Scan(reader, pos, [], strings) == Read([], pos)
  {
  }

  method ReadKind(dec: Decoder, k: Kind, ghost reader: Reader) returns (r: Outcome)
    requires reader == ReaderOf(dec.m)
    modifies dec`pos
    ensures r == reader(old(dec.pos), k)
    ensures r.Got? ==> dec.pos == old(dec.pos) + r.used && r.arg.Kind() == k && (r.arg.Text? <==> k == STR)
  {
    r := dec.Read(k);
    ArgBound(dec.m, old(dec.pos), k);
  }
}
