/** The two interpreters of format strings: printf-like in src/pomp_encoder.c, scanf-like in
    src/pomp_decoder.c, with a `long` of 64 bits. Here they are functions of what remains of the string. */
module Format {
  import opened Wrappers
  import opened Codec
  import opened Args

  const MAX_DECODE_STR: nat := 16

  datatype Flags = Flags(l: bool, ll: bool, h: bool, hh: bool, m: bool)

  const NO_FLAGS := Flags(false, false, false, false, false)

  /** A conversion, and what follows it in the string. */
  datatype Conversion = Conversion(kind: Kind, rest: string)

  // ----- The encoder's -----

  /** Kind written for a conversion character. */
  function EncoderKind(c: char, f: Flags): Option<Kind> {
    if c == 'i' || c == 'd' then
      Some(if f.ll then I64 else if f.l then I64 else if f.hh then I8 else if f.h then I16 else I32)
    else if c == 'u' then
      Some(if f.ll then U64 else if f.l then U64 else if f.hh then U8 else if f.h then U16 else U32)
    else if c == 's' then Some(STR)
    else if c in "fFeEgG" then
      if f.ll || f.h || f.hh then None else Some(if f.l then F64 else F32)
    else if c == 'x' then
      if f.ll || f.l || f.h || f.hh then None else Some(FD)
    else None
  }

  /** What follows a percent sign. A buffer is written `%p%u`. */
  function EncoderConversion(s: string, f: Flags): Option<Conversion>
    decreases |s|
  {
    if s == [] then None
    else if s[0] == 'l' then
      if |s| > 1 && s[1] == 'l' then EncoderConversion(s[2..], f.(ll := true))
      else EncoderConversion(s[1..], f.(l := true))
    else if s[0] == 'h' then
      if |s| > 1 && s[1] == 'h' then EncoderConversion(s[2..], f.(hh := true))
      else EncoderConversion(s[1..], f.(h := true))
    else if s[0] == 'p' then
      if |s| > 2 && s[1] == '%' && s[2] == 'u' then Some(Conversion(BUF, s[3..])) else None
    else match EncoderKind(s[0], f)
      case None => None
      case Some(k) => Some(Conversion(k, s[1..]))
  }

  // ----- The decoder's -----

  function DecoderKind(c: char, f: Flags): Option<Kind> {
    if c == 'i' || c == 'd' then
      Some(if f.ll then I64 else if f.l then I64 else if f.hh then I8 else if f.h then I16 else I32)
    else if c == 'u' then
      Some(if f.ll then U64 else if f.l then U64 else if f.hh then U8 else if f.h then U16 else U32)
    else if c == 's' then
      if f.m then Some(STR) else None
    else if c in "fFeEgG" then
      if f.ll || f.h || f.hh then None else Some(if f.l then F64 else F32)
    else if c == 'x' then
      if f.ll || f.l || f.h || f.hh then None else Some(FD)
    else None
  }

  function DecoderConversion(s: string, f: Flags): Option<Conversion>
    decreases |s|
  {
    if s == [] then None
    else if s[0] == 'l' then
      if |s| > 1 && s[1] == 'l' then DecoderConversion(s[2..], f.(ll := true))
      else DecoderConversion(s[1..], f.(l := true))
    else if s[0] == 'h' then
      if |s| > 1 && s[1] == 'h' then DecoderConversion(s[2..], f.(hh := true))
      else DecoderConversion(s[1..], f.(h := true))
    else if s[0] == 'm' then DecoderConversion(s[1..], f.(m := true))
    else if s[0] == 'p' then
      if |s| > 2 && s[1] == '%' && s[2] == 'u' then Some(Conversion(BUF, s[3..])) else None
    else match DecoderKind(s[0], f)
      case None => None
      case Some(k) => Some(Conversion(k, s[1..]))
  }

  // ----- Whole strings -----

  lemma {:induction false} EncoderShorter(s: string, f: Flags)
    ensures var c := EncoderConversion(s, f); c.Some? ==> |c.value.rest| < |s|
    decreases |s|
  {
    if s != [] && s[0] == 'l' {
      EncoderShorter(s[1..], f.(l := true));
      if |s| > 1 {
        EncoderShorter(s[2..], f.(ll := true));
      }
    } else if s != [] && s[0] == 'h' {
      EncoderShorter(s[1..], f.(h := true));
      if |s| > 1 {
        EncoderShorter(s[2..], f.(hh := true));
      }
    }
  }

  lemma {:induction false} DecoderShorter(s: string, f: Flags)
    ensures var c := DecoderConversion(s, f); c.Some? ==> |c.value.rest| < |s|
    decreases |s|
  {
    if s != [] && s[0] == 'l' {
      DecoderShorter(s[1..], f.(l := true));
      if |s| > 1 {
        DecoderShorter(s[2..], f.(ll := true));
      }
    } else if s != [] && s[0] == 'h' {
      DecoderShorter(s[1..], f.(h := true));
      if |s| > 1 {
        DecoderShorter(s[2..], f.(hh := true));
      }
    } else if s != [] && s[0] == 'm' {
      DecoderShorter(s[1..], f.(m := true));
    }
  }

  /** The conversions of a string up to its end or its first error. */
  datatype Parse = Parse(kinds: seq<Kind>, ok: bool)

  function Then(k: Kind, p: Parse): Parse {
    p.(kinds := [k] + p.kinds)
  }

  function EncoderParse(s: string): Parse
    decreases |s|
  {
    if s == [] then Parse([], true)
    else if s[0] != '%' then Parse([], false)
    else
      EncoderShorter(s[1..], NO_FLAGS);
      match EncoderConversion(s[1..], NO_FLAGS)
      case None => Parse([], false)
      case Some(c) => Then(c.kind, EncoderParse(c.rest))
  }

  /** The decoder also counts strings: there is room for sixteen. */
  function DecoderParse(s: string, strings: nat): Parse
    decreases |s|
  {
    if s == [] then Parse([], true)
    else if s[0] != '%' then Parse([], false)
    else
      DecoderShorter(s[1..], NO_FLAGS);
      match DecoderConversion(s[1..], NO_FLAGS)
      case None => Parse([], false)
      case Some(c) =>
        if c.kind == STR && strings >= MAX_DECODE_STR then Parse([], false)
        else Then(c.kind, DecoderParse(c.rest, if c.kind == STR then strings + 1 else strings))
  }

  function Strings(kinds: seq<Kind>): nat {
    if kinds == [] then 0 else (if kinds[0] == STR then 1 else 0) + Strings(kinds[1..])
  }

  // ----- Agreement -----

  /** The format to read with: `ms` for every `s`. */
  function ForReading(s: string): string {
    if s == [] then [] else (if s[0] == 's' then "ms" else [s[0]]) + ForReading(s[1..])
  }

  lemma ForReadingHead(s: string)
    requires s != []
    ensures s[0] != 's' ==> ForReading(s) == [s[0]] + ForReading(s[1..])
    ensures s[0] == 's' ==> ForReading(s) == ['m', 's'] + ForReading(s[1..])
  {
  }

  lemma ForReadingTwo(s: string)
    requires |s| > 1 && s[0] != 's' && s[1] != 's'
    ensures |ForReading(s)| > 1 && ForReading(s)[0] == s[0] && ForReading(s)[1] == s[1]
    ensures ForReading(s)[2..] == ForReading(s[2..])
  {
    ForReadingHead(s);
    ForReadingHead(s[1..]);
    assert s[1..][1..] == s[2..];
  }

  lemma ForReadingPeek(s: string, c: char)
    requires |s| > 0 && s[0] != 's' && c != 's' && c != 'm' && (|s| > 1 ==> s[1] != c)
    ensures |ForReading(s)| > 0 && ForReading(s)[0] == s[0] && ForReading(s)[1..] == ForReading(s[1..])
    ensures |ForReading(s)| > 1 ==> ForReading(s)[1] != c
  {
    ForReadingHead(s);
    if |s| > 1 {
      ForReadingHead(s[1..]);
    }
  }

  predicate Agree(s: string, f: Flags)
    requires EncoderConversion(s, f).Some?
  {
    var c := EncoderConversion(s, f).value;
    DecoderConversion(ForReading(s), f) == Some(Conversion(c.kind, ForReading(c.rest)))
  }

  lemma BuffersAgree(s: string, f: Flags)
    requires EncoderConversion(s, f).Some? && s[0] == 'p'
    ensures Agree(s, f)
  {
    var r := ForReading(s);
    ForReadingTwo(s);
    ForReadingHead(s[2..]);
    assert s[2..][1..] == s[3..];
    assert r[2] == r[2..][0] && r[3..] == r[2..][1..];
  }

  lemma CharactersAgree(s: string, f: Flags)
    requires EncoderConversion(s, f).Some? && s[0] != 'l' && s[0] != 'h' && s[0] != 'p'
    ensures Agree(s, f)
  {
    var r := ForReading(s);
    ForReadingHead(s);
    if s[0] == 's' {
      assert r[0] == 'm' && r[1..] == ['s'] + ForReading(s[1..]);
      assert r[1..][1..] == ForReading(s[1..]);
    } else {
      assert r[1..] == ForReading(s[1..]);
    }
  }

  lemma {:induction false} ConversionsAgree(s: string, f: Flags)
    requires EncoderConversion(s, f).Some?
    ensures Agree(s, f)
    decreases |s|
  {
    if s[0] == 'p' {
      BuffersAgree(s, f);
    } else if s[0] != 'l' && s[0] != 'h' {
      CharactersAgree(s, f);
    } else if |s| > 1 && s[1] == s[0] {
      ForReadingTwo(s);
      ConversionsAgree(s[2..], if s[0] == 'l' then f.(ll := true) else f.(hh := true));
    } else {
      ForReadingPeek(s, s[0]);
      ConversionsAgree(s[1..], if s[0] == 'l' then f.(l := true) else f.(h := true));
    }
  }

  /** Every format the encoder takes is taken by the decoder, with `ms` for `s`, and means the same kinds,
      if and only if it has at most sixteen strings. */
  lemma {:induction false} FormatsAgree(s: string, strings: nat)
    requires EncoderParse(s).ok
    ensures var kinds, p := EncoderParse(s).kinds, DecoderParse(ForReading(s), strings);
      && (p.ok <==> Strings(kinds) == 0 || strings + Strings(kinds) <= MAX_DECODE_STR)
      && (p.ok ==> p.kinds == kinds)
    decreases |s|
  {
    if s != [] {
      ForReadingHead(s);
      var c := EncoderConversion(s[1..], NO_FLAGS).value;
      EncoderShorter(s[1..], NO_FLAGS);
      ConversionsAgree(s[1..], NO_FLAGS);
      assert ForReading(s)[1..] == ForReading(s[1..]);
      var kinds := EncoderParse(s).kinds;
      assert kinds[0] == c.kind && kinds[1..] == EncoderParse(c.rest).kinds;
      if c.kind != STR || strings < MAX_DECODE_STR {
        FormatsAgree(c.rest, if c.kind == STR then strings + 1 else strings);
      }
    }
  }

  // ----- Reading with a format -----

  /** The decoder reads as it parses. */
  function Scan(reader: Reader, pos: nat, s: string, strings: nat): Reading
    decreases |s|
  {
    if s == [] then Read([], pos)
    else if s[0] != '%' then Failed
    else
      DecoderShorter(s[1..], NO_FLAGS);
      match DecoderConversion(s[1..], NO_FLAGS)
      case None => Failed
      case Some(c) =>
        if c.kind == STR && strings >= MAX_DECODE_STR then Failed
        else match reader(pos, c.kind)
          case Got(a, used) =>
            Prepend(a, Scan(reader, pos + used, c.rest, if c.kind == STR then strings + 1 else strings))
          case Bad => Failed
          case Undefined => Reading.Undefined
  }

  /** With an acceptable format, that is reading the kinds of the format. */
  lemma {:induction false} ScanIsReadAll(reader: Reader, pos: nat, s: string, strings: nat)
    requires DecoderParse(s, strings).ok
    ensures Scan(reader, pos, s, strings) == ReadAll(reader, pos, DecoderParse(s, strings).kinds)
    decreases |s|
  {
    if s != [] {
      DecoderShorter(s[1..], NO_FLAGS);
      var c := DecoderConversion(s[1..], NO_FLAGS).value;
      var next := if c.kind == STR then strings + 1 else strings;
      var kinds := DecoderParse(s, strings).kinds;
      assert kinds[0] == c.kind && kinds[1..] == DecoderParse(c.rest, next).kinds;
      var r := reader(pos, c.kind);
      if r.Got? {
        ScanIsReadAll(reader, pos + r.used, c.rest, next);
      }
    }
  }

  /** Nothing is read with any other format. */
  lemma {:induction false} ScanNeedsFormat(reader: Reader, pos: nat, s: string, strings: nat)
    requires Scan(reader, pos, s, strings).Read?
    ensures DecoderParse(s, strings).ok
    decreases |s|
  {
    hide DecoderConversion;
    if s != [] {
      DecoderShorter(s[1..], NO_FLAGS);
      var c := DecoderConversion(s[1..], NO_FLAGS).value;
      var r := reader(pos, c.kind);
      ScanNeedsFormat(reader, pos + r.used, c.rest, if c.kind == STR then strings + 1 else strings);
    }
  }

  /** What the encoder wrote with a format, the decoder reads back with it, `ms` standing for `s`: the same
      values, up to the end of the message. */
  lemma FormatRoundTrip(m: Msg, s: string, args: seq<Arg>)
    requires EncoderParse(s) == Parse(Kinds(args), true) && Encodable(args)
    requires Strings(Kinds(args)) <= MAX_DECODE_STR
    ensures var all := AppendAll(m, args);
      Scan(ReaderOf(all), |m.data|, ForReading(s), 0) == Read(args, |all.data|)
  {
    FormatsAgree(s, 0);
    ScanIsReadAll(ReaderOf(AppendAll(m, args)), |m.data|, ForReading(s), 0);
    ListRoundTrip(m, args, |args|);
    assert args[..|args|] == args;
  }
}
