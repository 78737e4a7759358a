/** The formats of the interface, written as a grammar: what a user may write and what it means. The interpreters of
    module Format accept exactly these, with these meanings. */
module Grammar {
  import opened Wrappers
  import opened Codec
  import opened Format

  datatype Flag = L | LL | H | HH | M

  function Spelled(f: Flag): string {
    match f case L => "l" case LL => "ll" case H => "h" case HH => "hh" case M => "m"
  }

  function Spell(flags: seq<Flag>): string {
    if flags == [] then "" else Spelled(flags[0]) + Spell(flags[1..])
  }

  /** Flags are read greedily: one `l` before another is `ll`. */
  predicate Clear(a: Flag, b: Flag) {
    !(a.L? && (b.L? || b.LL?)) && !(a.H? && (b.H? || b.HH?))
  }

  predicate Readable(flags: seq<Flag>) {
    |flags| < 2 || (Clear(flags[0], flags[1]) && Readable(flags[1..]))
  }

  // ----- Meaning -----

  predicate IsFloat(word: string) {
    word == "f" || word == "F" || word == "e" || word == "E" || word == "g" || word == "G"
  }

  predicate Long(flags: set<Flag>) {
    L in flags || LL in flags
  }

  predicate Plain(flags: set<Flag>) {
    !Long(flags) && H !in flags && HH !in flags
  }

  /** What each kind is written as. Only dynamically allocated strings can be read. */
  predicate Denotes(k: Kind, flags: set<Flag>, word: string, reading: bool) {
    match k
    case I8 => (word == "i" || word == "d") && !Long(flags) && HH in flags
    case I16 => (word == "i" || word == "d") && !Long(flags) && HH !in flags && H in flags
    case I32 => (word == "i" || word == "d") && Plain(flags)
    case I64 => (word == "i" || word == "d") && Long(flags)
    case U8 => word == "u" && !Long(flags) && HH in flags
    case U16 => word == "u" && !Long(flags) && HH !in flags && H in flags
    case U32 => word == "u" && Plain(flags)
    case U64 => word == "u" && Long(flags)
    case STR => word == "s" && (reading ==> M in flags)
    case BUF => word == "p%u"
    case F32 => IsFloat(word) && Plain(flags)
    case F64 => IsFloat(word) && L in flags && LL !in flags && H !in flags && HH !in flags
    case FD => word == "x" && Plain(flags)
  }

  function Among(flags: seq<Flag>): set<Flag> {
    set f | f in flags
  }

  /** `%`, flags, and a word. */
  datatype Item = Item(flags: seq<Flag>, word: string)

  predicate Means(it: Item, k: Kind, reading: bool) {
    && Readable(it.flags) && (!reading ==> M !in it.flags)
    && Denotes(k, Among(it.flags), it.word, reading)
  }

  function Written(it: Item): string {
    "%" + (Spell(it.flags) + it.word)
  }

  function Text(items: seq<Item>): string {
    if items == [] then "" else Written(items[0]) + Text(items[1..])
  }

  predicate Meaning(items: seq<Item>, kinds: seq<Kind>, reading: bool) {
    |items| == |kinds| && forall i | 0 <= i < |items| :: Means(items[i], kinds[i], reading)
  }

  /** The string begins with no item. */
  ghost predicate Stuck(s: string, reading: bool) {
    forall it: Item, k: Kind, rest: string :: s == Written(it) + rest ==> !Means(it, k, reading)
  }

  // ----- Flags -----

  /** The flags seen so far. */
  function Seen(f: Flags): set<Flag> {
    (if f.l then {L} else {}) + (if f.ll then {LL} else {}) + (if f.h then {H} else {})
    + (if f.hh then {HH} else {}) + (if f.m then {M} else {})
  }

  function With(f: Flags, g: Flag): Flags {
    match g
    case L => f.(l := true) case LL => f.(ll := true) case H => f.(h := true) case HH => f.(hh := true)
    case M => f.(m := true)
  }

  lemma SeenAdds(f: Flags, g: Flag)
    ensures Seen(With(f, g)) == Seen(f) + {g}
  {
  }

  lemma SeenWith(f: Flags, flags: seq<Flag>)
    requires flags != []
    ensures Seen(f) + Among(flags) == Seen(With(f, flags[0])) + Among(flags[1..])
  {
    hide Seen, With;
    SeenAdds(f, flags[0]);
    assert flags == [flags[0]] + flags[1..];
    assert Among(flags) == {flags[0]} + Among(flags[1..]);
  }

  predicate IsWord(word: string) {
    word == "i" || word == "d" || word == "u" || word == "s" || word == "x" || word == "p%u" || IsFloat(word)
  }

  lemma WordsOnly(k: Kind, flags: set<Flag>, word: string, reading: bool)
    requires Denotes(k, flags, word, reading)
    ensures IsWord(word) && word[0] != 'l' && word[0] != 'h' && word[0] != 'm'
  {
  }

  /** A flag is read as itself in front of this. */
  predicate Separate(g: Flag, s: string) {
    s != [] && (g.L? ==> s[0] != 'l') && (g.H? ==> s[0] != 'h')
  }

  lemma SpellHead(flags: seq<Flag>, word: string, rest: string)
    requires flags != []
    ensures Spell(flags) + word + rest == Spelled(flags[0]) + (Spell(flags[1..]) + word + rest)
  {
  }

  /** What follows the first flag of several. */
  lemma Heads(flags: seq<Flag>, word: string, rest: string)
    requires flags != [] && Readable(flags) && IsWord(word)
    ensures Readable(flags[1..]) && Separate(flags[0], Spell(flags[1..]) + word + rest)
  {
    var t := Spell(flags[1..]) + word + rest;
    if |flags| > 1 {
      SpellHead(flags[1..], word, rest);
      assert t[0] == Spelled(flags[1])[0];
    } else {
      assert t == word + rest;
    }
  }

  // ----- The encoder -----

  lemma EncoderWord(k: Kind, f: Flags, word: string, rest: string)
    requires Denotes(k, Seen(f), word, false)
    ensures EncoderConversion(word + rest, f) == Some(Conversion(k, rest))
  {
    var s := word + rest;
    assert s[0] == word[0];
    if word == "p%u" {
      assert s[1] == '%' && s[2] == 'u' && s[3..] == rest;
    } else {
      assert s[1..] == rest;
    }
  }

  lemma EncoderFlag(g: Flag, t: string, f: Flags)
    requires Separate(g, t) && !g.M?
    ensures EncoderConversion(Spelled(g) + t, f) == EncoderConversion(t, With(f, g))
  {
    var s := Spelled(g) + t;
    if |Spelled(g)| == 2 {
      assert s[2..] == t;
    } else {
      assert s[1..] == t;
    }
  }

  lemma {:induction false} EncoderReads(k: Kind, f: Flags, flags: seq<Flag>, word: string, rest: string)
    requires Readable(flags) && M !in flags && Denotes(k, Seen(f) + Among(flags), word, false)
    ensures EncoderConversion(Spell(flags) + word + rest, f) == Some(Conversion(k, rest))
    decreases |flags|
  {
    hide Denotes, EncoderConversion, Seen, With;
    WordsOnly(k, Seen(f) + Among(flags), word, false);
    if flags == [] {
      assert Seen(f) + Among(flags) == Seen(f);
      assert Spell(flags) + word + rest == word + rest;
      EncoderWord(k, f, word, rest);
    } else {
      Heads(flags, word, rest);
      SpellHead(flags, word, rest);
      SeenWith(f, flags);
      EncoderFlag(flags[0], Spell(flags[1..]) + word + rest, f);
      EncoderReads(k, With(f, flags[0]), flags[1..], word, rest);
    }
  }

  lemma EncoderWordIs(s: string, f: Flags) returns (word: string)
    requires EncoderConversion(s, f).Some? && s[0] != 'l' && s[0] != 'h'
    ensures
      var c := EncoderConversion(s, f).value;
      s == word + c.rest && Denotes(c.kind, Seen(f), word, false)
  {
    word := if s[0] == 'p' then s[..3] else s[..1];
    assert s == s[..1] + s[1..];
    assert |s| >= 3 ==> s == s[..3] + s[3..];
  }

  /** One more flag in front. */
  lemma Prefixed(g: Flag, flags: seq<Flag>, word: string, rest: string)
    requires Readable(flags) && IsWord(word) && Separate(g, Spell(flags) + word + rest)
    ensures Readable([g] + flags) && Spell([g] + flags) + word + rest == Spelled(g) + (Spell(flags) + word + rest)
  {
    var all := [g] + flags;
    assert all[1..] == flags;
    SpellHead(all, word, rest);
    if flags != [] {
      SpellHead(flags, word, rest);
      assert (Spell(flags) + word + rest)[0] == Spelled(flags[0])[0];
    }
  }

  /** The first flag of a conversion, and what is left of it. */
  lemma EncoderFirst(s: string, f: Flags) returns (g: Flag, rest: string)
    requires EncoderConversion(s, f).Some? && (s[0] == 'l' || s[0] == 'h')
    ensures s == Spelled(g) + rest && Separate(g, rest) && !g.M?
    ensures EncoderConversion(s, f) == EncoderConversion(rest, With(f, g))
  {
    var double := s[0] != 'm' && |s| > 1 && s[1] == s[0];
    g := if s[0] == 'l' then (if double then LL else L) else if s[0] == 'h' then (if double then HH else H) else M;
    rest := if double then s[2..] else s[1..];
    assert s == Spelled(g) + rest;
  }

  lemma {:induction false} EncoderSpelled(s: string, f: Flags) returns (flags: seq<Flag>, word: string)
    requires EncoderConversion(s, f).Some?
    ensures
      var c := EncoderConversion(s, f).value;
      && s == Spell(flags) + word + c.rest && Readable(flags) && M !in flags
      && Denotes(c.kind, Seen(f) + Among(flags), word, false)
    decreases |s|
  {
    var c := EncoderConversion(s, f).value;
    if s[0] != 'l' && s[0] != 'h' {
      flags := [];
      word := EncoderWordIs(s, f);
      assert Seen(f) + Among([]) == Seen(f);
      assert "" + word == word;
    } else {
      var g, rest := EncoderFirst(s, f);
      hide Denotes, EncoderConversion, Seen, With;
      var more;
      more, word := EncoderSpelled(rest, With(f, g));
      WordsOnly(c.kind, Seen(With(f, g)) + Among(more), word, false);
      flags := [g] + more;
      assert flags[1..] == more;
      SeenWith(f, flags);
      Prefixed(g, more, word, c.rest);
    }
  }

  // ----- The decoder -----

  lemma DecoderWord(k: Kind, f: Flags, word: string, rest: string)
    requires Denotes(k, Seen(f), word, true)
    ensures DecoderConversion(word + rest, f) == Some(Conversion(k, rest))
  {
    var s := word + rest;
    assert s[0] == word[0];
    if word == "p%u" {
      assert s[1] == '%' && s[2] == 'u' && s[3..] == rest;
    } else {
      assert s[1..] == rest;
    }
  }

  lemma DecoderFlag(g: Flag, t: string, f: Flags)
    requires Separate(g, t)
    ensures DecoderConversion(Spelled(g) + t, f) == DecoderConversion(t, With(f, g))
  {
    var s := Spelled(g) + t;
    if |Spelled(g)| == 2 {
      assert s[2..] == t;
    } else {
      assert s[1..] == t;
    }
  }

  lemma {:induction false} DecoderReads(k: Kind, f: Flags, flags: seq<Flag>, word: string, rest: string)
    requires Readable(flags) && Denotes(k, Seen(f) + Among(flags), word, true)
    ensures DecoderConversion(Spell(flags) + word + rest, f) == Some(Conversion(k, rest))
    decreases |flags|
  {
    hide Denotes, DecoderConversion, Seen, With;
    WordsOnly(k, Seen(f) + Among(flags), word, true);
    if flags == [] {
      assert Seen(f) + Among(flags) == Seen(f);
      assert Spell(flags) + word + rest == word + rest;
      DecoderWord(k, f, word, rest);
    } else {
      Heads(flags, word, rest);
      SpellHead(flags, word, rest);
      SeenWith(f, flags);
      DecoderFlag(flags[0], Spell(flags[1..]) + word + rest, f);
      DecoderReads(k, With(f, flags[0]), flags[1..], word, rest);
    }
  }

  lemma DecoderWordIs(s: string, f: Flags) returns (word: string)
    requires DecoderConversion(s, f).Some? && s[0] != 'l' && s[0] != 'h' && s[0] != 'm'
    ensures
      var c := DecoderConversion(s, f).value;
      s == word + c.rest && Denotes(c.kind, Seen(f), word, true)
  {
    word := if s[0] == 'p' then s[..3] else s[..1];
    assert s == s[..1] + s[1..];
    assert |s| >= 3 ==> s == s[..3] + s[3..];
  }

  /** The first flag of a conversion, and what is left of it. */
  lemma DecoderFirst(s: string, f: Flags) returns (g: Flag, rest: string)
    requires DecoderConversion(s, f).Some? && (s[0] == 'l' || s[0] == 'h' || s[0] == 'm')
    ensures s == Spelled(g) + rest && Separate(g, rest)
    ensures DecoderConversion(s, f) == DecoderConversion(rest, With(f, g))
  {
    var double := s[0] != 'm' && |s| > 1 && s[1] == s[0];
    g := if s[0] == 'l' then (if double then LL else L) else if s[0] == 'h' then (if double then HH else H) else M;
    rest := if double then s[2..] else s[1..];
    assert s == Spelled(g) + rest;
  }

  lemma {:induction false} DecoderSpelled(s: string, f: Flags) returns (flags: seq<Flag>, word: string)
    requires DecoderConversion(s, f).Some?
    ensures
      var c := DecoderConversion(s, f).value;
      && s == Spell(flags) + word + c.rest && Readable(flags)
      && Denotes(c.kind, Seen(f) + Among(flags), word, true)
    decreases |s|
  {
    var c := DecoderConversion(s, f).value;
    if s[0] != 'l' && s[0] != 'h' && s[0] != 'm' {
      flags := [];
      word := DecoderWordIs(s, f);
      assert Seen(f) + Among([]) == Seen(f);
      assert "" + word == word;
    } else {
      var g, rest := DecoderFirst(s, f);
      hide Denotes, DecoderConversion, Seen, With;
      var more;
      more, word := DecoderSpelled(rest, With(f, g));
      WordsOnly(c.kind, Seen(With(f, g)) + Among(more), word, true);
      flags := [g] + more;
      assert flags[1..] == more;
      SeenWith(f, flags);
      Prefixed(g, more, word, c.rest);
    }
  }

  // ----- Items -----

  lemma Associate(a: string, b: string, c: string)
    ensures a + b + c == a + (b + c)
  {
  }

  lemma TextOne(it: Item, rest: string)
    ensures Written(it) + rest == "%" + (Spell(it.flags) + it.word + rest)
  {
    hide Spell;
    Associate("%", Spell(it.flags) + it.word, rest);
  }

  lemma TextHead(items: seq<Item>, rest: string)
    requires items != []
    ensures Text(items) + rest == Written(items[0]) + (Text(items[1..]) + rest)
  {
    hide Written;
    Associate(Written(items[0]), Text(items[1..]), rest);
  }

  lemma NoFlags(flags: seq<Flag>)
    ensures Seen(NO_FLAGS) + Among(flags) == Among(flags)
  {
  }

  /** An item in front of anything is read, by the encoder, as its kind. */
  lemma EncoderItem(it: Item, k: Kind, rest: string)
    requires Means(it, k, false)
    ensures
      var s := Written(it) + rest;
      s != [] && s[0] == '%' && EncoderConversion(s[1..], NO_FLAGS) == Some(Conversion(k, rest))
  {
    hide Denotes;
    TextOne(it, rest);
    NoFlags(it.flags);
    EncoderReads(k, NO_FLAGS, it.flags, it.word, rest);
    assert (Written(it) + rest)[1..] == Spell(it.flags) + it.word + rest;
  }

  lemma DecoderItem(it: Item, k: Kind, rest: string)
    requires Means(it, k, true)
    ensures
      var s := Written(it) + rest;
      s != [] && s[0] == '%' && DecoderConversion(s[1..], NO_FLAGS) == Some(Conversion(k, rest))
  {
    hide Denotes;
    TextOne(it, rest);
    NoFlags(it.flags);
    DecoderReads(k, NO_FLAGS, it.flags, it.word, rest);
    assert (Written(it) + rest)[1..] == Spell(it.flags) + it.word + rest;
  }

  /** Where the string begins with no item, the encoder reads nothing. */
  lemma EncoderStuck(s: string)
    ensures Stuck(s, false) <==> s == [] || s[0] != '%' || EncoderConversion(s[1..], NO_FLAGS).None?
  {
    hide EncoderConversion, Denotes;
    if s != [] && s[0] == '%' && EncoderConversion(s[1..], NO_FLAGS).Some? {
      var c := EncoderConversion(s[1..], NO_FLAGS).value;
      var flags, word := EncoderSpelled(s[1..], NO_FLAGS);
      NoFlags(flags);
      TextOne(Item(flags, word), c.rest);
      assert s == Written(Item(flags, word)) + c.rest && Means(Item(flags, word), c.kind, false);
    } else {
      forall it: Item, k: Kind, rest: string | s == Written(it) + rest
        ensures !Means(it, k, false)
      {
        if Means(it, k, false) {
          EncoderItem(it, k, rest);
        }
      }
    }
  }

  lemma DecoderStuck(s: string)
    ensures Stuck(s, true) <==> s == [] || s[0] != '%' || DecoderConversion(s[1..], NO_FLAGS).None?
  {
    hide DecoderConversion, Denotes;
    if s != [] && s[0] == '%' && DecoderConversion(s[1..], NO_FLAGS).Some? {
      var c := DecoderConversion(s[1..], NO_FLAGS).value;
      var flags, word := DecoderSpelled(s[1..], NO_FLAGS);
      NoFlags(flags);
      TextOne(Item(flags, word), c.rest);
      assert s == Written(Item(flags, word)) + c.rest && Means(Item(flags, word), c.kind, true);
    } else {
      forall it: Item, k: Kind, rest: string | s == Written(it) + rest
        ensures !Means(it, k, true)
      {
        if Means(it, k, true) {
          DecoderItem(it, k, rest);
        }
      }
    }
  }

  // ----- Whole formats -----

  lemma EncoderParseHead(s: string, k: Kind, rest: string)
    requires s != [] && s[0] == '%' && EncoderConversion(s[1..], NO_FLAGS) == Some(Conversion(k, rest))
    ensures EncoderParse(s) == Then(k, EncoderParse(rest))
  {
    hide EncoderConversion;
    EncoderShorter(s[1..], NO_FLAGS);
  }

  lemma DecoderParseHead(s: string, k: Kind, rest: string, strings: nat)
    requires s != [] && s[0] == '%' && DecoderConversion(s[1..], NO_FLAGS) == Some(Conversion(k, rest))
    ensures DecoderParse(s, strings) ==
      if k == STR && strings >= MAX_DECODE_STR then Parse([], false)
      else Then(k, DecoderParse(rest, if k == STR then strings + 1 else strings))
  {
    hide DecoderConversion;
    DecoderShorter(s[1..], NO_FLAGS);
  }

  /** The encoder reads every sequence of items as their kinds, and stops with an error exactly if something that
      is no item follows. */
  lemma {:induction false} EncoderAccepts(items: seq<Item>, kinds: seq<Kind>, tail: string)
    requires Meaning(items, kinds, false) && Stuck(tail, false)
    ensures EncoderParse(Text(items) + tail) == Parse(kinds, tail == [])
  {
    hide Means, EncoderConversion;
    if items == [] {
      EncoderStuck(tail);
      assert Text(items) + tail == tail;
    } else {
      hide EncoderParse, Text, Written, Stuck;
      TextHead(items, tail);
      EncoderItem(items[0], kinds[0], Text(items[1..]) + tail);
      EncoderParseHead(Text(items) + tail, kinds[0], Text(items[1..]) + tail);
      EncoderAccepts(items[1..], kinds[1..], tail);
      assert kinds == [kinds[0]] + kinds[1..];
    }
  }

  /** And every string is such a sequence and such a rest. */
  lemma {:induction false} EncoderSplits(s: string) returns (items: seq<Item>, tail: string)
    ensures s == Text(items) + tail && Stuck(tail, false) && Meaning(items, EncoderParse(s).kinds, false)
    ensures EncoderParse(s).ok <==> tail == []
    decreases |s|
  {
    hide EncoderConversion, Denotes, Stuck;
    EncoderStuck(s);
    if s != [] && s[0] == '%' && EncoderConversion(s[1..], NO_FLAGS).Some? {
      var c := EncoderConversion(s[1..], NO_FLAGS).value;
      var flags, word := EncoderSpelled(s[1..], NO_FLAGS);
      NoFlags(flags);
      EncoderShorter(s[1..], NO_FLAGS);
      var it := Item(flags, word);
      var more;
      more, tail := EncoderSplits(c.rest);
      items := [it] + more;
      assert items[1..] == more;
      TextOne(it, c.rest);
      TextHead(items, tail);
      var kinds := EncoderParse(s).kinds;
      assert kinds == [c.kind] + EncoderParse(c.rest).kinds;
      assert Means(it, c.kind, false);
      Joined(it, c.kind, more, EncoderParse(c.rest).kinds, false);
    } else {
      items, tail := [], s;
      assert "" + s == s;
    }
  }

  lemma Joined(it: Item, k: Kind, items: seq<Item>, kinds: seq<Kind>, reading: bool)
    requires Means(it, k, reading) && Meaning(items, kinds, reading)
    ensures Meaning([it] + items, [k] + kinds, reading)
  {
    hide Means;
  }

  /** The decoder reads every sequence of items with no more strings than it has places for; with more it fails. */
  lemma {:induction false} DecoderAccepts(items: seq<Item>, kinds: seq<Kind>, tail: string, strings: nat)
    requires Meaning(items, kinds, true) && Stuck(tail, true)
    ensures
      var p := DecoderParse(Text(items) + tail, strings);
      if Strings(kinds) == 0 || strings + Strings(kinds) <= MAX_DECODE_STR then p == Parse(kinds, tail == []) else !p.ok
    decreases |items|
  {
    hide Means, DecoderConversion;
    if items == [] {
      DecoderStuck(tail);
      assert Text(items) + tail == tail;
    } else {
      hide DecoderParse, Text, Written, Stuck;
      TextHead(items, tail);
      DecoderItem(items[0], kinds[0], Text(items[1..]) + tail);
      DecoderParseHead(Text(items) + tail, kinds[0], Text(items[1..]) + tail, strings);
      DecoderAccepts(items[1..], kinds[1..], tail, if kinds[0] == STR then strings + 1 else strings);
      assert kinds == [kinds[0]] + kinds[1..];
    }
  }

  /** And a format it takes is such a sequence. */
  lemma {:induction false} DecoderSplits(s: string, strings: nat) returns (items: seq<Item>)
    requires DecoderParse(s, strings).ok
    ensures s == Text(items) && Meaning(items, DecoderParse(s, strings).kinds, true)
    decreases |s|
  {
    hide DecoderConversion, Denotes;
    if s == [] {
      items := [];
    } else {
      var c := DecoderConversion(s[1..], NO_FLAGS).value;
      var flags, word := DecoderSpelled(s[1..], NO_FLAGS);
      NoFlags(flags);
      DecoderShorter(s[1..], NO_FLAGS);
      var it := Item(flags, word);
      var next := if c.kind == STR then strings + 1 else strings;
      var more := DecoderSplits(c.rest, next);
      items := [it] + more;
      assert items[1..] == more;
      TextOne(it, c.rest);
      TextHead(items, "");
      assert Text(items) + "" == Text(items) && Text(more) + "" == Text(more);
      assert DecoderParse(s, strings).kinds == [c.kind] + DecoderParse(c.rest, next).kinds;
      assert Means(it, c.kind, true);
      Joined(it, c.kind, more, DecoderParse(c.rest, next).kinds, true);
    }
  }

  /** The meaning of an item is one kind. */
  lemma OneMeaning(it: Item, j: Kind, k: Kind, reading: bool)
    requires Means(it, j, reading) && Means(it, k, reading)
    ensures j == k
  {
  }
}
