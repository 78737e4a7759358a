/** The descriptors registered in a loop, src/pomp_loop.c: a hash table of 128 chains. Pointers between the
    entries of a chain are their order in a sequence. */
module FdTable {
  import opened Collections
  import opened Wrappers

  const CHAINS: nat := 128

  type Fd = x: int | 0 <= x < 0x8000_0000

  datatype Entry = Entry(fd: Fd, events: bv32, cb: nat, userdata: nat)

  /** Multiplicative hash on 64 bits. */
  function Index(fd: Fd): (r: nat)
    ensures r < CHAINS
  {
    var x := (fd as bv64) * 0xefec2401;
    var y := x ^ (x >> 4);
    (y % 128) as nat
  }

  /** The chains hold exactly the entries of the map, each in the chain of its hash and once. */
  predicate Represents(chains: seq<seq<Entry>>, table: map<Fd, Entry>) {
    && |chains| == CHAINS
    && (forall c | 0 <= c < CHAINS :: ChainOk(chains[c], c, table))
    && (forall fd | fd in table :: Holds(chains[Index(fd)], fd))
  }

  predicate ChainOk(chain: seq<Entry>, c: nat, table: map<Fd, Entry>) {
    && (forall i | 0 <= i < |chain| :: Placed(chain[i], c, table))
    && (forall i, j | 0 <= i < j < |chain| :: chain[i].fd != chain[j].fd)
  }

  predicate Placed(e: Entry, c: nat, table: map<Fd, Entry>) {
    Index(e.fd) == c && e.fd in table && table[e.fd] == e
  }

  predicate Holds(chain: seq<Entry>, fd: Fd) {
    exists i :: 0 <= i < |chain| && chain[i].fd == fd
  }

  /** Insertion at the head of a chain adds a key. */
  lemma Inserted(chains: seq<seq<Entry>>, table: map<Fd, Entry>, e: Entry)
    requires Represents(chains, table) && e.fd !in table
    ensures var c := Index(e.fd); Represents(chains[c := [e] + chains[c]], table[e.fd := e])
  {
    hide Index;
    var c := Index(e.fd);
    var chain, table' := [e] + chains[c], table[e.fd := e];
    var chains' := chains[c := chain];
    forall d | 0 <= d < CHAINS
      ensures ChainOk(chains'[d], d, table')
    {
      assert ChainOk(chains[d], d, table);
      forall i | 0 <= i < |chains'[d]|
        ensures Placed(chains'[d][i], d, table')
      {
        assert d == c && i > 0 ==> chains'[d][i] == chains[c][i - 1] && Placed(chains[c][i - 1], c, table);
        assert d != c ==> Placed(chains[d][i], d, table);
      }
    }
    forall fd | fd in table'
      ensures Holds(chains'[Index(fd)], fd)
    {
      if fd == e.fd {
        assert chain[0].fd == fd;
      } else {
        HoldsCons(e, chains[Index(fd)], fd);
      }
    }
  }

  lemma HoldsCons(e: Entry, chain: seq<Entry>, fd: Fd)
    requires Holds(chain, fd)
    ensures Holds([e] + chain, fd)
  {
    var i :| 0 <= i < |chain| && chain[i].fd == fd;
    assert ([e] + chain)[i + 1].fd == fd;
  }

  /** Unlinking an entry removes its key. */
  lemma Removed(chains: seq<seq<Entry>>, table: map<Fd, Entry>, fd: Fd, k: nat)
    requires Represents(chains, table) && k < |chains[Index(fd)]| && chains[Index(fd)][k].fd == fd
    ensures var c := Index(fd);
      fd in table && Represents(chains[c := chains[c][..k] + chains[c][k + 1..]], table - {fd})
  {
    hide Index;
    var c := Index(fd);
    var was, table' := chains[c], table - {fd};
    var chain := was[..k] + was[k + 1..];
    var chains' := chains[c := chain];
    assert ChainOk(was, c, table) && Placed(was[k], c, table);
    forall d | 0 <= d < CHAINS
      ensures ChainOk(chains'[d], d, table')
    {
      if d == c {
        ChainWithout(was, c, table, k);
      } else {
        ElsewhereOk(chains[d], d, table, fd);
      }
    }
    forall g | g in table'
      ensures Holds(chains'[Index(g)], g)
    {
      if Index(g) == c {
        HoldsWithout(was, k, g);
      }
    }
  }

  lemma ChainWithout(chain: seq<Entry>, c: nat, table: map<Fd, Entry>, k: nat)
    requires ChainOk(chain, c, table) && k < |chain|
    ensures ChainOk(chain[..k] + chain[k + 1..], c, table - {chain[k].fd})
  {
    hide Index;
    var rest := chain[..k] + chain[k + 1..];
    assert forall i | 0 <= i < |rest| :: rest[i] == if i < k then chain[i] else chain[i + 1];
    forall i | 0 <= i < |rest|
      ensures Placed(rest[i], c, table - {chain[k].fd})
    {
      assert Placed(if i < k then chain[i] else chain[i + 1], c, table);
    }
  }

  lemma ElsewhereOk(chain: seq<Entry>, d: nat, table: map<Fd, Entry>, fd: Fd)
    requires ChainOk(chain, d, table) && Index(fd) != d
    ensures ChainOk(chain, d, table - {fd})
  {
    hide Index;
    forall i | 0 <= i < |chain|
      ensures Placed(chain[i], d, table - {fd})
    {
      assert Placed(chain[i], d, table);
    }
  }

  lemma HoldsWithout(chain: seq<Entry>, k: nat, g: Fd)
    requires Holds(chain, g) && k < |chain| && chain[k].fd != g
    ensures Holds(chain[..k] + chain[k + 1..], g)
  {
    var i :| 0 <= i < |chain| && chain[i].fd == g;
    var rest := chain[..k] + chain[k + 1..];
    assert rest[if i < k then i else i - 1].fd == g;
  }

  /** Changing the entry of a key in place. */
  lemma Changed(chains: seq<seq<Entry>>, table: map<Fd, Entry>, k: nat, e: Entry)
    requires Represents(chains, table) && k < |chains[Index(e.fd)]| && chains[Index(e.fd)][k].fd == e.fd
    ensures var c := Index(e.fd); e.fd in table && Represents(chains[c := chains[c][k := e]], table[e.fd := e])
  {
    hide Index;
    var c := Index(e.fd);
    var was, table' := chains[c], table[e.fd := e];
    var chains' := chains[c := was[k := e]];
    assert ChainOk(was, c, table) && Placed(was[k], c, table);
    forall d | 0 <= d < CHAINS
      ensures ChainOk(chains'[d], d, table')
    {
      assert ChainOk(chains[d], d, table);
      forall i | 0 <= i < |chains'[d]|
        ensures Placed(chains'[d][i], d, table')
      {
        assert Placed(chains[d][i], d, table);
      }
    }
    forall fd | fd in table'
      ensures Holds(chains'[Index(fd)], fd)
    {
      var i :| 0 <= i < |chains[Index(fd)]| && chains[Index(fd)][i].fd == fd;
      assert chains'[Index(fd)][i].fd == fd;
    }
  }

  // ----- Listing the table -----

  function FdsOf(chain: seq<Entry>): (r: seq<Fd>)
    ensures |r| == |chain|
  {
    seq(|chain|, i requires 0 <= i < |chain| => chain[i].fd)
  }

  /** The descriptors of the first `n` chains, in order. */
  function Listed(chains: seq<seq<Entry>>, n: nat): seq<Fd>
    requires n <= |chains|
  {
    if n == 0 then [] else Listed(chains, n - 1) + FdsOf(chains[n - 1])
  }

  lemma {:induction false} ListedWhole(chains: seq<seq<Entry>>, n: nat, k: nat)
    requires k < n <= |chains|
    ensures |Listed(chains, k)| + |chains[k]| <= |Listed(chains, n)|
    decreases n
  {
    if k < n - 1 {
      ListedWhole(chains, n - 1, k);
    }
  }

  lemma ChainListed(chain: seq<Entry>, c: nat, table: map<Fd, Entry>)
    requires ChainOk(chain, c, table)
    ensures Distinct(FdsOf(chain))
    ensures forall i | 0 <= i < |chain| :: FdsOf(chain)[i] in table && Index(FdsOf(chain)[i]) == c
  {
    hide Index;
    assert forall i | 0 <= i < |chain| :: Placed(chain[i], c, table);
  }

  lemma {:induction false} ListedOnce(chains: seq<seq<Entry>>, table: map<Fd, Entry>, n: nat)
    requires Represents(chains, table) && n <= CHAINS
    ensures Distinct(Listed(chains, n))
    ensures forall i | 0 <= i < |Listed(chains, n)| :: Listed(chains, n)[i] in table && Index(Listed(chains, n)[i]) < n
  {
    hide Index;
    if n > 0 {
      ListedOnce(chains, table, n - 1);
      assert ChainOk(chains[n - 1], n - 1, table);
      ChainListed(chains[n - 1], n - 1, table);
      JoinDistinct(Listed(chains, n - 1), FdsOf(chains[n - 1]), n - 1);
    }
  }

  lemma JoinDistinct(a: seq<Fd>, b: seq<Fd>, n: nat)
    requires Distinct(a) && Distinct(b)
    requires (forall i | 0 <= i < |a| :: Index(a[i]) < n) && (forall i | 0 <= i < |b| :: Index(b[i]) == n)
    ensures Distinct(a + b)
  {
    hide Index;
    forall i, j | 0 <= i < j < |a + b|
      ensures (a + b)[i] != (a + b)[j]
    {
      assert i < |a| <= j ==> Index(a[i]) != Index(b[j - |a|]);
    }
  }

  lemma {:induction false} ListedAll(chains: seq<seq<Entry>>, fd: Fd, n: nat)
    requires n <= |chains| && Index(fd) < n && Holds(chains[Index(fd)], fd)
    ensures fd in Listed(chains, n)
  {
    hide Index;
    if Index(fd) == n - 1 {
      var chain := chains[n - 1];
      var i :| 0 <= i < |chain| && chain[i].fd == fd;
      assert FdsOf(chain)[i] == fd;
    } else {
      ListedAll(chains, fd, n - 1);
    }
  }

  lemma {:induction false} DistinctSize(s: seq<Fd>, keys: set<Fd>)
    requires Distinct(s) && (forall i | 0 <= i < |s| :: s[i] in keys) && (forall fd | fd in keys :: fd in s)
    ensures |s| == |keys|
  {
    if s == [] {
      assert keys == {};
    } else {
      var n := |s| - 1;
      var rest, fewer := s[..n], keys - {s[n]};
      forall fd | fd in fewer
        ensures fd in rest
      {
        var i :| 0 <= i < |s| && s[i] == fd;
        assert rest[i] == fd;
      }
      DistinctSize(rest, fewer);
      assert keys == fewer + {s[n]};
    }
  }

  /** The chains, read one after the other, list each registered descriptor exactly once. */
  lemma ListsTable(chains: seq<seq<Entry>>, table: map<Fd, Entry>)
    requires Represents(chains, table)
    ensures var all := Listed(chains, CHAINS);
      Distinct(all) && |all| == |table| && (forall fd :: fd in all <==> fd in table)
  {
    hide Index;
    var all := Listed(chains, CHAINS);
    ListedOnce(chains, table, CHAINS);
    forall fd | fd in table
      ensures fd in all
    {
      IndexBound(fd);
      ListedAll(chains, fd, CHAINS);
    }
    DistinctSize(all, table.Keys);
  }

  lemma IndexBound(fd: Fd)
    ensures Index(fd) < CHAINS
  {
  }

  // ----- The loop -----

  datatype Status = Ok | EINVAL | EEXIST | ENOENT | BackendError

  class Loop {
    var chains: seq<seq<Entry>>
    var pfdcount: nat
    ghost var table: map<Fd, Entry>

    ghost predicate Valid()
      reads this
    {
      Represents(chains, table) && pfdcount == |table|
    }

    constructor ()
      ensures Valid() && table == map[]
    {
      chains := seq(CHAINS, _ => []);
      pfdcount := 0;
      table := map[];
    }

    /** Look a descriptor up in its chain. */
    method Find(fd: Fd) returns (k: Option<nat>)
      requires Valid()
      ensures k.Some? <==> fd in table
      ensures k.Some? ==> k.value < |chains[Index(fd)]| && chains[Index(fd)][k.value] == table[fd]
    {
      hide Index;
      IndexBound(fd);
      var chain := chains[Index(fd)];
      assert ChainOk(chain, Index(fd), table);
      var i := 0;
      while i < |chain|
        invariant i <= |chain|
        invariant forall j | 0 <= j < i :: chain[j].fd != fd
      {
        if chain[i].fd == fd {
          assert Placed(chain[i], Index(fd), table);
          return Some(i);
        }
        i := i + 1;
      }
      assert !Holds(chain, fd);
      k := None;
    }

    method AddPfd(e: Entry)
      requires Valid() && e.fd !in table
      modifies this
      ensures Valid() && table == old(table)[e.fd := e]
    {
      hide Index, Represents;
      Inserted(chains, table, e);
      var c := Index(e.fd);
      IndexBound(e.fd);
      HasChains(chains, table);
      chains := chains[c := [e] + chains[c]];
      pfdcount := pfdcount + 1;
      table := table[e.fd := e];
    }

    /** Unlink the entry of a descriptor, found by walking its chain again. */
    method RemovePfd(fd: Fd)
      requires Valid() && fd in table
      modifies this
      ensures Valid() && table == old(table) - {fd}
    {
      hide Index, Represents;
      IndexBound(fd);
      HasChains(chains, table);
      var k := Find(fd);
      SameFd(chains, table, fd, k.value);
      Removed(chains, table, fd, k.value);
      Smaller(table, fd);
      var c := Index(fd);
      chains := chains[c := chains[c][..k.value] + chains[c][k.value + 1..]];
      pfdcount := pfdcount - 1;
      table := table - {fd};
    }

    method Add(fd: int, events: bv32, cb: Option<nat>, userdata: nat, backendOk: bool) returns (res: Status)
      requires Valid() && fd < 0x8000_0000
      modifies this
      ensures Valid()
      ensures res == if fd < 0 || events == 0 || cb.None? then EINVAL else if fd in old(table) then EEXIST
                     else if !backendOk then BackendError else Ok
      ensures table == if res == Ok then old(table)[fd := Entry(fd, events, cb.value, userdata)] else old(table)
    {
      hide Represents, Index;
      if fd < 0 || events == 0 || cb.None? {
        return EINVAL;
      }
      var k := Find(fd);
      if k.Some? {
        return EEXIST;
      }
      AddPfd(Entry(fd, events, cb.value, userdata));
      res := Ok;
      if !backendOk {
        RemovePfd(fd);
        assert table == old(table);
        res := BackendError;
      }
    }

    /** Set the events of a descriptor; they are set back if the backend refuses. */
    method SetEvents(fd: Fd, k: nat, events: bv32, backendOk: bool) returns (res: Status)
      requires Valid() && fd in table && k < |chains[Index(fd)]| && chains[Index(fd)][k] == table[fd]
      modifies this`chains, this`table
      ensures Valid() && res == if backendOk then Ok else BackendError
      ensures table == if backendOk then old(table)[fd := old(table)[fd].(events := events)] else old(table)
    {
      hide Represents, Index;
      IndexBound(fd);
      HasChains(chains, table);
      ghost var e := table[fd].(events := events);
      SameFd(chains, table, fd, k);
      Changed(chains, table, k, e);
      res := BackendError;
      if backendOk {
        var c := Index(fd);
        chains := chains[c := chains[c][k := chains[c][k].(events := events)]];
        table := table[fd := e];
        res := Ok;
      }
    }

    method Update(fd: int, events: bv32, backendOk: bool) returns (res: Status)
      requires Valid() && fd < 0x8000_0000
      modifies this`chains, this`table
      ensures Valid()
      ensures res == if fd < 0 then EINVAL else if fd !in old(table) then ENOENT
                     else if !backendOk then BackendError else Ok
      ensures table == if res == Ok then old(table)[fd := old(table)[fd].(events := events)] else old(table)
    {
      hide Represents, Index;
      if fd < 0 {
        return EINVAL;
      }
      var k := Find(fd);
      if k.None? {
        return ENOENT;
      }
      res := SetEvents(fd, k.value, events, backendOk);
    }

    /** Add and remove events. */
    method Update2(fd: int, toAdd: bv32, toRemove: bv32, backendOk: bool) returns (res: Status)
      requires Valid() && fd < 0x8000_0000
      modifies this`chains, this`table
      ensures Valid()
      ensures res == if fd < 0 then EINVAL else if fd !in old(table) then ENOENT
                     else if !backendOk then BackendError else Ok
      ensures res != Ok ==> table == old(table)
      ensures res == Ok ==>
        table == old(table)[fd := old(table)[fd].(events := (old(table)[fd].events | toAdd) & !toRemove)]
    {
      hide Represents, Index;
      if fd < 0 {
        return EINVAL;
      }
      var k := Find(fd);
      if k.None? {
        return ENOENT;
      }
      IndexBound(fd);
      HasChains(chains, table);
      var events := chains[Index(fd)][k.value].events;
      res := SetEvents(fd, k.value, (events | toAdd) & !toRemove, backendOk);
    }

    method Remove(fd: int) returns (res: Status)
      requires Valid() && fd < 0x8000_0000
      modifies this
      ensures Valid()
      ensures res == if fd < 0 then EINVAL else if fd !in old(table) then ENOENT else Ok
      ensures table == if res == Ok then old(table) - {fd} else old(table)
    {
      hide Represents, Index;
      if fd < 0 {
        return EINVAL;
      }
      var k := Find(fd);
      if k.None? {
        return ENOENT;
      }
      RemovePfd(fd);
      res := Ok;
    }
  }

  lemma HasChains(chains: seq<seq<Entry>>, table: map<Fd, Entry>)
    requires Represents(chains, table)
    ensures |chains| == CHAINS
  {
  }

  lemma SameFd(chains: seq<seq<Entry>>, table: map<Fd, Entry>, fd: Fd, k: nat)
    requires Represents(chains, table) && fd in table
    requires k < |chains[Index(fd)]| && chains[Index(fd)][k] == table[fd]
    ensures table[fd].fd == fd
  {
    hide Index;
    assert Holds(chains[Index(fd)], fd);
    IndexBound(fd);
    var c := Index(fd);
    var i :| 0 <= i < |chains[c]| && chains[c][i].fd == fd;
    assert ChainOk(chains[c], c, table) && Placed(chains[c][i], c, table);
  }

  lemma Smaller(table: map<Fd, Entry>, fd: Fd)
    requires fd in table
    ensures |table - {fd}| == |table| - 1
  {
    assert (table - {fd}).Keys == table.Keys - {fd};
  }
}
