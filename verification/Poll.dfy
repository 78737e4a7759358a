/** One turn of the poll loop of src/pomp_loop_posix.c: the array given to poll, and the calls made for the
    descriptors it reports, while callbacks change the table. */
module Poll {
  import opened Collections
  import opened Wrappers
  import opened FdTable

  /** Copy the descriptors of a chain from position `from` on, unless the array is too short. */
  method CopyChain(polled: array<Fd>, from: nat, chain: seq<Entry>) returns (to: nat, corrupt: bool)
    requires from <= polled.Length
    modifies polled
    ensures corrupt <==> from + |chain| > polled.Length
    ensures !corrupt ==> to == from + |chain| && polled[..to] == old(polled[..from]) + FdsOf(chain)
  {
    to, corrupt := from, false;
    for k := 0 to |chain|
      invariant !corrupt && to == from + k <= polled.Length
      invariant polled[..to] == old(polled[..from]) + FdsOf(chain)[..k]
    {
      if to >= polled.Length {
        return to, true;
      }
      polled[to] := chain[k].fd;
      assert polled[..to + 1] == polled[..to] + [FdsOf(chain)[k]];
      to := to + 1;
    }
    assert FdsOf(chain)[..|chain|] == FdsOf(chain);
  }

  lemma ListedStep(chains: seq<seq<Entry>>, c: nat, n: nat)
    requires c < n <= |chains|
    ensures Listed(chains, c + 1) == Listed(chains, c) + FdsOf(chains[c])
    ensures |Listed(chains, c + 1)| <= |Listed(chains, n)|
  {
    ListedWhole(chains, n, c);
  }

  lemma NothingListed(chains: seq<seq<Entry>>)
    ensures Listed(chains, 0) == []
  {
  }

  /** Fill the array: the wakeup pipe first, then chain after chain. The table and its count agree, so that
      the array is never too short. */
  method Fill(loop: Loop, wakeupFd: Fd) returns (polled: array<Fd>, corrupt: bool)
    requires loop.Valid()
    ensures fresh(polled) && !corrupt
    ensures polled[..] == [wakeupFd] + Listed(loop.chains, CHAINS)
    ensures polled.Length == |loop.table| + 1
  {
    hide Index, Represents, Listed;
    ListsTable(loop.chains, loop.table);
    HasChains(loop.chains, loop.table);
    NothingListed(loop.chains);
    polled := new Fd[loop.pfdcount + 1](_ => wakeupFd);
    corrupt := false;
    var i := 1;
    for c := 0 to CHAINS
      invariant !corrupt && i == 1 + |Listed(loop.chains, c)| <= polled.Length
      invariant polled[..i] == [wakeupFd] + Listed(loop.chains, c)
    {
      ListedStep(loop.chains, c, CHAINS);
      i, corrupt := CopyChain(polled, i, loop.chains[c]);
    }
    assert polled[..i] == polled[..];
  }

  lemma ConsDistinct(w: Fd, all: seq<Fd>)
    requires Distinct(all) && w !in all
    ensures Distinct([w] + all) && (forall fd :: fd in [w] + all <==> fd == w || fd in all)
  {
    var s := [w] + all;
    forall i, j | 0 <= i < j < |s|
      ensures s[i] != s[j]
    {
      assert s[j] == all[j - 1] && all[j - 1] in all;
      assert i > 0 ==> s[i] == all[i - 1];
    }
  }

  /** The array lists the wakeup pipe, and each registered descriptor exactly once. */
  lemma FillListsOnce(chains: seq<seq<Entry>>, table: map<Fd, Entry>, wakeupFd: Fd)
    requires Represents(chains, table) && wakeupFd !in table
    ensures var polled := [wakeupFd] + Listed(chains, CHAINS);
      Distinct(polled) && (forall fd :: fd in polled <==> fd == wakeupFd || fd in table)
  {
    ListsTable(chains, table);
    hide *;
    ConsDistinct(wakeupFd, Listed(chains, CHAINS));
  }

  /** What a callback does to the table. */
  datatype TableOp = AddOp(fd: Fd, events: bv32, cb: nat, userdata: nat) | UpdateOp(fd: Fd, events: bv32)
                   | RemoveOp(fd: Fd)

  /** On the map the table stands for. */
  function Applied(table: map<Fd, Entry>, op: TableOp): map<Fd, Entry> {
    match op
    case AddOp(fd, events, cb, userdata) =>
      if fd in table || events == 0 then table else table[fd := Entry(fd, events, cb, userdata)]
    case UpdateOp(fd, events) => if fd in table then table[fd := table[fd].(events := events)] else table
    case RemoveOp(fd) => table - {fd}
  }

  function AppliedAll(table: map<Fd, Entry>, ops: seq<TableOp>): map<Fd, Entry> {
    if ops == [] then table else Applied(AppliedAll(table, ops[..|ops| - 1]), ops[|ops| - 1])
  }

  method Apply(loop: Loop, ops: seq<TableOp>)
    requires loop.Valid()
    modifies loop
    ensures loop.Valid() && loop.table == AppliedAll(old(loop.table), ops)
  {
    hide Represents, Index;
    for i := 0 to |ops|
      invariant loop.Valid() && loop.table == AppliedAll(old(loop.table), ops[..i])
    {
      assert ops[..i + 1][..i] == ops[..i];
      match ops[i] {
        case AddOp(fd, events, cb, userdata) => var _ := loop.Add(fd, events, Some(cb), userdata, true);
        case UpdateOp(fd, events) => var _ := loop.Update(fd, events, true);
        case RemoveOp(fd) => var _ := loop.Remove(fd);
      }
    }
    assert ops[..|ops|] == ops;
  }

  /** A call that was made: the position in the array, and the entry called. */
  datatype Call = Call(at: nat, entry: Entry)

  /** What poll reported. */
  datatype Report = Report(polled: seq<Fd>, ready: seq<bool>, wakeupFd: Fd)

  /** The calls so far and the table as the callbacks left it. */
  datatype Progress = Progress(calls: seq<Call>, table: map<Fd, Entry>)

  /** What position `i` leads to: a call if the descriptor there is reported and registered at that time. The
      callback of the k-th call then does `effects[k]`. */
  function Visit(p: Progress, rep: Report, effects: seq<seq<TableOp>>, i: nat): Progress
    requires i < |rep.polled| && |rep.ready| == |rep.polled|
  {
    var fd := rep.polled[i];
    if !rep.ready[i] || fd == rep.wakeupFd || fd !in p.table then p
    else
      var k := |p.calls|;
      Progress(p.calls + [Call(i, p.table[fd])], if k < |effects| then AppliedAll(p.table, effects[k]) else p.table)
  }

  function Dispatched(table: map<Fd, Entry>, rep: Report, effects: seq<seq<TableOp>>, n: nat): Progress
    requires n <= |rep.polled| == |rep.ready|
  {
    if n == 0 then Progress([], table) else Visit(Dispatched(table, rep, effects, n - 1), rep, effects, n - 1)
  }

  /** Call the callbacks of the descriptors reported, looking each up again since callbacks change the table. */
  method Dispatch(loop: Loop, rep: Report, effects: seq<seq<TableOp>>) returns (calls: seq<Call>)
    requires loop.Valid() && |rep.ready| == |rep.polled|
    modifies loop
    ensures loop.Valid()
    ensures Progress(calls, loop.table) == Dispatched(old(loop.table), rep, effects, |rep.polled|)
  {
    hide Represents, Index, AppliedAll;
    calls := [];
    for i := 0 to |rep.polled|
      invariant loop.Valid() && Progress(calls, loop.table) == Dispatched(old(loop.table), rep, effects, i)
    {
      if rep.ready[i] && rep.polled[i] != rep.wakeupFd {
        var entry := Registered(loop, rep.polled[i]);
        if entry.Some? {
          if |calls| < |effects| {
            Apply(loop, effects[|calls|]);
          }
          calls := calls + [Call(i, entry.value)];
        }
      }
    }
  }

  /** Every entry is stored under its own descriptor. */
  predicate KeysMatch(table: map<Fd, Entry>) {
    forall fd | fd in table :: table[fd].fd == fd
  }

  lemma {:induction false} AppliedKeysMatch(table: map<Fd, Entry>, ops: seq<TableOp>)
    requires KeysMatch(table)
    ensures KeysMatch(AppliedAll(table, ops))
  {
    if ops != [] {
      AppliedKeysMatch(table, ops[..|ops| - 1]);
    }
  }

  lemma {:induction false} DispatchedKeysMatch(table: map<Fd, Entry>, rep: Report, effects: seq<seq<TableOp>>, n: nat)
    requires n <= |rep.polled| == |rep.ready| && KeysMatch(table)
    ensures KeysMatch(Dispatched(table, rep, effects, n).table)
  {
    hide AppliedAll;
    if n > 0 {
      DispatchedKeysMatch(table, rep, effects, n - 1);
      var p := Dispatched(table, rep, effects, n - 1);
      if |p.calls| < |effects| {
        AppliedKeysMatch(p.table, effects[|p.calls|]);
      }
    }
  }

  /** Each call is for a descriptor that was reported, with the entry registered when the call was made, and no
      position is called twice; whatever the callbacks before it did. */
  lemma {:induction false} CallsAreRightful(table: map<Fd, Entry>, rep: Report, effects: seq<seq<TableOp>>,
                                            n: nat, k: nat)
    requires n <= |rep.polled| == |rep.ready| && KeysMatch(table)
    requires k < |Dispatched(table, rep, effects, n).calls|
    ensures var calls := Dispatched(table, rep, effects, n).calls;
      var at := calls[k].at;
      && at < n && rep.ready[at] && rep.polled[at] != rep.wakeupFd && calls[k].entry.fd == rep.polled[at]
      && Dispatched(table, rep, effects, at).calls == calls[..k]
      && rep.polled[at] in Dispatched(table, rep, effects, at).table
      && Dispatched(table, rep, effects, at).table[rep.polled[at]] == calls[k].entry
  {
    hide AppliedAll;
    var before, calls := Dispatched(table, rep, effects, n - 1).calls, Dispatched(table, rep, effects, n).calls;
    DispatchedKeysMatch(table, rep, effects, n - 1);
    if k < |before| {
      CallsAreRightful(table, rep, effects, n - 1, k);
      assert calls[..k] == before[..k];
    } else {
      assert calls[..k] == before;
    }
  }

  method Registered(loop: Loop, fd: Fd) returns (entry: Option<Entry>)
    requires loop.Valid()
    ensures entry == if fd in loop.table then Some(loop.table[fd]) else None
    ensures entry.Some? ==> entry.value.fd == fd
  {
    hide Represents, Index;
    var k := loop.Find(fd);
    entry := None;
    if k.Some? {
      IndexBound(fd);
      HasChains(loop.chains, loop.table);
      SameFd(loop.chains, loop.table, fd, k.value);
      entry := Some(loop.chains[Index(fd)][k.value]);
    }
  }

  /** And none is missed: a position reported is called when its turn comes if and only if its descriptor is then
      registered, with its entry of that time; its callback then does what it does to the table. */
  lemma {:induction false} ReportedIsCalled(table: map<Fd, Entry>, rep: Report, effects: seq<seq<TableOp>>,
                                            n: nat, i: nat)
    requires i < n <= |rep.polled| == |rep.ready|
    ensures
      var fd, p, all := rep.polled[i], Dispatched(table, rep, effects, i), Dispatched(table, rep, effects, n);
      var called := rep.ready[i] && fd != rep.wakeupFd && fd in p.table;
      && |p.calls| <= |all.calls|
      && (called ==> |p.calls| < |all.calls| && all.calls[|p.calls|] == Call(i, p.table[fd]))
      && (!called ==> forall k | 0 <= k < |all.calls| :: all.calls[k].at != i)
    decreases n
  {
    hide AppliedAll;
    if i < n - 1 {
      ReportedIsCalled(table, rep, effects, n - 1, i);
    } else {
      CallsBefore(table, rep, effects, i);
    }
  }

  lemma {:induction false} CallsBefore(table: map<Fd, Entry>, rep: Report, effects: seq<seq<TableOp>>, n: nat)
    requires n <= |rep.polled| == |rep.ready|
    ensures forall k | 0 <= k < |Dispatched(table, rep, effects, n).calls| ::
      Dispatched(table, rep, effects, n).calls[k].at < n
  {
    hide AppliedAll;
    if n > 0 {
      CallsBefore(table, rep, effects, n - 1);
    }
  }

  /** The table changes only by what the callbacks called so far did, one after the other. */
  lemma TableChanges(table: map<Fd, Entry>, rep: Report, effects: seq<seq<TableOp>>, i: nat)
    requires i < |rep.polled| == |rep.ready|
    ensures
      var p, q := Dispatched(table, rep, effects, i), Dispatched(table, rep, effects, i + 1);
      q.table ==
        if |q.calls| == |p.calls| || |p.calls| >= |effects| then p.table else AppliedAll(p.table, effects[|p.calls|])
  {
    hide AppliedAll;
  }

  /** The operation concerns that descriptor. */
  predicate Concerns(op: TableOp, fd: Fd) {
    op.fd == fd
  }

  predicate Untouched(effects: seq<seq<TableOp>>, fd: Fd) {
    forall k, j | 0 <= k < |effects| && 0 <= j < |effects[k]| :: !Concerns(effects[k][j], fd)
  }

  lemma {:induction false} AppliedElsewhere(table: map<Fd, Entry>, ops: seq<TableOp>, fd: Fd)
    requires forall j | 0 <= j < |ops| :: !Concerns(ops[j], fd)
    ensures fd in AppliedAll(table, ops) <==> fd in table
    ensures fd in table ==> AppliedAll(table, ops)[fd] == table[fd]
  {
    if ops != [] {
      AppliedElsewhere(table, ops[..|ops| - 1], fd);
      assert !Concerns(ops[|ops| - 1], fd);
    }
  }

  lemma {:induction false} StaysRegistered(table: map<Fd, Entry>, rep: Report, effects: seq<seq<TableOp>>,
                                           n: nat, fd: Fd)
    requires n <= |rep.polled| == |rep.ready| && Untouched(effects, fd)
    ensures
      var t := Dispatched(table, rep, effects, n).table;
      (fd in t <==> fd in table) && (fd in table ==> t[fd] == table[fd])
  {
    hide AppliedAll;
    if n > 0 {
      StaysRegistered(table, rep, effects, n - 1, fd);
      var p := Dispatched(table, rep, effects, n - 1);
      if |p.calls| < |effects| {
        AppliedElsewhere(p.table, effects[|p.calls|], fd);
      }
    }
  }

  /** A turn of the loop: a registered descriptor that is reported, and that no callback of the turn touches, is called
      exactly once, with its entry. */
  lemma LeftAloneIsCalledOnce(table: map<Fd, Entry>, rep: Report, effects: seq<seq<TableOp>>, i: nat)
    requires |rep.polled| == |rep.ready| && i < |rep.polled| && Distinct(rep.polled) && rep.ready[i]
    requires rep.polled[i] in table && rep.polled[i] != rep.wakeupFd && Untouched(effects, rep.polled[i])
    requires KeysMatch(table)
    ensures
      var calls := Dispatched(table, rep, effects, |rep.polled|).calls;
      && (exists k :: 0 <= k < |calls| && calls[k] == Call(i, table[rep.polled[i]]))
      && (forall k | 0 <= k < |calls| && calls[k].entry.fd == rep.polled[i] :: calls[k].at == i)
      && Ascending(calls)
  {
    hide AppliedAll, Untouched, Ascending;
    var n := |rep.polled|;
    var calls := Dispatched(table, rep, effects, n).calls;
    StaysRegistered(table, rep, effects, i, rep.polled[i]);
    ReportedIsCalled(table, rep, effects, n, i);
    forall k | 0 <= k < |calls| && calls[k].entry.fd == rep.polled[i]
      ensures calls[k].at == i
    {
      CallsAreRightful(table, rep, effects, n, k);
    }
    CallsAscend(table, rep, effects, n);
  }

  predicate Ascending(calls: seq<Call>) {
    forall k, l | 0 <= k < l < |calls| :: calls[k].at < calls[l].at
  }

  lemma AscendingMore(calls: seq<Call>, call: Call)
    requires Ascending(calls) && (forall k | 0 <= k < |calls| :: calls[k].at < call.at)
    ensures Ascending(calls + [call])
  {
  }

  lemma {:induction false} CallsAscend(table: map<Fd, Entry>, rep: Report, effects: seq<seq<TableOp>>, n: nat)
    requires n <= |rep.polled| == |rep.ready|
    ensures Ascending(Dispatched(table, rep, effects, n).calls)
  {
    hide AppliedAll, Ascending;
    if n == 0 {
      assert Ascending([]) by { AscendingNone(); }
    } else {
      CallsAscend(table, rep, effects, n - 1);
      CallsBefore(table, rep, effects, n - 1);
      var p, q := Dispatched(table, rep, effects, n - 1), Dispatched(table, rep, effects, n);
      if |q.calls| > |p.calls| {
        AscendingMore(p.calls, q.calls[|p.calls|]);
      }
    }
  }

  lemma AscendingNone()
    ensures Ascending([])
  {
  }
}
