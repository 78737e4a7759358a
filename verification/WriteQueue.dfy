/** The sending half of a stream connection of src/pomp_conn.c: the queue of partly written buffers, and
    the completion callbacks deferred through the idle queue of the loop. */
module WriteQueue {
  import opened Bytes

  /** `stored` tells whether the buffer has storage, be it unused. */
  datatype RawBuffer = RawBuffer(data: seq<byte>, fds: seq<int>, stored: bool)

  /** A descriptor occupies four bytes of the buffer that carries it. */
  type Buffer = b: RawBuffer | (b.fds == [] || |b.data| >= 4) && (b.data == [] || b.stored)
    witness RawBuffer([], [], false)

  datatype IoBuffer = IoBuffer(buf: Buffer, off: nat)

  /** What the system call reports: some bytes taken, or would block, or any other error. */
  datatype WriteResult = Wrote(n: nat) | WouldBlock | Failed

  datatype Outcome = Sent | Aborted
  datatype Notification = Notification(buf: Buffer, outcome: Outcome, queueEmpty: bool)

  /** A deferred callback; `id` stands for its address. */
  datatype IdleCb = IdleCb(id: nat, note: Notification)

  /** An entry of the idle queue of the loop: one of ours, or somebody else's. */
  datatype IdleItem = Ours(id: nat) | Other(key: nat)

  /** Descriptors attached to the byte at that position of the stream. */
  datatype Ancillary = Ancillary(at: nat, fds: seq<int>)

  datatype SendStatus = Accepted | EINVAL | ENOTCONN | EPERM | EIO

  // ----- What the history should look like -----

  function Content(bufs: seq<Buffer>): seq<byte> {
    if bufs == [] then [] else Content(bufs[..|bufs| - 1]) + bufs[|bufs| - 1].data
  }

  function Unwritten(queue: seq<IoBuffer>): seq<byte>
    requires forall i | 0 <= i < |queue| :: queue[i].off <= |queue[i].buf.data|
  {
    if queue == [] then []
    else queue[0].buf.data[queue[0].off..] + Unwritten(queue[1..])
  }

  /** The descriptors of the first `n` buffers, each at the first byte of its own buffer. */
  function Descriptors(bufs: seq<Buffer>, n: nat): seq<Ancillary>
    requires n <= |bufs|
  {
    if n == 0 then []
    else if bufs[n - 1].fds == [] then Descriptors(bufs, n - 1)
    else Descriptors(bufs, n - 1) + [Ancillary(|Content(bufs[..n - 1])|, bufs[n - 1].fds)]
  }

  /** Notifications due for the buffers written so far. `acceptedBy[i]` is how many buffers had been
      accepted when buffer `i` was completed: the queue was empty then iff `i` was the last of them. */
  function Due(bufs: seq<Buffer>, acceptedBy: seq<nat>): (r: seq<Notification>)
    requires |acceptedBy| <= |bufs|
    ensures |r| == |acceptedBy|
  {
    seq(|acceptedBy|, i requires 0 <= i < |acceptedBy| => Notification(bufs[i], Sent, acceptedBy[i] == i + 1))
  }

  /** Notifications due for the buffers still queued when the connection closes. */
  function DueAborted(bufs: seq<Buffer>, from: nat): (r: seq<Notification>)
    requires from <= |bufs|
    ensures |r| == |bufs| - from
  {
    seq(|bufs| - from, i requires 0 <= i < |bufs| - from =>
      Notification(bufs[from + i], Aborted, from + i == |bufs| - 1))
  }

  function Notes(cbs: seq<IdleCb>): (r: seq<Notification>)
    ensures |r| == |cbs|
  {
    seq(|cbs|, i requires 0 <= i < |cbs| => cbs[i].note)
  }

  function Ids(cbs: seq<IdleCb>): (r: seq<nat>)
    ensures |r| == |cbs|
  {
    seq(|cbs|, i requires 0 <= i < |cbs| => cbs[i].id)
  }

  /** Our entries of the loop's idle queue, in order. */
  function OurIds(idle: seq<IdleItem>): seq<nat> {
    if idle == [] then []
    else if idle[0].Ours? then [idle[0].id] + OurIds(idle[1..])
    else OurIds(idle[1..])
  }

  /** Removal of one of our callbacks from the loop's idle queue. */
  function WithoutId(idle: seq<IdleItem>, id: nat): seq<IdleItem> {
    if idle == [] then []
    else if idle[0] == Ours(id) then WithoutId(idle[1..], id)
    else [idle[0]] + WithoutId(idle[1..], id)
  }

  predicate Ascending(s: seq<nat>) {
    forall i, j | 0 <= i < j < |s| :: s[i] < s[j]
  }

  /** Descriptors go out with the first byte of their buffer. */
  function Attach(ancillary: seq<Ancillary>, at: nat, io: IoBuffer): seq<Ancillary> {
    if io.off == 0 && io.buf.fds != [] then ancillary + [Ancillary(at, io.buf.fds)] else ancillary
  }

  // ----- The stream invariant -----

  /** The queue is the tail of the accepted buffers, and only its head may be partly written. */
  predicate Aligned(accepted: seq<Buffer>, done: nat, queue: seq<IoBuffer>) {
    && done + |queue| == |accepted|
    && (forall i | 0 <= i < |queue| ::
          && queue[i].buf == accepted[done + i]
          && queue[i].off <= |queue[i].buf.data|
          && (i > 0 ==> queue[i].off == 0))
  }

  /** Number of buffers whose first byte has gone out. */
  function Started(done: nat, queue: seq<IoBuffer>): nat {
    if queue != [] && queue[0].off > 0 then done + 1 else done
  }

  /** Bytes written, then bytes waiting, are the accepted buffers in send order; descriptors went out once,
      each group with the first byte of its buffer. */
  predicate Flows(accepted: seq<Buffer>, done: nat, queue: seq<IoBuffer>,
                  wire: seq<byte>, ancillary: seq<Ancillary>)
  {
    && Aligned(accepted, done, queue)
    && wire + Unwritten(queue) == Content(accepted)
    && ancillary == Descriptors(accepted, Started(done, queue))
  }

  /** Nothing in the queue is written whole. */
  predicate Unfinished(queue: seq<IoBuffer>) {
    forall i | 0 <= i < |queue| :: queue[i].off < |queue[i].buf.data| || queue[i].buf.data == []
  }

  predicate StreamOk(accepted: seq<Buffer>, done: nat, queue: seq<IoBuffer>,
                     wire: seq<byte>, ancillary: seq<Ancillary>)
  {
    Flows(accepted, done, queue, wire, ancillary) && Unfinished(queue)
  }

  lemma {:induction false} DescriptorsAppend(accepted: seq<Buffer>, buf: Buffer, n: nat)
    requires n <= |accepted|
    ensures Descriptors(accepted + [buf], n) == Descriptors(accepted, n)
  {
    if n > 0 {
      DescriptorsAppend(accepted, buf, n - 1);
      assert (accepted + [buf])[..n - 1] == accepted[..n - 1];
    }
  }

  lemma AcceptContent(accepted: seq<Buffer>, queue: seq<IoBuffer>, wire: seq<byte>, buf: Buffer)
    requires forall i | 0 <= i < |queue| :: queue[i].off <= |queue[i].buf.data|
    requires wire + Unwritten(queue) == Content(accepted)
    ensures wire + Unwritten(queue + [IoBuffer(buf, 0)]) == Content(accepted + [buf])
  {
    hide Unwritten, Content;
    UnwrittenAppend(queue, IoBuffer(buf, 0));
    ContentAppend(accepted, buf);
    assert buf.data[0..] == buf.data;
    Associate(wire, Unwritten(queue), buf.data);
  }

  lemma Associate<T>(a: seq<T>, b: seq<T>, c: seq<T>)
    ensures a + (b + c) == a + b + c
  {
  }

  lemma ContentAppend(accepted: seq<Buffer>, buf: Buffer)
    ensures Content(accepted + [buf]) == Content(accepted) + buf.data
  {
    assert (accepted + [buf])[..|accepted|] == accepted;
  }

  lemma AcceptAligned(accepted: seq<Buffer>, done: nat, queue: seq<IoBuffer>, buf: Buffer)
    requires Aligned(accepted, done, queue)
    ensures Aligned(accepted + [buf], done, queue + [IoBuffer(buf, 0)])
    ensures Started(done, queue + [IoBuffer(buf, 0)]) == Started(done, queue) <= |accepted|
  {
  }

  lemma AcceptStream(accepted: seq<Buffer>, done: nat, queue: seq<IoBuffer>,
                     wire: seq<byte>, ancillary: seq<Ancillary>, buf: Buffer)
    requires StreamOk(accepted, done, queue, wire, ancillary)
    ensures StreamOk(accepted + [buf], done, queue + [IoBuffer(buf, 0)], wire, ancillary)
  {
    hide Unwritten, Content, Descriptors, Started;
    AcceptAligned(accepted, done, queue, buf);
    AcceptContent(accepted, queue, wire, buf);
    DescriptorsAppend(accepted, buf, Started(done, queue));
  }

  /** With nothing of the head written, the stream stands at the end of the completed buffers. */
  lemma {:induction false} AtBoundary(accepted: seq<Buffer>, done: nat, queue: seq<IoBuffer>)
    requires Aligned(accepted, done, queue) && (queue != [] ==> queue[0].off == 0)
    ensures Content(accepted) == Content(accepted[..done]) + Unwritten(queue)
    decreases |queue|
  {
    if queue == [] {
      assert accepted[..done] == accepted;
    } else {
      hide Content, Unwritten;
      var b := queue[0].buf;
      AtBoundary(accepted, done + 1, queue[1..]);
      ContentNext(accepted, done);
      UnwrittenHead(queue);
      assert b.data[0..] == b.data;
    }
  }

  lemma Regroup<T>(w: seq<T>, a: seq<T>, b: seq<T>, r: seq<T>)
    ensures w + a + (b + r) == w + (a + b + r)
  {
  }

  lemma WriteConserves(wire: seq<byte>, queue: seq<IoBuffer>, n: nat)
    requires queue != [] && (forall i | 0 <= i < |queue| :: queue[i].off <= |queue[i].buf.data|)
    requires queue[0].off + n <= |queue[0].buf.data|
    ensures var io := queue[0]; var io' := io.(off := io.off + n);
      wire + io.buf.data[io.off..io'.off] + Unwritten([io'] + queue[1..]) == wire + Unwritten(queue)
  {
    hide Unwritten;
    var io := queue[0];
    var io' := io.(off := io.off + n);
    UnwrittenHead(queue);
    UnwrittenHead([io'] + queue[1..]);
    assert ([io'] + queue[1..])[1..] == queue[1..];
    assert io.buf.data[io.off..] == io.buf.data[io.off..io'.off] + io.buf.data[io'.off..];
    Regroup(wire, io.buf.data[io.off..io'.off], io.buf.data[io'.off..], Unwritten(queue[1..]));
  }

  lemma UnwrittenHead(queue: seq<IoBuffer>)
    requires queue != [] && (forall i | 0 <= i < |queue| :: queue[i].off <= |queue[i].buf.data|)
    ensures Unwritten(queue) == queue[0].buf.data[queue[0].off..] + Unwritten(queue[1..])
  {
  }

  /** The first byte of a buffer takes its descriptors along, at the right place. */
  lemma WriteAttaches(accepted: seq<Buffer>, done: nat, queue: seq<IoBuffer>,
                      wire: seq<byte>, ancillary: seq<Ancillary>, off: nat)
    requires Flows(accepted, done, queue, wire, ancillary) && queue != []
    requires off > 0 || queue[0].buf.data == []
    ensures Attach(ancillary, |wire|, queue[0])
         == Descriptors(accepted, Started(done, [queue[0].(off := off)] + queue[1..]))
  {
    if queue[0].off == 0 {
      AtBoundary(accepted, done, queue);
      assert |wire| == |Content(accepted[..done])|;
    }
  }

  lemma WriteFlows(accepted: seq<Buffer>, done: nat, queue: seq<IoBuffer>,
                   wire: seq<byte>, ancillary: seq<Ancillary>, n: nat)
    requires Flows(accepted, done, queue, wire, ancillary) && queue != []
    requires queue[0].off + n <= |queue[0].buf.data| && (n > 0 || queue[0].off > 0 || queue[0].buf.data == [])
    ensures var io := queue[0]; var io' := io.(off := io.off + n);
      Flows(accepted, done, [io'] + queue[1..], wire + io.buf.data[io.off..io'.off],
            Attach(ancillary, |wire|, io))
  {
    hide Content, Descriptors, Unwritten, Attach;
    WriteAttaches(accepted, done, queue, wire, ancillary, queue[0].off + n);
    WriteConserves(wire, queue, n);
  }

  lemma CompleteFlows(accepted: seq<Buffer>, done: nat, queue: seq<IoBuffer>,
                      wire: seq<byte>, ancillary: seq<Ancillary>)
    requires Flows(accepted, done, queue, wire, ancillary) && queue != []
    requires queue[0].off == |queue[0].buf.data|
    ensures Flows(accepted, done + 1, queue[1..], wire, ancillary)
  {
    assert queue[0].buf.data[queue[0].off..] == [];
    assert Unwritten(queue) == Unwritten(queue[1..]);
  }

  /** A write and, if it finished the head, its removal from the queue. */
  lemma TurnStream(accepted: seq<Buffer>, done: nat, queue: seq<IoBuffer>,
                   wire: seq<byte>, ancillary: seq<Ancillary>, n: nat)
    requires StreamOk(accepted, done, queue, wire, ancillary) && queue != []
    requires queue[0].off + n <= |queue[0].buf.data| && (n > 0 || queue[0].off > 0 || queue[0].buf.data == [])
    ensures var io := queue[0]; var io' := io.(off := io.off + n);
      var wire' := wire + io.buf.data[io.off..io'.off];
      var ancillary' := Attach(ancillary, |wire|, io);
      && (io'.off < |io.buf.data| ==> StreamOk(accepted, done, [io'] + queue[1..], wire', ancillary'))
      && (io'.off == |io.buf.data| ==> StreamOk(accepted, done + 1, queue[1..], wire', ancillary'))
  {
    var io := queue[0];
    var io' := io.(off := io.off + n);
    WriteFlows(accepted, done, queue, wire, ancillary, n);
    if io'.off == |io.buf.data| {
      var queue' := [io'] + queue[1..];
      assert queue'[1..] == queue[1..];
      CompleteFlows(accepted, done, queue', wire + io.buf.data[io.off..io'.off], Attach(ancillary, |wire|, io));
    }
  }

  /** The wire holds the completed buffers whole, then the written part of the head. */
  lemma WireIs(accepted: seq<Buffer>, done: nat, queue: seq<IoBuffer>,
               wire: seq<byte>, ancillary: seq<Ancillary>)
    requires Flows(accepted, done, queue, wire, ancillary)
    ensures wire == Content(accepted[..done]) + if queue == [] then [] else queue[0].buf.data[..queue[0].off]
  {
    if queue == [] {
      assert accepted[..done] == accepted;
    } else {
      var io := queue[0];
      var whole := [io.(off := 0)] + queue[1..];
      AtBoundary(accepted, done, whole);
      assert whole[1..] == queue[1..] && io.buf.data[0..] == io.buf.data;
      var rest := Unwritten(queue[1..]);
      SameSuffix(wire, Content(accepted[..done]), io.buf.data, io.off, rest);
    }
  }

  lemma SameSuffix<T>(w: seq<T>, c: seq<T>, d: seq<T>, off: nat, r: seq<T>)
    requires off <= |d| && w + (d[off..] + r) == c + (d + r)
    ensures w == c + d[..off]
  {
    assert c + (d + r) == (c + d[..off]) + (d[off..] + r);
    assert (w + (d[off..] + r))[..|w|] == w;
    assert ((c + d[..off]) + (d[off..] + r))[..|w|] == c + d[..off];
  }

  /** Whenever the queue is empty, everything accepted has reached the socket. */
  lemma DrainedMeansSent(accepted: seq<Buffer>, done: nat, wire: seq<byte>, ancillary: seq<Ancillary>)
    requires StreamOk(accepted, done, [], wire, ancillary)
    ensures wire == Content(accepted) && ancillary == Descriptors(accepted, |accepted|)
  {
    assert wire + [] == wire;
  }

  // ----- What the operations do to the queue -----

  /** The queue after its head lost `n` more bytes. */
  function AfterWrite(queue: seq<IoBuffer>, n: nat): seq<IoBuffer>
    requires queue != []
  {
    var io := queue[0].(off := queue[0].off + n);
    if io.off == |io.buf.data| then queue[1..] else [io] + queue[1..]
  }

  /** The entries of other users in the idle queue. */
  function Others(idle: seq<IdleItem>): seq<nat> {
    if idle == [] then []
    else if idle[0].Other? then [idle[0].key] + Others(idle[1..])
    else Others(idle[1..])
  }

  lemma {:induction false} WithoutKeepsOthers(idle: seq<IdleItem>, id: nat)
    ensures Others(WithoutId(idle, id)) == Others(idle)
  {
    if idle != [] {
      WithoutKeepsOthers(idle[1..], id);
      assert ([idle[0]] + WithoutId(idle[1..], id))[1..] == WithoutId(idle[1..], id);
    }
  }

  // ----- The notification invariants -----

  /** The counts recorded at completion are possible: each send was accepted by then, and counts grow. */
  predicate Recorded(acceptedBy: seq<nat>, total: nat) {
    && (forall i | 0 <= i < |acceptedBy| :: i + 1 <= acceptedBy[i] <= total)
    && (forall i, j | 0 <= i < j < |acceptedBy| :: acceptedBy[i] <= acceptedBy[j])
  }

  /** What the user was told, then what waits to be told, is what is due. */
  predicate NotesOk(hasSendCb: bool, accepted: seq<Buffer>, acceptedBy: seq<nat>,
                    notified: seq<Notification>, waiting: seq<Notification>)
  {
    && |acceptedBy| <= |accepted| && Recorded(acceptedBy, |accepted|)
    && if hasSendCb then notified + waiting == Due(accepted, acceptedBy) else notified == [] && waiting == []
  }

  /** Our callbacks appear in the loop's idle queue in the order of our own list. */
  predicate IdleOk(loopIdle: seq<IdleItem>, idlecbs: seq<IdleCb>, nextId: nat) {
    && OurIds(loopIdle) == Ids(idlecbs)
    && Ascending(Ids(idlecbs))
    && (forall i | 0 <= i < |idlecbs| :: idlecbs[i].id < nextId)
  }

  // ----- Lemmas -----

  lemma DueStep(bufs: seq<Buffer>, acceptedBy: seq<nat>, n: nat)
    requires |acceptedBy| < |bufs|
    ensures var k := |acceptedBy|;
      Due(bufs, acceptedBy + [n]) == Due(bufs, acceptedBy) + [Notification(bufs[k], Sent, n == k + 1)]
  {
  }

  /** Completing a send adds its notification behind the ones already waiting. */
  lemma NotesComplete(hasSendCb: bool, accepted: seq<Buffer>, acceptedBy: seq<nat>,
                      notified: seq<Notification>, waiting: seq<Notification>)
    requires |acceptedBy| < |accepted| && NotesOk(hasSendCb, accepted, acceptedBy, notified, waiting)
    ensures var k := |acceptedBy|;
      var note := Notification(accepted[k], Sent, |accepted| == k + 1);
      NotesOk(hasSendCb, accepted, acceptedBy + [|accepted|], notified, if hasSendCb then waiting + [note] else waiting)
  {
    DueStep(accepted, acceptedBy, |accepted|);
  }

  /** Accepting a send changes nothing to what is due. */
  lemma NotesAccept(hasSendCb: bool, accepted: seq<Buffer>, acceptedBy: seq<nat>,
                    notified: seq<Notification>, waiting: seq<Notification>, buf: Buffer)
    requires NotesOk(hasSendCb, accepted, acceptedBy, notified, waiting)
    ensures NotesOk(hasSendCb, accepted + [buf], acceptedBy, notified, waiting)
  {
    assert Due(accepted + [buf], acceptedBy) == Due(accepted, acceptedBy);
  }

  /** Telling the user about the oldest ones. */
  lemma NotesTell(hasSendCb: bool, accepted: seq<Buffer>, acceptedBy: seq<nat>,
                  notified: seq<Notification>, waiting: seq<Notification>, k: nat)
    requires NotesOk(hasSendCb, accepted, acceptedBy, notified, waiting) && k <= |waiting|
    ensures NotesOk(hasSendCb, accepted, acceptedBy, notified + waiting[..k], waiting[k..])
  {
    assert waiting == waiting[..k] + waiting[k..];
  }

  /** What the system call took, given what it had room for. */
  function Clamp(io: IoBuffer, r: WriteResult): WriteResult
    requires io.off <= |io.buf.data|
  {
    if r.Wrote? && r.n > |io.buf.data| - io.off then Wrote(|io.buf.data| - io.off) else r
  }

  lemma {:induction false} OurIdsAppend(idle: seq<IdleItem>, item: IdleItem)
    ensures OurIds(idle + [item]) == OurIds(idle) + if item.Ours? then [item.id] else []
  {
    if idle == [] {
      assert idle + [item] == [item];
    } else {
      assert (idle + [item])[1..] == idle[1..] + [item];
      OurIdsAppend(idle[1..], item);
    }
  }

  lemma {:induction false} WithoutAbsent(idle: seq<IdleItem>, id: nat)
    requires id !in OurIds(idle)
    ensures WithoutId(idle, id) == idle
  {
    if idle != [] {
      WithoutAbsent(idle[1..], id);
    }
  }

  /** Removing our oldest callback takes exactly that one out. */
  lemma {:induction false} WithoutOldest(idle: seq<IdleItem>)
    requires OurIds(idle) != [] && Ascending(OurIds(idle))
    ensures OurIds(WithoutId(idle, OurIds(idle)[0])) == OurIds(idle)[1..]
  {
    var id := OurIds(idle)[0];
    if idle[0].Ours? {
      assert OurIds(idle)[1..] == OurIds(idle[1..]);
      forall k | 0 <= k < |OurIds(idle[1..])|
        ensures OurIds(idle[1..])[k] != id
      {
        assert OurIds(idle)[k + 1] == OurIds(idle[1..])[k];
      }
      WithoutAbsent(idle[1..], id);
    } else {
      WithoutOldest(idle[1..]);
      assert ([idle[0]] + WithoutId(idle[1..], id))[1..] == WithoutId(idle[1..], id);
    }
  }

  /** Removing our oldest callback from both lists keeps them in step. */
  lemma IdleRemoveOldest(loopIdle: seq<IdleItem>, idlecbs: seq<IdleCb>, nextId: nat)
    requires IdleOk(loopIdle, idlecbs, nextId) && idlecbs != []
    ensures IdleOk(WithoutId(loopIdle, idlecbs[0].id), idlecbs[1..], nextId)
  {
    WithoutOldest(loopIdle);
    assert Ids(idlecbs[1..]) == Ids(idlecbs)[1..];
  }

  lemma {:induction false} UnwrittenAppend(queue: seq<IoBuffer>, io: IoBuffer)
    requires forall i | 0 <= i < |queue| :: queue[i].off <= |queue[i].buf.data|
    requires io.off <= |io.buf.data|
    ensures Unwritten(queue + [io]) == Unwritten(queue) + io.buf.data[io.off..]
  {
    if queue == [] {
      assert queue + [io] == [io];
      assert Unwritten([io]) == io.buf.data[io.off..] + Unwritten([]);
    } else {
      hide Unwritten;
      assert (queue + [io])[1..] == queue[1..] + [io];
      UnwrittenAppend(queue[1..], io);
      UnwrittenHead(queue);
      UnwrittenHead(queue + [io]);
      Associate(queue[0].buf.data[queue[0].off..], Unwritten(queue[1..]), io.buf.data[io.off..]);
    }
  }

  // ----- What a closed connection leaves behind -----

  /** The descriptors of the first `k` buffers whose first byte is among the first `n` of the stream. */
  function Attached(bufs: seq<Buffer>, k: nat, n: nat): seq<Ancillary>
    requires k <= |bufs|
  {
    if k == 0 then []
    else
      var before, at := Attached(bufs, k - 1, n), |Content(bufs[..k - 1])|;
      if bufs[k - 1].fds == [] || at >= n then before else before + [Ancillary(at, bufs[k - 1].fds)]
  }

  lemma ContentNext(bufs: seq<Buffer>, k: nat)
    requires k < |bufs|
    ensures Content(bufs[..k + 1]) == Content(bufs[..k]) + bufs[k].data
  {
    assert bufs[..k + 1][..k] == bufs[..k];
  }

  lemma {:induction false} ContentGrows(bufs: seq<Buffer>, i: nat, j: nat)
    requires i <= j <= |bufs|
    ensures |Content(bufs[..i])| <= |Content(bufs[..j])|
  {
    if i < j {
      ContentGrows(bufs, i, j - 1);
      ContentNext(bufs, j - 1);
    }
  }

  /** As long as first bytes are out, their descriptors are; */
  lemma {:induction false} AttachedStarted(bufs: seq<Buffer>, k: nat, n: nat)
    requires k <= |bufs| && (k > 0 ==> |Content(bufs[..k - 1])| < n || bufs[k - 1].fds == [])
    requires k > 0 ==> |Content(bufs[..k - 1])| <= n
    ensures Attached(bufs, k, n) == Descriptors(bufs, k)
  {
    if k > 1 {
      ContentNext(bufs, k - 2);
      AttachedStarted(bufs, k - 1, n);
    }
  }

  /** and beyond them, none is. */
  lemma {:induction false} AttachedBeyond(bufs: seq<Buffer>, k: nat, m: nat, n: nat)
    requires k <= m <= |bufs| && (k < |bufs| ==> |Content(bufs[..k])| >= n)
    ensures Attached(bufs, m, n) == Attached(bufs, k, n)
  {
    if k < m {
      ContentGrows(bufs, k, m - 1);
      AttachedBeyond(bufs, k, m - 1, n);
    }
  }

  lemma StreamAttached(accepted: seq<Buffer>, done: nat, queue: seq<IoBuffer>,
                       wire: seq<byte>, ancillary: seq<Ancillary>)
    requires StreamOk(accepted, done, queue, wire, ancillary)
    ensures ancillary == Attached(accepted, |accepted|, |wire|)
  {
    hide Descriptors, Attached, Unwritten;
    WireIs(accepted, done, queue, wire, ancillary);
    var k := Started(done, queue);
    if k > done {
      ContentNext(accepted, done);
    } else if k > 0 {
      ContentNext(accepted, k - 1);
    }
    AttachedStarted(accepted, k, |wire|);
    AttachedBeyond(accepted, k, |accepted|, |wire|);
  }

  /** The bytes out are those of the accepted buffers, up to a point inside the first one that is not complete,
      and with them the descriptors of the buffers begun. */
  predicate StreamHistory(accepted: seq<Buffer>, done: nat, wire: seq<byte>, ancillary: seq<Ancillary>) {
    && done <= |accepted| && Content(accepted[..done]) <= wire <= Content(accepted)
    && (done < |accepted| ==> |wire| < |Content(accepted[..done + 1])| || accepted[done].data == [])
    && (done < |accepted| && accepted[done].data == [] ==> |wire| == |Content(accepted[..done])|)
    && ancillary == Attached(accepted, |accepted|, |wire|)
  }

  lemma StreamLeaves(accepted: seq<Buffer>, done: nat, queue: seq<IoBuffer>,
                     wire: seq<byte>, ancillary: seq<Ancillary>)
    requires StreamOk(accepted, done, queue, wire, ancillary)
    ensures StreamHistory(accepted, done, wire, ancillary)
  {
    hide Descriptors, Attached;
    WireIs(accepted, done, queue, wire, ancillary);
    StreamAttached(accepted, done, queue, wire, ancillary);
    if queue != [] {
      ContentNext(accepted, done);
    }
  }

  /** What a closed connection leaves behind. */
  predicate HistoryOk(hasSendCb: bool, accepted: seq<Buffer>, acceptedBy: seq<nat>,
                      wire: seq<byte>, ancillary: seq<Ancillary>, notified: seq<Notification>)
  {
    && StreamHistory(accepted, |acceptedBy|, wire, ancillary) && Recorded(acceptedBy, |accepted|)
    && notified == if hasSendCb then Due(accepted, acceptedBy) + DueAborted(accepted, |acceptedBy|) else []
  }

  /** Buffer `i` is all on the wire. */
  predicate WrittenWhole(accepted: seq<Buffer>, wire: seq<byte>, i: nat)
    requires i < |accepted|
  {
    |Content(accepted[..i + 1])| <= |wire|
  }

  /** After the close there is one notification per accepted send, in send order. A send of at least one byte is
      reported sent if and only if all of it is on the wire, and aborted otherwise. The queue is reported empty
      exactly when the send was the last one accepted by the time it was completed, or the last one of all. */
  lemma OneNotificationEach(accepted: seq<Buffer>, acceptedBy: seq<nat>, wire: seq<byte>,
                            ancillary: seq<Ancillary>, notified: seq<Notification>, i: nat)
    requires HistoryOk(true, accepted, acceptedBy, wire, ancillary, notified) && i < |accepted|
    ensures |notified| == |accepted| && notified[i].buf == accepted[i]
    ensures accepted[i].data != [] ==> (notified[i].outcome == Sent <==> WrittenWhole(accepted, wire, i))
    ensures notified[i].queueEmpty <==> i + 1 == if i < |acceptedBy| then acceptedBy[i] else |accepted|
  {
    hide Attached, Content;
    var done := |acceptedBy|;
    if i < done {
      ContentGrows(accepted, i + 1, done);
    } else {
      assert notified[i] == DueAborted(accepted, done)[i - done];
      ContentGrows(accepted, done + 1, i + 1);
      ContentGrows(accepted, done, i);
      ContentNext(accepted, i);
    }
  }
}
