/** The circular doubly linked list of src/pomp_list.h, and the removal walk of the idle queue over it. */
module List {
  import opened IdleQueue

  class Node {
    var next: Node?
    var prev: Node?
    const entry: Entry  // the structure the node is embedded in

    constructor (entry: Entry)
      ensures this.entry == entry && next == null && prev == null
    {
      this.entry, next, prev := entry, null, null;
    }
  }

  /** The ring read from the list head: position -1 and position |nodes| are the head itself. */
  ghost function At(list: Node, nodes: seq<Node>, i: int): Node
    requires -1 <= i <= |nodes|
  {
    if 0 <= i < |nodes| then nodes[i] else list
  }

  ghost predicate Linked(list: Node, nodes: seq<Node>, i: int)
    requires -1 <= i < |nodes|
    reads list, nodes
  {
    At(list, nodes, i).next == At(list, nodes, i + 1) && At(list, nodes, i + 1).prev == At(list, nodes, i)
  }

  /** `list` heads a well-formed ring whose other nodes are `nodes`, in order. */
  ghost predicate Ring(list: Node, nodes: seq<Node>)
    reads list, nodes
  {
    && list !in nodes
    && (forall i, j | 0 <= i < j < |nodes| :: nodes[i] != nodes[j])
    && (forall i | -1 <= i < |nodes| :: Linked(list, nodes, i))
  }

  function Entries(nodes: seq<Node>): (r: seq<Entry>)
    ensures |r| == |nodes|
    ensures forall i | 0 <= i < |nodes| :: r[i] == nodes[i].entry
  {
    seq(|nodes|, i requires 0 <= i < |nodes| => nodes[i].entry)
  }

  method InitList(list: Node)
    modifies list
    ensures Ring(list, [])
  {
    list.next := list;
    list.prev := list;
    assert Linked(list, [], -1);
  }

  /** The four assignments that put `novel` between two neighbours. */
  method Insert(list: Node, ghost nodes: seq<Node>, ghost k: nat, novel: Node, prev: Node, next: Node)
    requires Ring(list, nodes) && k <= |nodes| && novel != list && novel !in nodes
    requires prev == At(list, nodes, k - 1) && next == At(list, nodes, k)
    modifies novel, list, nodes
    ensures Ring(list, nodes[..k] + [novel] + nodes[k..])
  {
    next.prev := novel;
    novel.next := next;
    novel.prev := prev;
    prev.next := novel;
    ghost var ring := nodes[..k] + [novel] + nodes[k..];
    forall i | -1 <= i < |ring| ensures Linked(list, ring, i) {
      if i < k - 1 {
        assert old(Linked(list, nodes, i));
      } else if i > k {
        assert old(Linked(list, nodes, i - 1));
      }
    }
  }

  method AddTail(list: Node, ghost nodes: seq<Node>, novel: Node)
    requires Ring(list, nodes) && novel != list && novel !in nodes
    modifies novel, list, nodes
    ensures Ring(list, nodes + [novel])
  {
    assert Linked(list, nodes, |nodes| - 1) && Linked(list, nodes, -1);
    var last := list.prev;
    Insert(list, nodes, |nodes|, novel, last, last.next);
    assert nodes[..|nodes|] + [novel] + nodes[|nodes|..] == nodes + [novel];
  }

  method AddHead(list: Node, ghost nodes: seq<Node>, novel: Node)
    requires Ring(list, nodes) && novel != list && novel !in nodes
    modifies novel, list, nodes
    ensures Ring(list, [novel] + nodes)
  {
    assert Linked(list, nodes, -1);
    var first := list.next;
    Insert(list, nodes, 0, novel, first.prev, first);
    assert nodes[..0] + [novel] + nodes[0..] == [novel] + nodes;
  }

  method Unlink(list: Node, ghost nodes: seq<Node>, ghost k: nat, node: Node)
    requires Ring(list, nodes) && k < |nodes| && node == nodes[k]
    modifies list, nodes
    ensures Ring(list, nodes[..k] + nodes[k + 1..])
    ensures node.next == null && node.prev == null
  {
    assert Linked(list, nodes, k) && Linked(list, nodes, k - 1);
    node.next.prev := node.prev;
    node.prev.next := node.next;
    node.next := null;
    node.prev := null;
    ghost var ring := nodes[..k] + nodes[k + 1..];
    forall i | -1 <= i < |ring| ensures Linked(list, ring, i) {
      if i < k - 1 {
        assert old(Linked(list, nodes, i));
      } else if i >= k {
        assert old(Linked(list, nodes, i + 1));
      }
    }
  }

  /** The body of the walk. */
  method UnlinkIf(list: Node, ghost ring: seq<Node>, ghost k: nat, pos: Node, sel: Selector)
    returns (ghost ring': seq<Node>, ghost k': nat)
    requires Ring(list, ring) && k < |ring| && pos == ring[k]
    modifies list, ring
    ensures Ring(list, ring') && k' <= |ring'|
    ensures if Matches(pos.entry, sel) then k' == k && ring' == ring[..k] + ring[k + 1..]
            else k' == k + 1 && ring' == ring
  {
    if Matches(pos.entry, sel) {
      Unlink(list, ring, k, pos);
      ring', k' := ring[..k] + ring[k + 1..], k;
    } else {
      ring', k' := ring, k + 1;
    }
  }

  /** Entries before `k` stay, the others are yet to be filtered. */
  ghost function Filtered(ring: seq<Node>, k: nat, sel: Selector): seq<Entry>
    requires k <= |ring|
  {
    Entries(ring[..k]) + Without(Entries(ring[k..]), sel)
  }

  lemma FilteredStep(ring: seq<Node>, k: nat, sel: Selector)
    requires k < |ring|
    ensures if Matches(ring[k].entry, sel) then Filtered(ring[..k] + ring[k + 1..], k, sel) == Filtered(ring, k, sel)
            else Filtered(ring, k + 1, sel) == Filtered(ring, k, sel)
  {
    assert Entries(ring[k..])[1..] == Entries(ring[k + 1..]);
    if Matches(ring[k].entry, sel) {
      var rest := ring[..k] + ring[k + 1..];
      assert rest[..k] == ring[..k] && rest[k..] == ring[k + 1..];
    } else {
      assert Entries(ring[..k + 1]) == Entries(ring[..k]) + [ring[k].entry];
    }
  }

  /** The safe forward walk that unlinks every matching entry: the ring then holds the filtered sequence. */
  method RemoveMatching(list: Node, ghost nodes: seq<Node>, sel: Selector) returns (ghost kept: seq<Node>)
    requires Ring(list, nodes)
    modifies list, nodes
    ensures Ring(list, kept)
    ensures Entries(kept) == Without(Entries(nodes), sel)
  {
    ghost var k: nat := 0;
    kept := nodes;
    assert Linked(list, nodes, -1);
    assert nodes != [] ==> Linked(list, nodes, 0);
    var pos := list.next;
    var tmp := pos.next;
    assert Filtered(nodes, 0, sel) == Without(Entries(nodes), sel) by {
      assert nodes[0..] == nodes;
    }
    while pos != list
      invariant k <= |kept| && Ring(list, kept)
      invariant forall j | 0 <= j < |kept| :: kept[j] in nodes
      invariant pos == At(list, kept, k) && (k < |kept| ==> tmp == At(list, kept, k + 1))
      invariant Filtered(kept, k, sel) == Without(Entries(nodes), sel)
      decreases |kept| - k
    {
      FilteredStep(kept, k, sel);
      kept, k := UnlinkIf(list, kept, k, pos, sel);
      pos := tmp;
      assert Linked(list, kept, if k < |kept| then k else -1);
      tmp := pos.next;
    }
    assert kept[..k] == kept && kept[k..] == [];
  }
}
