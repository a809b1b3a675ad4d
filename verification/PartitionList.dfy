/** The linked list of partitions, newest first, and its iterator. */
module PartitionList {
  import opened Words
  import opened Memory
  import opened Disk

  /** `Absent` is Go's nil partition, the value of an iterator's dummy node. */
  datatype Partition = Mem(mem: MemoryPartition) | Disk(disk: DiskPartition) | Absent {

    function MinTimestamp(): int64
      reads if Mem? then {mem} else {}
    {
      match this
      case Mem(m) => m.minT
      case Disk(d) => d.meta.minTs
      case Absent => 0
    }

    function MaxTimestamp(): int64
      reads if Mem? then {mem} else {}
    {
      match this
      case Mem(m) => m.maxT
      case Disk(d) => d.meta.maxTs
      case Absent => 0
    }

    predicate Active()
      reads if Mem? then {mem} else {}
    {
      Mem? && mem.Active()
    }
  }

  class Node {
    const val: Partition
    var next: Node?

    constructor (val: Partition, next: Node?)
      ensures this.val == val && this.next == next
    {
      this.val, this.next := val, next;
    }
  }

  /** The i-th node, or nil past the end. */
  ghost function NodeAt(nodes: seq<Node>, i: nat): Node? {
    if i < |nodes| then nodes[i] else null
  }

  /** From index i on, each node points to the one after it. */
  ghost predicate Linked(nodes: seq<Node>, i: nat)
    reads nodes
  {
    forall j {:trigger nodes[j].next} | i <= j < |nodes| :: nodes[j].next == NodeAt(nodes, j + 1)
  }

  ghost predicate Distinct(nodes: seq<Node>) {
    forall i, j | 0 <= i < j < |nodes| :: nodes[i] != nodes[j]
  }

  ghost function Values(nodes: seq<Node>): (ps: seq<Partition>)
    ensures |ps| == |nodes| && forall i | 0 <= i < |nodes| :: ps[i] == nodes[i].val
  {
    seq(|nodes|, i requires 0 <= i < |nodes| => nodes[i].val)
  }

  /** The memory partitions whose lower bound a search looks at. */
  ghost function Mems(ps: seq<Partition>): set<object> {
    set p | p in ps && p.Mem? :: p.mem
  }

  /** The first node whose partition starts at t; samePartitions compares nothing else. */
  ghost function FirstAt(nodes: seq<Node>, t: int64): (k: nat)
    reads Mems(Values(nodes))
    ensures k <= |nodes|
    ensures forall i | 0 <= i < k :: nodes[i].val.MinTimestamp() != t
    ensures k < |nodes| ==> nodes[k].val.MinTimestamp() == t
  {
    if nodes == [] then 0
    else if nodes[0].val.MinTimestamp() == t then 0
    else
      assert Values(nodes[1..]) == Values(nodes)[1..];
      1 + FirstAt(nodes[1..], t)
  }

  class PartitionListImpl {
    var numPartitions: int
    var head: Node?
    ghost var nodes: seq<Node>

    ghost predicate Valid()
      reads this, nodes
    {
      && numPartitions == |nodes|
      && head == NodeAt(nodes, 0)
      && Linked(nodes, 0)
      && Distinct(nodes)
    }

    constructor ()
      ensures Valid() && nodes == []
    {
      numPartitions, head, nodes := 0, null, [];
    }

    method GetHead() returns (p: Partition)
      requires Valid()
      ensures p == if nodes == [] then Absent else nodes[0].val
    {
      if numPartitions <= 0 {
        return Absent;
      }
      return head.val;
    }

    /** A new head. */
    method Insert(p: Partition)
      requires Valid()
      modifies this
      ensures Valid() && |nodes| == |old(nodes)| + 1
      ensures nodes[1..] == old(nodes) && fresh(nodes[0]) && nodes[0].val == p
    {
      var node := new Node(p, head);
      head := node;
      nodes := [node] + nodes;
      numPartitions := numPartitions + 1;
    }

    /** Unlinks the first node that starts where the target starts. The unlinked
        node keeps its own next pointer, and only its predecessor's changes. */
    method Remove(target: Partition) returns (ok: bool)
      requires Valid()
      modifies this, nodes
      ensures Valid()
      ensures ok <==> old(FirstAt(nodes, target.MinTimestamp())) < |old(nodes)|
      ensures !ok ==> nodes == old(nodes)
      ensures ok ==> var k := old(FirstAt(nodes, target.MinTimestamp()));
                     nodes == old(nodes)[..k] + old(nodes)[k + 1..]
                     && forall j | k <= j < |old(nodes)| :: old(nodes)[j].next == old(nodes[j].next)
    {
      hide FirstAt, Values, Partition.MinTimestamp, Mems;
      if numPartitions <= 0 {
        return false;
      }
      var prev, current, i := Find(target.MinTimestamp());
      if current == null {
        return false;
      }
      Unlink(prev, current, i);
      return true;
    }

    method Unlink(prev: Node?, current: Node, ghost i: nat)
      requires Valid() && i < |nodes| && current == nodes[i]
      requires prev == if i == 0 then null else nodes[i - 1]
      modifies this, prev
      ensures Valid() && nodes == old(nodes)[..i] + old(nodes)[i + 1..]
    {
      ghost var ns := nodes;
      var next := current.next;
      if prev == null {
        head := next;
      } else {
        prev.next := next;
      }
      numPartitions := numPartitions - 1;
      nodes := ns[..i] + ns[i + 1..];
      assert i > 0 ==> nodes[i - 1] == prev;
    }

    /** Walks from the head to the first node that starts at t, and the one before it. */
    method Find(t: int64) returns (prev: Node?, current: Node?, ghost i: nat)
      requires Valid()
      ensures i == FirstAt(nodes, t)
      ensures current == NodeAt(nodes, i) && prev == if i == 0 then null else nodes[i - 1]
    {
      hide FirstAt;
      prev, current, i := null, head, 0;
      while current != null
        invariant i <= FirstAt(nodes, t) && current == NodeAt(nodes, i)
        invariant prev == if i == 0 then null else nodes[i - 1]
        decreases |nodes| - i
      {
        if current.val.MinTimestamp() == t {
          return;
        }
        prev, current, i := current, current.next, i + 1;
      }
    }

    /** Puts a new node in place of the first one that starts where `old` starts. */
    method Swap(replaced: Partition, with: Partition) returns (ok: bool)
      requires Valid()
      modifies this, nodes
      ensures Valid()
      ensures ok <==> old(FirstAt(nodes, replaced.MinTimestamp())) < |old(nodes)|
      ensures !ok ==> nodes == old(nodes)
      ensures ok ==> var k := old(FirstAt(nodes, replaced.MinTimestamp()));
                     |nodes| == |old(nodes)| && fresh(nodes[k]) && nodes[k].val == with
                     && nodes == old(nodes)[k := nodes[k]]
                     && forall j | k <= j < |old(nodes)| :: old(nodes)[j].next == old(nodes[j].next)
    {
      hide FirstAt, Values, Partition.MinTimestamp, Mems;
      if numPartitions <= 0 {
        return false;
      }
      var prev, current, i := Find(replaced.MinTimestamp());
      if current == null {
        return false;
      }
      var node := Relink(prev, current, with, i);
      return true;
    }

    method Relink(prev: Node?, current: Node, with: Partition, ghost i: nat) returns (node: Node)
      requires Valid() && i < |nodes| && current == nodes[i]
      requires prev == if i == 0 then null else nodes[i - 1]
      modifies this, prev
      ensures Valid() && fresh(node) && node.val == with && nodes == old(nodes)[i := node]
    {
      node := new Node(with, current.next);
      if prev == null {
        head := node;
      } else {
        prev.next := node;
      }
      nodes := nodes[i := node];
    }

    method NewIterator() returns (it: PartitionIterator)
      requires Valid()
      ensures fresh(it) && it.current != null && fresh(it.current) && it.current.next == head
    {
      var dummy := new Node(Absent, head);
      it := new PartitionIterator(dummy);
    }
  }

  class PartitionIterator {
    var current: Node?

    constructor (current: Node)
      ensures this.current == current
    {
      this.current := current;
    }

    method Next() returns (more: bool)
      modifies this
      ensures current == if old(current) == null then null else old(current.next)
      ensures more <==> current != null
    {
      if current == null {
        return false;
      }
      current := current.next;
      return current != null;
    }

    function Value(): Partition
      reads this
    {
      if current == null then Absent else current.val
    }
  }
}
