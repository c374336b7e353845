/** A registry in memory: the bitmap and the ring of nodes that `Registry.Reg` describes. */
module ListTable {
  import opened Base
  import opened LinkList
  import opened Registry

  ghost predicate Owned<T>(ns: seq<ListHead<Rec<T>>>) {
    forall k | 1 <= k < |ns| :: ns[k].owner.Some?
  }

  /** What the nodes after the head carry. */
  ghost function Records<T>(ns: seq<ListHead<Rec<T>>>): seq<Rec<T>>
    requires |ns| > 0 && Owned(ns)
  {
    seq(|ns| - 1, k requires 0 <= k < |ns| - 1 => ns[k + 1].owner.value)
  }

  lemma RecordsInFront<T>(node: ListHead<Rec<T>>, ns: seq<ListHead<Rec<T>>>)
    requires |ns| > 0 && Owned(ns) && node.owner.Some?
    ensures Owned([ns[0], node] + ns[1..])
    ensures Records([ns[0], node] + ns[1..]) == [node.owner.value] + Records(ns)
  {
    var all := [ns[0], node] + ns[1..];
    assert all[1] == node && forall k | 1 <= k < |ns| :: all[k + 1] == ns[k];
    assert forall k | 2 <= k < |all| :: all[k] == ns[k - 1];
  }

  class Table<T> {
    const bits: array<bool>
    const head: ListHead<Rec<T>>
    /** The nodes of the list, head first. */
    ghost var ring: seq<ListHead<Rec<T>>>

    ghost predicate Valid()
      reads this, ring
    {
      Ring(ring) && ring[0] == head && Owned(ring)
    }

    ghost function State(): Reg<T>
      reads this, bits, ring
      requires Valid()
    {
      Reg(bits[..], Records(ring))
    }

    ghost function Footprint(): set<object>
      reads this
    {
      {this, bits} + set n | n in ring
    }

    constructor (size: nat)
      ensures Valid() && State() == Empty(size)
      ensures fresh(bits) && fresh(ring)
    {
      bits := new bool[size](_ => false);
      head := new ListHead(None);
      new;
      ring := [head];
      assert bits[..] == seq(size, _ => false);
    }

    /** Takes index `i` and puts the new entry last. */
    method Append(i: nat, item: T) returns (node: ListHead<Rec<T>>)
      requires Valid() && i == FirstZero(bits[..]) < bits.Length
      modifies this, bits, ring
      ensures Valid() && State() == AddTail(old(State()), item)
      ensures fresh(node) && node.owner == Some(Rec(i, item))
      ensures ring == old(ring) + [node] && Footprint() == old(Footprint()) + {node}
    {
      hide FirstZero, Ring;
      RingNext(ring);
      node := new ListHead(Some(Rec(i, item)));
      bits[i] := true;
      ListAddTail(node, head, ring);
      assert InsertAfter(ring, |ring| - 1, node) == ring + [node];
      ring := ring + [node];
    }

    /** Takes index `i` and puts the new entry first. */
    method Prepend(i: nat, item: T) returns (node: ListHead<Rec<T>>)
      requires Valid() && i == FirstZero(bits[..]) < bits.Length
      modifies this, bits, ring
      ensures Valid() && State() == AddFront(old(State()), item)
      ensures fresh(node) && node.owner == Some(Rec(i, item))
      ensures ring == [head, node] + old(ring)[1..] && Footprint() == old(Footprint()) + {node}
      ensures forall n | n in ring :: n == node || n in old(ring)
    {
      hide FirstZero, Ring, Owned, Records;
      RingNext(ring);
      node := new ListHead(Some(Rec(i, item)));
      RecordsInFront(node, ring);
      bits[i] := true;
      ListAdd(node, head, ring);
      assert InsertAfter(ring, 0, node) == [head, node] + ring[1..];
      ring := [head, node] + ring[1..];
    }

    /** Gives the index of an entry back and unlinks it. */
    method Delete(node: ListHead<Rec<T>>, ghost p: nat)
      requires Valid() && p + 1 < |ring| && node == ring[p + 1]
      requires node.owner.value.index < bits.Length
      modifies this, bits, ring
      ensures Valid() && State() == Remove(old(State()), p)
      ensures ring == Without(old(ring), p + 1) && Footprint() <= old(Footprint())
    {
      bits[node.owner.value.index] := false;
      ListDel(node, ring, p + 1);
      ring := Without(ring, p + 1);
    }
  }
}
