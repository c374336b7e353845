/** The circular doubly linked list of tests/list.h, refined to the sequence of its nodes. */
module LinkList {
  import opened Base

  /** `struct list_head`. `owner` is the structure it is embedded in, which `list_entry` computes by
      pointer arithmetic; the head of a list has none. */
  class ListHead<T> {
    var next: ListHead?<T>
    var prev: ListHead?<T>
    const owner: Option<T>

    /** `INIT_LIST_HEAD`. */
    constructor (owner: Option<T>)
      ensures next == prev == this && this.owner == owner
      ensures Ring([this])
    {
      this.owner := owner;
      next := this;
      prev := this;
    }
  }

  function Succ<T>(ns: seq<ListHead<T>>, i: nat): ListHead<T>
    requires i < |ns|
  {
    if i + 1 < |ns| then ns[i + 1] else ns[0]
  }

  function Pred<T>(ns: seq<ListHead<T>>, i: nat): ListHead<T>
    requires i < |ns|
  {
    if i > 0 then ns[i - 1] else ns[|ns| - 1]
  }

  /** The nodes `ns`, head first, form one ring in which `next` and `prev` are inverse. */
  ghost predicate Ring<T>(ns: seq<ListHead<T>>)
    reads ns
  {
    && |ns| > 0
    && (forall i, j | 0 <= i < j < |ns| :: ns[i] != ns[j])
    && (forall i {:trigger ns[i].next} | 0 <= i < |ns| :: ns[i].next == Succ(ns, i))
    && (forall i {:trigger ns[i].prev} | 0 <= i < |ns| :: ns[i].prev == Pred(ns, i))
  }

  /** The ring with `entry` put after position `i`. */
  ghost function InsertAfter<T>(ns: seq<ListHead<T>>, i: nat, entry: ListHead<T>): seq<ListHead<T>>
    requires i < |ns|
  {
    ns[..i + 1] + [entry] + ns[i + 1..]
  }

  /** The ring without position `i`. */
  ghost function Without<T>(ns: seq<ListHead<T>>, i: nat): seq<ListHead<T>>
    requires i < |ns|
  {
    ns[..i] + ns[i + 1..]
  }

  lemma InsertAt<T>(ns: seq<ListHead<T>>, i: nat, entry: ListHead<T>)
    requires i < |ns|
    ensures var all := InsertAfter(ns, i, entry);
      && |all| == |ns| + 1 && all[i + 1] == entry
      && (forall k | 0 <= k <= i :: all[k] == ns[k])
      && (forall k | i + 1 < k < |all| :: all[k] == ns[k - 1])
  {
  }

  /** `__list_add`: between two consecutive nodes. */
  method ListInsert<T>(entry: ListHead<T>, prev: ListHead<T>, next: ListHead<T>, ghost ns: seq<ListHead<T>>, ghost i: nat)
    requires Ring(ns) && entry !in ns
    requires i < |ns| && prev == ns[i] && next == Succ(ns, i)
    modifies entry, prev, next
    ensures Ring(InsertAfter(ns, i, entry))
  {
    hide InsertAfter;
    InsertAt(ns, i, entry);
    next.prev := entry;
    entry.next := next;
    entry.prev := prev;
    prev.next := entry;
  }

  /** `list_add`: the new entry becomes the first. */
  method ListAdd<T>(entry: ListHead<T>, head: ListHead<T>, ghost ns: seq<ListHead<T>>)
    requires Ring(ns) && head == ns[0] && entry !in ns
    modifies entry, ns
    ensures Ring(InsertAfter(ns, 0, entry))
  {
    var first := head.next;
    ListInsert(entry, head, first, ns, 0);
  }

  /** `list_add_tail`: the new entry becomes the last. */
  method ListAddTail<T>(entry: ListHead<T>, head: ListHead<T>, ghost ns: seq<ListHead<T>>)
    requires Ring(ns) && head == ns[0] && entry !in ns
    modifies entry, ns
    ensures Ring(InsertAfter(ns, |ns| - 1, entry))
  {
    var last := head.prev;
    ListInsert(entry, last, head, ns, |ns| - 1);
  }

  /** `__list_del`: makes the neighbours of entry `i` point to each other. */
  method ListUnlink<T>(prev: ListHead<T>, next: ListHead<T>, ghost ns: seq<ListHead<T>>, ghost i: nat)
    requires Ring(ns) && 1 <= i < |ns|
    requires prev == ns[i - 1] && next == Succ(ns, i)
    modifies prev, next
    ensures Ring(Without(ns, i))
  {
    next.prev := prev;
    prev.next := next;
  }

  /** `list_del`. The two poison values are pointers that reach no node: null here. */
  method ListDel<T>(entry: ListHead<T>, ghost ns: seq<ListHead<T>>, ghost i: nat)
    requires Ring(ns) && 1 <= i < |ns| && entry == ns[i]
    modifies ns
    ensures Ring(Without(ns, i))
    ensures entry.next == entry.prev == null
  {
    ListUnlink(entry.prev, entry.next, ns, i);
    assert entry !in Without(ns, i);
    entry.next := null;
    entry.prev := null;
  }

  /** The ring a moved entry leaves for, as it is once the entry has been unlinked. */
  ghost function Target<T>(ns: seq<ListHead<T>>, i: nat, hs: seq<ListHead<T>>): seq<ListHead<T>>
    requires i < |ns|
  {
    if hs == ns then Without(ns, i) else hs
  }

  ghost predicate Disjoint<T>(ns: seq<ListHead<T>>, hs: seq<ListHead<T>>) {
    forall i, j | 0 <= i < |ns| && 0 <= j < |hs| :: ns[i] != hs[j]
  }

  /** `list_move`: from its ring to the front of `hs`, which may be the same ring. */
  method ListMove<T>(entry: ListHead<T>, head: ListHead<T>, ghost ns: seq<ListHead<T>>, ghost i: nat, ghost hs: seq<ListHead<T>>)
    requires Ring(ns) && 1 <= i < |ns| && entry == ns[i]
    requires Ring(hs) && head == hs[0] && (hs == ns || Disjoint(ns, hs))
    modifies ns, hs
    ensures Ring(InsertAfter(Target(ns, i, hs), 0, entry))
    ensures hs != ns ==> Ring(Without(ns, i))
  {
    ListUnlink(entry.prev, entry.next, ns, i);
    assert entry !in Without(ns, i);
    ListAdd(entry, head, Target(ns, i, hs));
  }

  /** `list_move_tail`: from its ring to the end of `hs`, which may be the same ring. */
  method ListMoveTail<T>(entry: ListHead<T>, head: ListHead<T>, ghost ns: seq<ListHead<T>>, ghost i: nat, ghost hs: seq<ListHead<T>>)
    requires Ring(ns) && 1 <= i < |ns| && entry == ns[i]
    requires Ring(hs) && head == hs[0] && (hs == ns || Disjoint(ns, hs))
    modifies ns, hs
    ensures Ring(InsertAfter(Target(ns, i, hs), |Target(ns, i, hs)| - 1, entry))
    ensures hs != ns ==> Ring(Without(ns, i))
  {
    ListUnlink(entry.prev, entry.next, ns, i);
    assert entry !in Without(ns, i);
    ListAddTail(entry, head, Target(ns, i, hs));
  }

  /** `list_empty`. */
  method ListEmpty<T>(head: ListHead<T>, ghost ns: seq<ListHead<T>>) returns (r: bool)
    requires Ring(ns) && head == ns[0]
    ensures r <==> ns == [head]
  {
    r := head.next == head;
  }

  /** The head of `hs`, the entries of `ls`, the entries of `hs`. */
  ghost function Spliced<T>(ls: seq<ListHead<T>>, hs: seq<ListHead<T>>): seq<ListHead<T>>
    requires |ls| > 0 && |hs| > 0
  {
    [hs[0]] + ls[1..] + hs[1..]
  }

  lemma SplicedAt<T>(ls: seq<ListHead<T>>, hs: seq<ListHead<T>>)
    requires |ls| > 0 && |hs| > 0
    ensures var all, n := Spliced(ls, hs), |ls|;
      && |all| == n + |hs| - 1 && all[0] == hs[0]
      && (forall i | 1 <= i < n :: all[i] == ls[i])
      && (forall i | n <= i < |all| :: all[i] == hs[i - n + 1])
  {
  }

  /** `__list_splice`: all entries of `list`, in order, to the front of `head`. */
  method Splice<T>(list: ListHead<T>, head: ListHead<T>, ghost ls: seq<ListHead<T>>, ghost hs: seq<ListHead<T>>)
    requires Ring(ls) && Ring(hs) && list == ls[0] && head == hs[0] && Disjoint(ls, hs)
    requires |ls| > 1
    modifies ls, hs
    ensures Ring(Spliced(ls, hs))
  {
    var first := list.next;
    var last := list.prev;
    var at := head.next;
    hide Spliced;
    SplicedAt(ls, hs);
    first.prev := head;
    head.next := first;
    last.next := at;
    at.prev := last;
  }

  /** `list_splice`. */
  method ListSplice<T>(list: ListHead<T>, head: ListHead<T>, ghost ls: seq<ListHead<T>>, ghost hs: seq<ListHead<T>>)
    requires Ring(ls) && Ring(hs) && list == ls[0] && head == hs[0] && Disjoint(ls, hs)
    modifies ls, hs
    ensures Ring(Spliced(ls, hs))
  {
    var empty := ListEmpty(list, ls);
    if !empty {
      Splice(list, head, ls, hs);
    } else {
      assert Spliced(ls, hs) == hs;
    }
  }

  /** `list_splice_init`. */
  method ListSpliceInit<T>(list: ListHead<T>, head: ListHead<T>, ghost ls: seq<ListHead<T>>, ghost hs: seq<ListHead<T>>)
    requires Ring(ls) && Ring(hs) && list == ls[0] && head == hs[0] && Disjoint(ls, hs)
    modifies ls, hs
    ensures Ring(Spliced(ls, hs))
    ensures Ring([list])
  {
    var empty := ListEmpty(list, ls);
    if !empty {
      Splice(list, head, ls, hs);
      assert list !in Spliced(ls, hs);
      list.next := list;
      list.prev := list;
    } else {
      assert Spliced(ls, hs) == hs;
    }
  }

  lemma RingNext<T>(ns: seq<ListHead<T>>)
    requires Ring(ns)
    ensures |ns| > 0 && ns[0].next == Succ(ns, 0)
    ensures |ns| > 1 ==> ns[0] != ns[1] && ns[1].next == Succ(ns, 1)
  {
  }

  lemma FrontRemoved<T>(ns: seq<ListHead<T>>)
    requires |ns| > 1
    ensures var r := Without(ns, 1);
      && r != [] && r[0] == ns[0] && |r| == |ns| - 1
      && Succ(r, 0) == Succ(ns, 1) && forall i | 0 <= i < |r| :: r[i] == ns[if i < 1 then i else i + 1]
  {
  }

  /** `rest` is the head of `ns` followed by what comes after position `k`. */
  ghost predicate After<T>(ns: seq<ListHead<T>>, k: nat, rest: seq<ListHead<T>>) {
    k < |ns| && rest == [ns[0]] + ns[k + 1..]
  }

  lemma AfterNext<T>(ns: seq<ListHead<T>>, k: nat, rest: seq<ListHead<T>>)
    requires After(ns, k, rest)
    ensures 1 <= |rest| == |ns| - k && rest[0] == ns[0]
    ensures forall i | 0 <= i < |rest| :: rest[i] in ns
    ensures |rest| > 1 ==> After(ns, k + 1, Without(rest, 1)) && rest[1] == ns[k + 1] && Succ(Without(rest, 1), 0) == Succ(rest, 1)
    ensures |rest| == 1 ==> rest == [ns[0]]
  {
  }

  /** Deleting every entry inside `list_for_each_safe`: each is visited once, in order, and the
      list ends empty. */
  method DeleteAll<T>(head: ListHead<T>, ghost ns: seq<ListHead<T>>) returns (ghost visited: seq<ListHead<T>>)
    requires Ring(ns) && head == ns[0]
    modifies ns
    ensures visited == ns[1..]
    ensures Ring([head])
  {
    hide Ring, Without, After;
    ghost var rest, k := ns, 0;
    visited := [];
    RingNext(ns);
    assert After(ns, 0, ns) by { AfterNone(ns); }
    var pos := head.next;
    var n := pos.next;
    while pos != head
      invariant 0 <= k < |ns| && After(ns, k, rest) && Ring(rest)
      invariant |visited| == k && forall i | 0 <= i < k :: visited[i] == ns[i + 1]
      invariant 0 < |rest| && pos == Succ(rest, 0) && n == pos.next
      decreases |rest|
    {
      AfterNext(ns, k, rest);
      RingNext(rest);
      visited := visited + [pos];
      ListDel(pos, rest, 1);
      rest, k := Without(rest, 1), k + 1;
      RingNext(rest);
      pos := n;
      n := pos.next;
    }
    AfterNext(ns, k, rest);
    RingNext(rest);
  }

  lemma AfterNone<T>(ns: seq<ListHead<T>>)
    requires ns != []
    ensures After(ns, 0, ns)
  {
  }
}
