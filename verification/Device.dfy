/** `struct hwe_dev` and the files of a device: kernel/hwe_sysfs.c over its list and bitmap. */
module Device {
  import opened Base
  import opened LinkList
  import opened ListTable
  import opened PairBuffer
  import opened PairCodec
  import opened PairRegistry
  import opened Registry

  class HweDev {
    const index: nat
    const pairs: Table<Pair>
    /** The entry of the device in the list of its interface. */
    var entry: ListHead?<Rec<HweDev>>

    ghost predicate Valid()
      reads this, pairs, pairs.ring, pairs.bits
    {
      pairs.Valid() && Inv(pairs.State())
    }

    /** The objects the device is made of. */
    ghost function Footprint(): (all: set<object>)
      reads pairs
      ensures this in all && pairs in all && pairs.bits in all && forall n | n in pairs.ring :: n in all
    {
      {this} + pairs.Footprint()
    }

    constructor (index: nat)
      ensures this.index == index && entry == null && fresh(pairs) && fresh(pairs.bits) && fresh(pairs.ring)
      ensures Valid() && pairs.State() == Empty(MAX_PAIRS)
    {
      this.index := index;
      pairs := new Table(MAX_PAIRS);
      entry := null;
      new;
      EmptyInv();
    }

    /** `find_pair` over the list of nodes. */
    method FindPairNode(req: seq<byte>) returns (node: ListHead?<Rec<Pair>>)
      requires Valid()
      ensures match FindPair(pairs.State().recs, req)
        case None => node == null
        case Some(p) => p + 1 < |pairs.ring| && node == pairs.ring[p + 1]
    {
      hide Inv, FindPair, Find;
      ghost var ring, recs := pairs.ring, pairs.State().recs;
      var pos := pairs.head.next;
      ghost var k := 0;
      while pos != pairs.head
        invariant k <= |recs| && pos == (if k < |recs| then ring[k + 1] else pairs.head)
        invariant forall p | 0 <= p < k :: recs[p].item.asyncRx || recs[p].item.req != req
        decreases |recs| - k
      {
        assert recs[k] == pos.owner.value;
        var p := pos.owner.value.item;
        if !p.asyncRx && p.req == req {
          return pos;
        }
        pos := pos.next;
        k := k + 1;
      }
      return null;
    }

    /** `get_pair_at_index`. */
    method GetPairAtIndex(i: nat) returns (node: ListHead?<Rec<Pair>>)
      requires Valid()
      ensures match Find(pairs.State().recs, i)
        case None => node == null
        case Some(p) => p + 1 < |pairs.ring| && node == pairs.ring[p + 1]
    {
      hide Inv, FindPair, Find;
      ghost var ring, recs := pairs.ring, pairs.State().recs;
      var pos := pairs.head.next;
      ghost var k := 0;
      while pos != pairs.head
        invariant k <= |recs| && pos == (if k < |recs| then ring[k + 1] else pairs.head)
        invariant forall p | 0 <= p < k :: recs[p].index != i
        decreases |recs| - k
      {
        assert recs[k] == pos.owner.value;
        if pos.owner.value.index == i {
          return pos;
        }
        pos := pos.next;
        k := k + 1;
      }
      return null;
    }

    /** `find_response`. */
    method FindResponse(req: seq<byte>) returns (p: Option<Pair>)
      requires Valid()
      ensures p == PairRegistry.FindResponse(pairs.State(), req)
    {
      var node := FindPairNode(req);
      p := if node == null then None else Some(node.owner.value.item);
    }

    /** `dev_add_store`: the text `buf` written to the file `add`. */
    method AddStore(buf: string, memOk: bool, fileErr: int) returns (ret: int)
      requires Valid() && fileErr <= 0
      modifies pairs, pairs.bits, pairs.ring
      ensures Valid() && (pairs.State(), ret) == AddStep(old(pairs.State()), buf, memOk, fileErr)
      ensures forall i | 0 <= i < |pairs.ring| :: pairs.ring[i] in old(pairs.ring) || fresh(pairs.ring[i])
    {
      hide StrToPair, FindPair, FirstZero, Inv;
      ghost var before := pairs.State();
      AddStepKeepsInv(before, buf, memOk, fileErr);
      ret := -EINVAL;
      if !memOk {
        return;
      }
      var pair := new HwePair();
      var err := StrToPairInto(buf, pair);
      if err.Some? {
        return;
      }
      var idx := FirstZero(pairs.bits[..]);
      if idx == pairs.bits.Length {
        return;
      }
      var p := FindPairNode(pair.req[..pair.reqSize]);
      if p != null {
        return;
      }
      ret := fileErr;
      if ret == 0 {
        var period := if pair.asyncRx then pair.periodMs else 0;
        var node := pairs.Append(idx, Pair(pair.req[..pair.reqSize], pair.resp[..pair.respSize], pair.asyncRx, period));
        ret := |buf|;
      }
    }

    /** `dev_delete_store`; `index` is the number read from the text, if it is one. */
    method DeleteStore(count: nat, index: Option<nat>) returns (ret: int)
      requires Valid()
      modifies pairs, pairs.bits, pairs.ring
      ensures Valid() && (pairs.State(), ret) == DeleteStep(old(pairs.State()), count, index)
      ensures forall i | 0 <= i < |pairs.ring| :: pairs.ring[i] in old(pairs.ring)
    {
      hide Find, Inv, Agree;
      InvParts(pairs.State());
      ret := -EINVAL;
      if count == 0 || index.None? {
        return;
      }
      var node := GetPairAtIndex(index.value);
      if node != null {
        ghost var at := Find(pairs.State().recs, index.value).value;
        RemoveKeepsInv(pairs.State(), at);
        pairs.Delete(node, at);
        ret := count;
      }
    }

    /** `clear_pairs`: deletes the pairs inside `list_for_each_safe`. */
    method ClearPairs()
      requires Valid()
      modifies pairs, pairs.bits, pairs.ring
      ensures Valid() && pairs.State() == Empty(MAX_PAIRS)
      ensures pairs.ring == [pairs.head] && pairs.head in old(pairs.ring)
    {
      hide Inv, Remove, Ring, Without;
      RingNext(pairs.ring);
      var pos := pairs.head.next;
      var n := pos.next;
      while pos != pairs.head
        invariant pairs.Valid() && pairs.ring != [] && Inv(pairs.State())
        invariant forall i | 0 <= i < |pairs.ring| :: pairs.ring[i] in old(pairs.ring)
        invariant pos == Succ(pairs.ring, 0) && n == pos.next
        decreases |pairs.ring|
      {
        RingNext(pairs.ring);
        FrontRemoved(pairs.ring);
        InvParts(pairs.State());
        RemoveKeepsInv(pairs.State(), 0);
        assert pairs.State().recs[0] == pos.owner.value;
        pairs.Delete(pos, 0);
        RingNext(pairs.ring);
        pos := n;
        n := pos.next;
      }
      RingNext(pairs.ring);
      assert pairs.ring == [pairs.head];
      NoPairsLeft(pairs.State());
    }

    /** `dev_clear_store`. */
    method ClearStore(count: nat) returns (ret: int)
      requires Valid()
      modifies pairs, pairs.bits, pairs.ring
      ensures Valid() && (pairs.State(), ret) == ClearStep(old(pairs.State()), count)
      ensures count > 0 ==> pairs.ring == [pairs.head]
      ensures forall i | 0 <= i < |pairs.ring| :: pairs.ring[i] in old(pairs.ring)
    {
      hide Inv;
      InvParts(pairs.State());
      if count == 0 {
        return -EIO;
      }
      RemoveAllEmpties(pairs.State());
      ClearPairs();
      ret := count;
    }

    /** `pair_show` for the file named `i`. */
    method PairShow(i: nat) returns (text: Option<string>)
      requires Valid()
      ensures var m := ToMap(pairs.State().recs); text == if i in m then Some(PairToStr(m[i])) else None
    {
      hide Inv, Find, PairToStr, ToMap;
      ShowIsLookup(pairs.State(), i);
      var node := GetPairAtIndex(i);
      text := if node == null then None else Some(PairToStr(node.owner.value.item));
    }

    /** `dev_count_show`. */
    method CountShow() returns (n: nat)
      requires Valid()
      ensures n == Weight(pairs.bits[..]) == |pairs.State().recs|
    {
      n := Weight(pairs.bits[..]);
    }
  }
}
