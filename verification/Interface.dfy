/** `struct hwe_iface`: creating and shutting down the devices of one interface
    (kernel/hwe_sysfs.c), with the roll-back of every failing creation. What the objects hold is a
    registry of registries, and every operation is a step of `DeviceRegistry.DevStep` on it. */
module Interface {
  import opened Base
  import opened Device
  import opened DeviceRegistry
  import opened LinkList
  import opened ListTable
  import opened PairCodec
  import opened PairRegistry
  import opened Registry

  // ---- The objects of a list of devices ----

  ghost function Members(list: seq<HweDev>): set<HweDev> {
    set p | 0 <= p < |list| :: list[p]
  }

  ghost function Tables(list: seq<HweDev>): set<Table<Pair>> {
    set p | 0 <= p < |list| :: list[p].pairs
  }

  ghost function Bitmaps(list: seq<HweDev>): set<array<bool>> {
    set p | 0 <= p < |list| :: list[p].pairs.bits
  }

  ghost function Nodes(list: seq<HweDev>): set<ListHead<Rec<Pair>>>
    reads Tables(list)
  {
    set p, k | 0 <= p < |list| && 0 <= k < |list[p].pairs.ring| :: list[p].pairs.ring[k]
  }

  /** The devices share no object with each other. */
  ghost predicate AllApart(list: seq<HweDev>)
    reads Tables(list)
  {
    forall p, q | 0 <= p < |list| && 0 <= q < |list| && p != q :: Apart(list[p], list[q])
  }

  ghost predicate Apart(a: HweDev, b: HweDev)
    reads a.pairs, b.pairs
  {
    && a != b && a.pairs != b.pairs && a.pairs.bits != b.pairs.bits
    && forall n | n in a.pairs.ring :: n !in b.pairs.ring
  }

  ghost predicate AllValid(list: seq<HweDev>)
    reads list, Tables(list), Bitmaps(list), Nodes(list)
  {
    forall p | 0 <= p < |list| :: list[p].Valid()
  }

  /** What the devices hold, by index. */
  ghost function Items(list: seq<HweDev>): (items: seq<Rec<Pairs>>)
    reads list, Tables(list), Bitmaps(list), Nodes(list)
    requires AllValid(list)
  {
    seq(|list|, p requires 0 <= p < |list| && AllValid(list)
      reads list, Tables(list), Bitmaps(list), Nodes(list) => Rec(list[p].index, list[p].pairs.State()))
  }

  /** `ring[1..]` are the entries of the devices. */
  ghost predicate Entries(ring: seq<ListHead<Rec<HweDev>>>, list: seq<HweDev>)
    reads list
  {
    |ring| == |list| + 1 && forall p | 0 <= p < |list| :: Holds(ring[p + 1], list[p])
  }

  ghost predicate Holds(node: ListHead<Rec<HweDev>>, dev: HweDev)
    reads dev
  {
    node.owner == Some(Rec(dev.index, dev)) && dev.entry == node
  }

  /** The list with a new device in front. */
  lemma InFront(dev: HweDev, list: seq<HweDev>, node: ListHead<Rec<HweDev>>, ring: seq<ListHead<Rec<HweDev>>>)
    requires dev.Valid() && AllValid(list) && Entries(ring, list) && Holds(node, dev)
    ensures AllValid([dev] + list) && Entries([ring[0], node] + ring[1..], [dev] + list)
    ensures Items([dev] + list) == [Rec(dev.index, dev.pairs.State())] + Items(list)
  {
    hide Inv;
    var all := [dev] + list;
    assert all[0] == dev && forall p | 0 <= p < |list| :: all[p + 1] == list[p];
  }

  lemma ObjectsInFront(dev: HweDev, list: seq<HweDev>)
    ensures Members([dev] + list) == {dev} + Members(list)
    ensures Tables([dev] + list) == {dev.pairs} + Tables(list)
    ensures Bitmaps([dev] + list) == {dev.pairs.bits} + Bitmaps(list)
    ensures Nodes([dev] + list) == (set n | n in dev.pairs.ring) + Nodes(list)
  {
    var all := [dev] + list;
    assert all[0] == dev && forall p | 0 <= p < |list| :: all[p + 1] == list[p];
    assert forall p | 0 < p < |all| :: all[p] == list[p - 1];
  }

  lemma ApartInFront(dev: HweDev, list: seq<HweDev>)
    requires AllApart(list)
    requires dev !in list && dev.pairs !in Tables(list) && dev.pairs.bits !in Bitmaps(list)
    requires forall n | n in dev.pairs.ring :: n !in Nodes(list)
    ensures AllApart([dev] + list)
  {
    var all := [dev] + list;
    assert forall p | 0 <= p < |list| :: Apart(dev, list[p]) && Apart(list[p], dev);
    assert all[0] == dev && forall p | 0 < p < |all| :: all[p] == list[p - 1];
  }

  /** The list without the device at `p`. */
  lemma LeftOut(list: seq<HweDev>, p: nat, ring: seq<ListHead<Rec<HweDev>>>)
    requires AllValid(list) && AllApart(list) && Entries(ring, list) && p < |list|
    ensures var rest := list[..p] + list[p + 1..];
      && AllValid(rest) && AllApart(rest)
      && Entries(Without(ring, p + 1), rest)
      && Items(rest) == Items(list)[..p] + Items(list)[p + 1..]
      && Members(rest) <= Members(list)
      && Tables(rest) <= Tables(list) && Bitmaps(rest) <= Bitmaps(list) && Nodes(rest) <= Nodes(list)
  {
    hide Inv;
    var rest := list[..p] + list[p + 1..];
    assert forall q | 0 <= q < |rest| :: rest[q] == list[if q < p then q else q + 1];
  }

  /** Devices no object of which is touched stay as they are. */
  twostate lemma Untouched(list: seq<HweDev>)
    requires old(AllValid(list)) && old(AllApart(list))
    requires forall p | 0 <= p < |list| :: unchanged(list[p]) && unchanged(list[p].pairs) && unchanged(list[p].pairs.bits)
    requires forall p | 0 <= p < |list| :: unchanged(list[p].pairs.ring)
    ensures AllValid(list) && AllApart(list)
    ensures Items(list) == old(Items(list)) && Nodes(list) == old(Nodes(list))
  {
    hide Inv;
    forall p | 0 <= p < |list|
      ensures list[p].Valid() && list[p].pairs.State() == old(list[p].pairs.State())
    {
    }
  }

  twostate lemma SameNodes(list: seq<HweDev>)
    requires forall p | 0 <= p < |list| :: unchanged(list[p].pairs)
    ensures Nodes(list) == old(Nodes(list))
  {
    assert forall p | 0 <= p < |list| :: list[p].pairs.ring == old(list[p].pairs.ring);
  }

  /** Only the device at `p` has been worked on. */
  twostate lemma OneItem(list: seq<HweDev>, new p: nat)
    requires old(AllValid(list)) && old(AllApart(list)) && p < |list| && list[p].Valid()
    requires unchanged(list)
    requires forall q | 0 <= q < |list| && q != p ::
      unchanged(list[q].pairs) && unchanged(list[q].pairs.bits) && unchanged(list[q].pairs.ring)
    requires forall n | n in list[p].pairs.ring :: n in old(list[p].pairs.ring) || fresh(n)
    ensures AllValid(list) && AllApart(list)
    ensures old(|Items(list)| == |list| && Items(list)[p].index == list[p].index)
    ensures Items(list) == old(Items(list))[p := Rec(list[p].index, list[p].pairs.State())]
  {
    hide Inv;
    forall q | 0 <= q < |list| && q != p
      ensures list[q].Valid() && list[q].pairs.State() == old(list[q].pairs.State())
    {
    }
  }

  twostate lemma OneRing(list: seq<HweDev>, new p: nat)
    requires p < |list| && forall q | 0 <= q < |list| && q != p :: unchanged(list[q].pairs)
    ensures forall n | n in Nodes(list) :: n in old(Nodes(list)) || n in list[p].pairs.ring
    ensures forall n | n in old(list[p].pairs.ring) :: n in old(Nodes(list))
  {
    forall q, i | 0 <= q < |list| && 0 <= i < |list[q].pairs.ring|
      ensures list[q].pairs.ring[i] in old(Nodes(list)) || list[q].pairs.ring[i] in list[p].pairs.ring
    {
      if q != p {
        assert list[q].pairs.ring[i] == old(list[q].pairs.ring[i]);
      }
    }
  }

  lemma DevParts(r: Devs)
    requires DevInv(r)
    ensures |r.bits| == MAX_DEVICES && forall p | 0 <= p < |r.recs| :: r.recs[p].index < MAX_DEVICES
    ensures forall p, q | 0 <= p < q < |r.recs| :: r.recs[p].index != r.recs[q].index
  {
  }

  /** The device found by its number is the one the map has. */
  lemma Listing(r: Devs, index: nat)
    requires DevInv(r)
    ensures match Find(r.recs, index)
      case None => index !in MapOf(r)
      case Some(p) => index in MapOf(r) && MapOf(r)[index] == ToMap(r.recs[p].item.recs)
  {
    hide Inv, ToMap, Find, Weight;
    MapHas(r.recs);
    match Find(r.recs, index)
    case None =>
    case Some(p) =>
  }

  lemma RemoveUpdated(r: Devs, p: nat, item: Pairs)
    requires DevInv(r) && p < |r.recs|
    ensures r.recs[p].index < |r.bits| && Remove(Update(r, p, item), p) == Remove(r, p)
  {
    DevParts(r);
  }

  class HweIface {
    const devs: Table<HweDev>
    /** The devices, in the order of the list. */
    ghost var list: seq<HweDev>

    ghost function Repr(): set<object>
      reads this, devs, Tables(list)
    {
      {this} + devs.Footprint() + Members(list) + Tables(list) + Bitmaps(list) + Nodes(list)
    }

    /** Every entry belongs to its device, and no two parts share an object. */
    ghost predicate Linked()
      reads this, devs, devs.bits, devs.ring, list, Tables(list), Bitmaps(list), Nodes(list)
    {
      && devs.Valid() && Entries(devs.ring, list)
      && AllValid(list) && AllApart(list) && devs.bits !in Bitmaps(list)
    }

    /** The registry of pair registries that the objects hold. */
    ghost function State(): Devs
      reads this, devs, devs.bits, devs.ring, list, Tables(list), Bitmaps(list), Nodes(list)
      requires Linked()
    {
      Reg(devs.bits[..], Items(list))
    }

    ghost predicate Valid()
      reads this, devs, devs.bits, devs.ring, list, Tables(list), Bitmaps(list), Nodes(list)
    {
      Linked() && DevInv(State())
    }

    constructor ()
      ensures Valid() && fresh(Repr()) && State() == Empty(MAX_DEVICES)
    {
      devs := new Table(MAX_DEVICES);
      list := [];
      new;
      EmptyDevInv();
    }

    /** `find_free_dev_index`: -1 when all indexes are taken. */
    method FindFreeDevIndex() returns (i: int)
      requires Valid()
      ensures Valid() && State() == old(State()) && Repr() == old(Repr())
      ensures i == if FirstZero(devs.bits[..]) == MAX_DEVICES then -1 else FirstZero(devs.bits[..])
    {
      i := FirstZero(devs.bits[..]);
      if i == MAX_DEVICES {
        i := -1;
      }
    }

    /** `find_device_by_index`, and where in the list the device is. */
    method FindDeviceByIndex(index: nat) returns (dev: HweDev?, ghost p: nat)
      requires Valid()
      ensures Valid() && State() == old(State()) && Repr() == old(Repr())
      ensures match Find(State().recs, index)
        case None => dev == null
        case Some(q) => p == q < |list| && dev == list[q]
    {
      hide DevInv, Find, Inv;
      DevParts(State());
      ghost var ring, recs := devs.ring, State().recs;
      var pos := devs.head.next;
      p := 0;
      while pos != devs.head
        invariant p <= |list| && pos == (if p < |list| then ring[p + 1] else devs.head)
        invariant forall q | 0 <= q < p :: recs[q].index != index
        decreases |list| - p
      {
        assert Holds(ring[p + 1], list[p]) && recs[p].index == list[p].index;
        if pos.owner.value.item.index == index {
          return pos.owner.value.item, p;
        }
        pos := pos.next;
        p := p + 1;
      }
      return null, p;
    }

    /** `dev` and its entry have been put in front. */
    twostate lemma Added(new dev: HweDev, new node: ListHead<Rec<HweDev>>)
      requires old(Linked()) && list == [dev] + old(list)
      requires devs.Valid() && devs.Footprint() == old(devs.Footprint()) + {node}
      requires devs.ring == [old(devs.ring[0]), node] + old(devs.ring[1..])
      requires dev.Valid() && Holds(node, dev)
      requires fresh(node) && fresh(dev) && fresh(dev.pairs) && fresh(dev.pairs.bits) && fresh(dev.pairs.ring)
      requires forall p | 0 <= p < |old(list)| ::
        && unchanged(old(list)[p]) && unchanged(old(list)[p].pairs)
        && unchanged(old(list)[p].pairs.bits) && unchanged(old(list)[p].pairs.ring)
      ensures Linked() && Items(list) == [Rec(dev.index, dev.pairs.State())] + old(Items(list))
    {
      hide Inv;
      var rest := old(list);
      Untouched(rest);
      InFront(dev, rest, node, old(devs.ring));
      ApartInFront(dev, rest);
      ObjectsInFront(dev, rest);
    }

    twostate lemma AddedObjects(new dev: HweDev, new node: ListHead<Rec<HweDev>>)
      requires list == [dev] + old(list) && devs.Footprint() == old(devs.Footprint()) + {node}
      requires fresh(node) && fresh(dev) && fresh(dev.pairs) && fresh(dev.pairs.bits) && fresh(dev.pairs.ring)
      requires forall p | 0 <= p < |old(list)| :: unchanged(old(list)[p].pairs)
      ensures forall o | o in Repr() :: o in old(Repr()) || fresh(o)
    {
      hide Tables, Bitmaps, Nodes, Members;
      ObjectsInFront(dev, old(list));
      SameNodes(old(list));
    }

    /** `add_dev`. */
    method AddDev(index: nat, memOk: bool) returns (dev: HweDev?)
      requires Valid() && index == FirstZero(devs.bits[..]) < MAX_DEVICES
      modifies this, devs, devs.bits, devs.ring
      ensures Valid() && (dev == null <==> !memOk)
      ensures memOk ==> fresh(dev) && fresh(dev.pairs) && fresh(dev.pairs.bits) && fresh(dev.pairs.ring)
      ensures forall n | n in devs.ring :: n in old(devs.ring) || fresh(n)
      ensures if memOk then list == [dev] + old(list) && dev.index == index else list == old(list)
      ensures State() == if memOk then AddFront(old(State()), Empty(MAX_PAIRS)) else old(State())
      ensures forall o | o in Repr() :: o in old(Repr()) || fresh(o)
    {
      hide FirstZero, DevInv, Inv, AllValid, AllApart, Entries, Ring, Items;
      if !memOk {
        return null;
      }
      DevParts(State());
      AddKeepsInv(State());
      dev := new HweDev(index);
      var node := devs.Prepend(index, dev);
      dev.entry := node;
      list := [dev] + list;
      Added(dev, node);
      AddedObjects(dev, node);
    }

    lemma EntryOf(p: nat)
      requires Linked() && p < |list|
      ensures p + 1 < |devs.ring| && Holds(devs.ring[p + 1], list[p])
      ensures |State().recs| == |list| && State().recs[p].index == list[p].index
      ensures devs.bits !in Bitmaps(list) && forall q | 0 <= q < |list| :: list[q].pairs.bits != devs.bits
    {
      assert forall q | 0 <= q < |list| :: list[q].pairs.bits in Bitmaps(list);
    }

    /** `del_dev`. */
    method DelDev(dev: HweDev, ghost p: nat)
      requires Valid() && p < |list| && dev == list[p]
      modifies this, devs, devs.bits, devs.ring
      ensures Valid() && State() == Remove(old(State()), p)
      ensures list == old(list[..p] + list[p + 1..])
      ensures Repr() <= old(Repr())
    {
      hide DevInv, Inv, AllValid, AllApart, Ring, Entries, Items, Tables, Bitmaps, Nodes, Members;
      EntryOf(p);
      DevParts(State());
      DeviceRegistry.RemoveKeepsInv(State(), p);
      devs.Delete(dev.entry, p);
      Untouched(list);
      LeftOut(list, p, old(devs.ring));
      list := list[..p] + list[p + 1..];
    }

    lemma OwnInRepr()
      ensures this in Repr() && devs in Repr() && devs.bits in Repr() && forall n | n in devs.ring :: n in Repr()
    {
    }

    /** What may be changed when device `p` is worked on, or taken off the list. */
    lemma InRepr(p: nat)
      requires Linked() && p < |list|
      ensures list[p].pairs in Repr() && list[p].pairs.bits in Repr()
      ensures forall n | n in list[p].pairs.ring :: n in Repr()
      ensures this in Repr() && devs in Repr() && devs.bits in Repr() && forall n | n in devs.ring :: n in Repr()
    {
      assert list[p].pairs in Tables(list) && list[p].pairs.bits in Bitmaps(list);
      assert forall n | n in list[p].pairs.ring :: n in Nodes(list);
    }

    /** Work on the objects of one device changes what that device holds, and nothing else. */
    twostate lemma OneDevice(p: nat)
      requires old(Linked()) && p < |list| && list[p].Valid()
      requires unchanged(this)
      requires unchanged(devs)
      requires unchanged(devs.bits)
      requires unchanged(devs.ring)
      requires forall q | 0 <= q < |list| :: unchanged(list[q])
      requires forall q | 0 <= q < |list| && q != p ::
        unchanged(list[q].pairs) && unchanged(list[q].pairs.bits) && unchanged(list[q].pairs.ring)
      requires forall n | n in list[p].pairs.ring :: n in old(list[p].pairs.ring) || fresh(n)
      ensures Linked() && State() == Update(old(State()), p, list[p].pairs.State())
    {
      hide Inv, DevInv, Nodes, Tables, Bitmaps, Members, Items, AllValid, AllApart, Ring, Owned, HweDev.Valid;
      OneItem(list, p);
    }

    twostate lemma OneDeviceObjects(p: nat)
      requires p < |list| && unchanged(this) && unchanged(devs)
      requires forall q | 0 <= q < |list| && q != p :: unchanged(list[q].pairs)
      requires forall n | n in list[p].pairs.ring :: n in old(list[p].pairs.ring) || fresh(n)
      ensures forall o | o in Repr() :: o in old(Repr()) || fresh(o)
      ensures (forall n | n in list[p].pairs.ring :: n in old(list[p].pairs.ring)) ==> Repr() <= old(Repr())
    {
      hide Nodes, Tables, Bitmaps, Members;
      OneRing(list, p);
    }

    /** A listed device is valid, and shares no object with the others or with the list. */
    lemma OneOf(p: nat)
      requires Linked() && p < |list|
      ensures list[p].Valid() && list[p].pairs.bits != devs.bits
      ensures forall q | 0 <= q < |list| && q != p ::
        list[q] != list[p] && list[q].pairs != list[p].pairs && list[q].pairs.bits != list[p].pairs.bits
      ensures forall q, i | 0 <= q < |list| && q != p && 0 <= i < |list[q].pairs.ring| ::
        list[q].pairs.ring[i] !in list[p].pairs.ring
    {
      hide Inv;
      forall q | 0 <= q < |list| && q != p
        ensures Apart(list[q], list[p])
      {
      }
      assert list[p].pairs.bits in Bitmaps(list);
    }

    lemma ItemsOf()
      requires Linked()
      ensures |State().recs| == |list|
      ensures forall p | 0 <= p < |list| :: list[p].Valid() && State().recs[p].item == list[p].pairs.State()
    {
    }

    /** `clear_pairs` on a listed device. */
    method ClearPairsOf(dev: HweDev, ghost p: nat)
      requires Valid() && p < |list| && dev == list[p]
      modifies dev.pairs, dev.pairs.bits, dev.pairs.ring
      ensures Valid() && State() == Update(old(State()), p, Empty(MAX_PAIRS))
      ensures Repr() <= old(Repr()) && dev.pairs.ring == [dev.pairs.head]
    {
      hide DevInv, Inv, AllApart, AllValid, Items, Repr, Linked, HweDev.Valid, Tables, Bitmaps, Nodes, Members, Entries, Ring;
      ItemsOf();
      EmptyInv();
      UpdateKeepsInv(State(), p, Empty(MAX_PAIRS));
      OneOf(p);
      dev.ClearPairs();
      OneDevice(p);
      OneDeviceObjects(p);
    }

    /** `shutdown_dev`: clears the pairs, then gives up entry and index. */
    method ShutdownDev(dev: HweDev, ghost p: nat)
      requires Valid() && p < |list| && dev == list[p]
      modifies Repr()
      ensures Valid() && State() == Remove(old(State()), p)
      ensures list == old(list[..p] + list[p + 1..])
      ensures Repr() <= old(Repr())
    {
      hide DevInv, Inv, Linked, State, Repr, HweDev.Valid;
      ItemsOf();
      RemoveUpdated(State(), p, Empty(MAX_PAIRS));
      InRepr(p);
      ClearPairsOf(dev, p);
      DelDev(dev, p);
    }

    /** `new_dev`. The flags are the outcomes of the kernel calls it makes, in order. Every failure
        leaves list and bitmap exactly as they were. */
    method NewDev(memOk: bool, createOk: bool, kobjOk: bool, pairsOk: bool) returns (dev: HweDev?)
      requires Valid()
      modifies Repr()
      ensures Valid() && forall o | o in Repr() :: o in old(Repr()) || fresh(o)
      ensures dev == null <==> FirstZero(old(devs.bits[..])) == MAX_DEVICES || !memOk || !createOk || !kobjOk || !pairsOk
      ensures dev == null ==> State() == old(State()) && list == old(list)
      ensures dev != null ==>
        && list == [dev] + old(list) && dev.index == FirstZero(old(devs.bits[..])) < MAX_DEVICES
        && State() == AddFront(old(State()), Empty(MAX_PAIRS))
        && fresh(dev) && fresh(dev.pairs) && fresh(dev.pairs.bits) && fresh(dev.pairs.ring)
    {
      hide FirstZero, DevInv, Inv, Linked, Repr;
      DevParts(State());
      ghost var before, devsBefore := State(), list;
      OwnInRepr();
      var idx := FindFreeDevIndex();
      if idx < 0 {
        return null;
      }
      dev := AddDev(idx, memOk);
      if dev == null {
        return null;
      }
      AddFrontRemove(before, Empty(MAX_PAIRS));
      assert forall i | 0 <= i < |devs.ring| :: devs.ring[i] in old(devs.ring) || fresh(devs.ring[i]);
      assert [dev] + devsBefore == list && list[..0] + list[1..] == devsBefore;
      if !createOk {
        DelDev(dev, 0);
        return null;
      }
      if !kobjOk || !pairsOk {
        ShutdownDev(dev, 0);
        return null;
      }
    }

    /** `hwe_add_device`. */
    method HweAddDevice(memOk: bool, createOk: bool, kobjOk: bool, pairsOk: bool) returns (ret: int)
      requires Valid()
      modifies Repr()
      ensures Valid() && forall o | o in Repr() :: o in old(Repr()) || fresh(o)
      ensures (State(), ret) == DevStep(old(State()), New(memOk, createOk, kobjOk, pairsOk))
    {
      var dev := NewDev(memOk, createOk, kobjOk, pairsOk);
      ret := if dev == null then -ENODEV else dev.index;
    }

    /** `hwe_delete_device`. */
    method HweDeleteDevice(index: nat) returns (ret: int)
      requires Valid()
      modifies Repr()
      ensures Valid() && Repr() <= old(Repr())
      ensures (State(), ret) == DevStep(old(State()), Uninstall(index))
    {
      hide DevInv, Inv, Linked, State, Repr, Find, HweDev.Valid;
      ItemsOf();
      var dev, p := FindDeviceByIndex(index);
      if dev == null {
        return -ENODEV;
      }
      ShutdownDev(dev, p);
      ret := 0;
    }

    /** A write to a file of a listed device. */
    method StoreOf(dev: HweDev, ghost p: nat, op: Op) returns (ret: int)
      requires Valid() && op.Valid() && p < |list| && dev == list[p]
      modifies dev.pairs, dev.pairs.bits, dev.pairs.ring
      ensures Valid() && forall o | o in Repr() :: o in old(Repr()) || fresh(o)
      ensures old(InRange(dev.pairs.State()))
      ensures (dev.pairs.State(), ret) == Step(old(dev.pairs.State()), op)
      ensures State() == Update(old(State()), p, dev.pairs.State())
    {
      hide DevInv, Inv, AllApart, AllValid, Items, Repr, Linked, Tables, Bitmaps, Nodes, Members, Entries, Ring;
      ItemsOf();
      OneOf(p);
      InvParts(dev.pairs.State());
      StepKeepsInv(dev.pairs.State(), op);
      UpdateKeepsInv(State(), p, Step(dev.pairs.State(), op).0);
      match op {
        case Add(text, memOk, fileErr) => ret := dev.AddStore(text, memOk, fileErr);
        case Delete(count, i) => ret := dev.DeleteStore(count, i);
        case Clear(count) => ret := dev.ClearStore(count);
      }
      OneDevice(p);
      OneDeviceObjects(p);
    }

    /** A write to a file of the device numbered `index`, if there is one. */
    method WriteFile(index: nat, op: Op) returns (ret: int)
      requires Valid() && op.Valid()
      modifies Repr()
      ensures Valid() && forall o | o in Repr() :: o in old(Repr()) || fresh(o)
      ensures (State(), ret) == DevStep(old(State()), OnPairs(index, op))
    {
      hide DevInv, Inv, Linked, State, Repr, Find, HweDev.Valid;
      ItemsOf();
      var dev, p := FindDeviceByIndex(index);
      if dev == null {
        return -ENOENT;
      }
      InRepr(p);
      ret := StoreOf(dev, p, op);
    }

    /** `pair_show` for the file `i` of the device numbered `index`. */
    method ReadFile(index: nat, i: nat) returns (text: Option<string>)
      requires Valid()
      ensures var m := MapOf(State());
        text == if index in m && i in m[index] then Some(PairToStr(m[index][i])) else None
    {
      hide DevInv, Inv, Linked, Find, HweDev.Valid, PairToStr, ToMap;
      ItemsOf();
      var dev, p := FindDeviceByIndex(index);
      Listing(State(), index);
      text := None;
      if dev != null {
        text := dev.PairShow(i);
      }
    }

    /** The operations processes ask for, one after the other: over every run the objects hold, and the
        operations return, what the state machine says and so what the map of maps says. */
    method Serve(ops: seq<DevOp>) returns (rets: seq<int>)
      requires Valid() && forall i | 0 <= i < |ops| :: ops[i].Valid()
      modifies Repr()
      ensures Valid() && (State(), rets) == DevRun(old(State()), ops)
      ensures DevMapRun(MapOf(old(State())), ops, MapOf(State()), rets)
    {
      hide DevInv, Linked, State, Repr, DevStep, DevRun, MapOf, DevMapRun;
      ghost var start := State();
      DevRunRefinesMap(start, ops);
      rets := [];
      NoOps(start);
      for i := 0 to |ops|
        invariant Valid() && (State(), rets) == DevRun(start, ops[..i])
        invariant forall o | o in Repr() :: o in old(Repr()) || fresh(o)
      {
        DevRunSnoc(start, ops[..i], ops[i]);
        assert ops[..i + 1] == ops[..i] + [ops[i]];
        var ret;
        match ops[i] {
          case New(memOk, createOk, kobjOk, pairsOk) => ret := HweAddDevice(memOk, createOk, kobjOk, pairsOk);
          case Uninstall(index) => ret := HweDeleteDevice(index);
          case OnPairs(index, op) => ret := WriteFile(index, op);
        }
        rets := rets + [ret];
      }
      assert ops[..|ops|] == ops;
    }

    lemma NoOps(r: Devs)
      requires DevInv(r)
      ensures DevRun(r, []) == (r, [])
    {
    }
  }
}
