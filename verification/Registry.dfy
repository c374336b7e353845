/** A registry of kernel/hwe_sysfs.c: a list of indexed entries beside a bitmap of taken indexes.
    Both the pairs of a device and the devices of an interface are kept this way. */
module Registry {
  import opened Base

  datatype Rec<+T> = Rec(index: nat, item: T)

  datatype Reg<+T> = Reg(bits: seq<bool>, recs: seq<Rec<T>>)

  /** `find_first_zero_bit`: the least clear bit, or the size of the bitmap. */
  function FirstZero(bits: seq<bool>): (i: nat)
    ensures i <= |bits|
    ensures i < |bits| ==> !bits[i]
    ensures forall j | 0 <= j < i :: bits[j]
  {
    if bits == [] || !bits[0] then 0 else 1 + FirstZero(bits[1..])
  }

  /** `bitmap_weight`. */
  function Weight(bits: seq<bool>): nat {
    if bits == [] then 0 else (if bits[0] then 1 else 0) + Weight(bits[1..])
  }

  ghost predicate Listed<T>(recs: seq<Rec<T>>, i: nat) {
    exists p | 0 <= p < |recs| :: recs[p].index == i
  }

  /** Position `p`, and no other, carries index `i`. */
  ghost predicate OnlyAt<T>(recs: seq<Rec<T>>, p: int, i: nat) {
    0 <= p < |recs| && recs[p].index == i && forall q | 0 <= q < |recs| && q != p :: recs[q].index != i
  }

  /** List and bitmap agree: the listed indexes are distinct and are exactly the set bits, so the
      bitmap's weight is the length of the list. */
  ghost predicate Agree<T>(r: Reg<T>) {
    && (forall p, q | 0 <= p < q < |r.recs| :: r.recs[p].index != r.recs[q].index)
    && (forall p | 0 <= p < |r.recs| :: r.recs[p].index < |r.bits| && r.bits[r.recs[p].index])
    && (forall i: nat | i < |r.bits| && r.bits[i] :: Listed(r.recs, i))
    && Weight(r.bits) == |r.recs|
  }

  function Empty<T>(size: nat): Reg<T> {
    Reg(seq(size, _ => false), [])
  }

  function AddTail<T>(r: Reg<T>, item: T): Reg<T>
    requires FirstZero(r.bits) < |r.bits|
  {
    var i := FirstZero(r.bits);
    Reg(r.bits[i := true], r.recs + [Rec(i, item)])
  }

  function AddFront<T>(r: Reg<T>, item: T): Reg<T>
    requires FirstZero(r.bits) < |r.bits|
  {
    var i := FirstZero(r.bits);
    Reg(r.bits[i := true], [Rec(i, item)] + r.recs)
  }

  function Remove<T>(r: Reg<T>, p: nat): Reg<T>
    requires p < |r.recs| && r.recs[p].index < |r.bits|
  {
    Reg(r.bits[r.recs[p].index := false], r.recs[..p] + r.recs[p + 1..])
  }

  /** The first position that carries index `i`. */
  function Find<T>(recs: seq<Rec<T>>, i: nat): (r: Option<nat>)
    ensures r.Some? ==> r.value < |recs| && recs[r.value].index == i
    ensures r.Some? ==> forall p | 0 <= p < r.value :: recs[p].index != i
    ensures r.None? <==> !Listed(recs, i)
  {
    if recs == [] then None
    else if recs[0].index == i then Some(0)
    else
      assert recs == [recs[0]] + recs[1..];
      match Find(recs[1..], i) case None => None case Some(p) => Some(p + 1)
  }

  lemma {:induction false} WeightUpdate(bits: seq<bool>, i: nat, b: bool)
    requires i < |bits|
    ensures Weight(bits[i := b]) == Weight(bits) + (if b then 1 else 0) - (if bits[i] then 1 else 0)
  {
    if i == 0 {
      assert bits[i := b][1..] == bits[1..];
    } else {
      assert bits[i := b][1..] == bits[1..][i - 1 := b];
      WeightUpdate(bits[1..], i - 1, b);
    }
  }

  lemma {:induction false} WeightZero(n: nat)
    ensures Weight(seq(n, _ => false)) == 0
  {
    if n > 0 {
      assert seq(n, _ => false)[1..] == seq(n - 1, _ => false);
      WeightZero(n - 1);
    }
  }

  lemma {:induction false} WeightBound(bits: seq<bool>)
    ensures Weight(bits) <= |bits|
    ensures Weight(bits) == |bits| <==> FirstZero(bits) == |bits|
  {
    if bits != [] {
      WeightBound(bits[1..]);
    }
  }

  lemma EmptyAgrees<T>(size: nat)
    ensures Agree(Empty<T>(size))
  {
    WeightZero(size);
  }

  lemma AddTailAgrees<T>(r: Reg<T>, item: T)
    requires Agree(r) && FirstZero(r.bits) < |r.bits|
    ensures Agree(AddTail(r, item))
  {
    hide Weight, FirstZero;
    var i := FirstZero(r.bits);
    var r' := AddTail(r, item);
    WeightUpdate(r.bits, i, true);
    forall j: nat | j < |r'.bits| && r'.bits[j]
      ensures Listed(r'.recs, j)
    {
      if j == i {
        assert r'.recs[|r.recs|].index == j;
      } else {
        var p :| 0 <= p < |r.recs| && r.recs[p].index == j;
        assert r'.recs[p].index == j;
      }
    }
  }

  lemma AddFrontAgrees<T>(r: Reg<T>, item: T)
    requires Agree(r) && FirstZero(r.bits) < |r.bits|
    ensures Agree(AddFront(r, item))
  {
    hide Weight, FirstZero;
    var i := FirstZero(r.bits);
    var r' := AddFront(r, item);
    WeightUpdate(r.bits, i, true);
    forall j: nat | j < |r'.bits| && r'.bits[j]
      ensures Listed(r'.recs, j)
    {
      if j == i {
        assert r'.recs[0].index == j;
      } else {
        var p :| 0 <= p < |r.recs| && r.recs[p].index == j;
        assert r'.recs[p + 1].index == j;
      }
    }
  }

  /** `rest` is `recs` without position `p`. */
  ghost predicate IsRest<T>(recs: seq<Rec<T>>, p: nat, rest: seq<Rec<T>>) {
    && p < |recs| && |rest| == |recs| - 1
    && (forall q | 0 <= q < p :: rest[q] == recs[q])
    && (forall q | p < q < |recs| :: rest[q - 1] == recs[q])
    && (forall q | p <= q < |rest| :: rest[q] == recs[q + 1])
  }

  lemma RemoveIsRest<T>(r: Reg<T>, p: nat)
    requires p < |r.recs| && r.recs[p].index < |r.bits|
    ensures IsRest(r.recs, p, Remove(r, p).recs)
  {
  }

  lemma RestListed<T>(recs: seq<Rec<T>>, p: nat, rest: seq<Rec<T>>, j: nat)
    requires IsRest(recs, p, rest) && Listed(recs, j) && recs[p].index != j
    ensures Listed(rest, j)
  {
    var q :| 0 <= q < |recs| && recs[q].index == j;
    assert rest[if q < p then q else q - 1].index == j;
  }

  lemma RestAgrees<T>(r: Reg<T>, p: nat, r': Reg<T>)
    requires Agree(r) && IsRest(r.recs, p, r'.recs) && r'.bits == r.bits[r.recs[p].index := false]
    ensures Agree(r')
  {
    hide Weight, Listed;
    WeightUpdate(r.bits, r.recs[p].index, false);
    forall j: nat | j < |r'.bits| && r'.bits[j]
      ensures Listed(r'.recs, j)
    {
      RestListed(r.recs, p, r'.recs, j);
    }
  }

  lemma RemoveAgrees<T>(r: Reg<T>, p: nat)
    requires Agree(r) && p < |r.recs|
    ensures Agree(Remove(r, p))
  {
    hide Weight;
    assert r.recs[p].index < |r.bits|;
    hide Agree, IsRest;
    RemoveIsRest(r, p);
    RestAgrees(r, p, Remove(r, p));
  }

  /** Adding at the front and removing that entry again restores list and bitmap exactly. */
  lemma AddFrontRemove<T>(r: Reg<T>, item: T)
    requires FirstZero(r.bits) < |r.bits|
    ensures Remove(AddFront(r, item), 0) == r
  {
    hide FirstZero;
    var i := FirstZero(r.bits);
    assert r.bits[i := true][i := false] == r.bits;
    assert ([Rec(i, item)] + r.recs)[1..] == r.recs;
  }

  // ---- The registry as a finite map from index to item ----

  ghost function ToMap<T>(recs: seq<Rec<T>>): map<nat, T> {
    map i: nat | i in (set p | 0 <= p < |recs| :: recs[p].index) && Find(recs, i).Some? :: recs[Find(recs, i).value].item
  }

  /** Under distinct indexes, `m` is the map of the list. */
  lemma MapIs<T>(recs: seq<Rec<T>>, m: map<nat, T>)
    requires forall p, q | 0 <= p < q < |recs| :: recs[p].index != recs[q].index
    requires forall p | 0 <= p < |recs| :: recs[p].index in m && m[recs[p].index] == recs[p].item
    requires forall i | i in m :: Listed(recs, i)
    ensures ToMap(recs) == m
  {
    hide Find;
    var t := ToMap(recs);
    forall i: nat
      ensures i in t <==> i in m
      ensures i in t ==> t[i] == m[i]
    {
      var f := Find(recs, i);
    }
  }

  lemma MapHas<T>(recs: seq<Rec<T>>)
    requires forall p, q | 0 <= p < q < |recs| :: recs[p].index != recs[q].index
    ensures forall p | 0 <= p < |recs| :: recs[p].index in ToMap(recs) && ToMap(recs)[recs[p].index] == recs[p].item
    ensures forall i | i in ToMap(recs) :: Listed(recs, i)
  {
    hide Find;
    forall p | 0 <= p < |recs|
      ensures recs[p].index in ToMap(recs) && ToMap(recs)[recs[p].index] == recs[p].item
    {
      var f := Find(recs, recs[p].index);
      assert Listed(recs, recs[p].index);
    }
  }

  /** The bitmap allocator seen on the map: it hands out the least index that is not taken. */
  lemma LeastFree<T>(r: Reg<T>)
    requires Agree(r)
    ensures var i := FirstZero(r.bits); var m := ToMap(r.recs);
      && i !in m
      && (forall j: nat | j < i :: j in m)
      && (forall j | j in m :: j < |r.bits|)
  {
    hide FirstZero, Find, Weight;
    MapHas(r.recs);
    var i, m := FirstZero(r.bits), ToMap(r.recs);
    forall j: nat | j < i
      ensures j in m
    {
      assert Listed(r.recs, j);
    }
  }

  lemma TailMap<T>(recs: seq<Rec<T>>, all: seq<Rec<T>>, i: nat, item: T)
    requires forall p, q | 0 <= p < q < |recs| :: recs[p].index != recs[q].index
    requires i !in ToMap(recs) && |all| == |recs| + 1 && all[|recs|] == Rec(i, item)
    requires forall q | 0 <= q < |recs| :: all[q] == recs[q]
    ensures ToMap(all) == ToMap(recs)[i := item]
  {
    hide ToMap;
    MapHas(recs);
    forall j | j in ToMap(recs)[i := item]
      ensures Listed(all, j)
    {
      if j == i {
        assert all[|recs|].index == j;
      } else {
        var p :| 0 <= p < |recs| && recs[p].index == j;
        assert all[p].index == j;
      }
    }
    MapIs(all, ToMap(recs)[i := item]);
  }

  lemma FrontMap<T>(recs: seq<Rec<T>>, all: seq<Rec<T>>, i: nat, item: T)
    requires forall p, q | 0 <= p < q < |recs| :: recs[p].index != recs[q].index
    requires i !in ToMap(recs) && |all| == |recs| + 1 && all[0] == Rec(i, item)
    requires forall q | 0 < q < |all| :: all[q] == recs[q - 1]
    ensures ToMap(all) == ToMap(recs)[i := item]
  {
    hide ToMap;
    MapHas(recs);
    forall j | j in ToMap(recs)[i := item]
      ensures Listed(all, j)
    {
      if j == i {
        assert all[0].index == j;
      } else {
        var p :| 0 <= p < |recs| && recs[p].index == j;
        assert all[p + 1] == recs[p];
      }
    }
    MapIs(all, ToMap(recs)[i := item]);
  }

  /** Adding an entry, at either end, puts its item at the least free index of the map. */
  lemma AddMaps<T>(r: Reg<T>, item: T)
    requires Agree(r) && FirstZero(r.bits) < |r.bits|
    ensures ToMap(AddTail(r, item).recs) == ToMap(r.recs)[FirstZero(r.bits) := item]
    ensures ToMap(AddFront(r, item).recs) == ToMap(r.recs)[FirstZero(r.bits) := item]
  {
    hide FirstZero, ToMap, Weight;
    LeastFree(r);
    TailMap(r.recs, AddTail(r, item).recs, FirstZero(r.bits), item);
    FrontMap(r.recs, AddFront(r, item).recs, FirstZero(r.bits), item);
  }

  lemma RestMap<T>(recs: seq<Rec<T>>, p: nat, rest: seq<Rec<T>>)
    requires forall p, q | 0 <= p < q < |recs| :: recs[p].index != recs[q].index
    requires IsRest(recs, p, rest)
    ensures ToMap(rest) == ToMap(recs) - {recs[p].index}
  {
    hide ToMap;
    MapHas(recs);
    forall j | j in ToMap(recs) && j != recs[p].index
      ensures Listed(rest, j)
    {
      var q :| 0 <= q < |recs| && recs[q].index == j;
      assert rest[if q < p then q else q - 1].index == j;
    }
    MapIs(rest, ToMap(recs) - {recs[p].index});
  }

  /** Removing an entry removes its index from the map. */
  lemma RemoveMaps<T>(r: Reg<T>, p: nat)
    requires Agree(r) && p < |r.recs|
    ensures ToMap(Remove(r, p).recs) == ToMap(r.recs) - {r.recs[p].index}
  {
    hide ToMap, Weight, IsRest;
    RemoveIsRest(r, p);
    RestMap(r.recs, p, Remove(r, p).recs);
  }

  /** Deleting the entries one by one from the front. */
  function RemoveAll<T>(r: Reg<T>): Reg<T>
    requires forall p | 0 <= p < |r.recs| :: r.recs[p].index < |r.bits|
    decreases |r.recs|
  {
    if r.recs == [] then r else RemoveAll(Remove(r, 0))
  }

  /** Clearing leaves no entry and no set bit. */
  lemma {:induction false} RemoveAllEmpties<T>(r: Reg<T>)
    requires Agree(r)
    ensures RemoveAll(r) == Empty(|r.bits|)
    decreases |r.recs|
  {
    hide Weight;
    if r.recs == [] {
      assert forall i: nat | i < |r.bits| :: r.bits[i] ==> Listed(r.recs, i);
      assert r.bits == seq(|r.bits|, _ => false);
    } else {
      RemoveAgrees(r, 0);
      RemoveAllEmpties(Remove(r, 0));
    }
  }

  lemma MapSnoc<T>(recs: seq<Rec<T>>, x: Rec<T>)
    requires forall p, q | 0 <= p < q < |recs| :: recs[p].index != recs[q].index
    requires forall p | 0 <= p < |recs| :: recs[p].index != x.index
    ensures x.index !in ToMap(recs)
    ensures ToMap(recs + [x]) == ToMap(recs)[x.index := x.item]
  {
    hide ToMap;
    MapHas(recs);
    var all, m := recs + [x], ToMap(recs)[x.index := x.item];
    forall j | j in m
      ensures Listed(all, j)
    {
      if j == x.index {
        assert all[|recs|].index == j;
      } else {
        var p :| 0 <= p < |recs| && recs[p].index == j;
        assert all[p].index == j;
      }
    }
    MapIs(all, m);
  }

  lemma MapEmpty<T>()
    ensures ToMap<T>([]) == map[]
  {
  }

  /** The map of a registry has as many entries as its list. */
  lemma {:induction false} MapSize<T>(recs: seq<Rec<T>>)
    requires forall p, q | 0 <= p < q < |recs| :: recs[p].index != recs[q].index
    ensures |ToMap(recs)| == |recs|
  {
    hide Find, ToMap;
    if recs == [] {
      MapEmpty<T>();
    } else {
      var n := |recs| - 1;
      MapSize(recs[..n]);
      MapSnoc(recs[..n], recs[n]);
      assert recs[..n] + [recs[n]] == recs;
      var m := ToMap(recs[..n]);
      assert m[recs[n].index := recs[n].item].Keys == m.Keys + {recs[n].index};
    }
  }
}
