/** The devices of one interface as a state machine on values: what every run of creations,
    removals and pair operations keeps. */
module DeviceRegistry {
  import opened Base
  import opened Registry
  import opened PairCodec
  import opened PairRegistry

  /** The registry of an interface; every device carries the registry of its pairs. */
  type Devs = Reg<Pairs>

  /** `New` carries the outcomes of the kernel calls of `new_dev`, in order. */
  datatype DevOp =
    | New(memOk: bool, createOk: bool, kobjOk: bool, pairsOk: bool)
    | Uninstall(index: nat)
    | OnPairs(index: nat, op: Op)
  {
    predicate Valid() {
      OnPairs? ==> op.Valid()
    }
  }

  ghost predicate DevInv(r: Devs) {
    Agree(r) && |r.bits| == MAX_DEVICES && forall p | 0 <= p < |r.recs| :: Inv(r.recs[p].item)
  }

  /** The list with a new item for the entry at position `p`. */
  function Update(r: Devs, p: nat, item: Pairs): Devs
    requires p < |r.recs|
  {
    r.(recs := r.recs[p := Rec(r.recs[p].index, item)])
  }

  /** `hwe_add_device`, `hwe_delete_device`, and the writes to the files of a device. */
  ghost function DevStep(r: Devs, op: DevOp): (Devs, int)
    requires DevInv(r)
  {
    match op
    case New(memOk, createOk, kobjOk, pairsOk) =>
      if FirstZero(r.bits) == |r.bits| || !memOk || !createOk || !kobjOk || !pairsOk then (r, -ENODEV)
      else (AddFront(r, Empty(MAX_PAIRS)), FirstZero(r.bits))
    case Uninstall(index) =>
      (match Find(r.recs, index)
       case None => (r, -ENODEV)
       case Some(p) => (Remove(r, p), 0))
    case OnPairs(index, op) =>
      (match Find(r.recs, index)
       case None => (r, -ENOENT)
       case Some(p) =>
         var (pairs, ret) := Step(r.recs[p].item, op);
         (Update(r, p, pairs), ret))
  }

  lemma UpdateAgrees(r: Devs, p: nat, item: Pairs)
    requires Agree(r) && p < |r.recs|
    ensures Agree(Update(r, p, item))
  {
    hide Weight;
    var r' := Update(r, p, item);
    forall i: nat | i < |r'.bits| && r'.bits[i]
      ensures Listed(r'.recs, i)
    {
      var q :| 0 <= q < |r.recs| && r.recs[q].index == i;
      assert r'.recs[q].index == i;
    }
  }

  lemma AddKeepsInv(r: Devs)
    requires DevInv(r) && FirstZero(r.bits) < |r.bits|
    ensures DevInv(AddFront(r, Empty(MAX_PAIRS)))
  {
    hide Agree, Inv, FirstZero;
    EmptyInv();
    AddFrontAgrees(r, Empty(MAX_PAIRS));
  }

  lemma RemoveKeepsInv(r: Devs, p: nat)
    requires DevInv(r) && p < |r.recs|
    ensures DevInv(Remove(r, p))
  {
    hide Inv, Weight;
    RemoveAgrees(r, p);
    assert forall q | 0 <= q < |r.recs| - 1 :: Remove(r, p).recs[q] == r.recs[if q < p then q else q + 1];
  }

  lemma UpdateKeepsInv(r: Devs, p: nat, item: Pairs)
    requires DevInv(r) && p < |r.recs| && Inv(item)
    ensures DevInv(Update(r, p, item))
  {
    hide Inv, Agree;
    UpdateAgrees(r, p, item);
  }

  /** An interface starts out without devices. */
  lemma EmptyDevInv()
    ensures DevInv(Empty(MAX_DEVICES))
  {
    EmptyAgrees<Pairs>(MAX_DEVICES);
  }

  lemma DevStepKeepsInv(r: Devs, op: DevOp)
    requires DevInv(r)
    ensures DevInv(DevStep(r, op).0)
  {
    hide Agree, Inv, Find, FirstZero, Step, Update;
    match op
    case New(_, _, _, _) =>
      if FirstZero(r.bits) < |r.bits| {
        AddKeepsInv(r);
      }
    case Uninstall(index) =>
      if p :| Find(r.recs, index) == Some(p) {
        RemoveKeepsInv(r, p);
      }
    case OnPairs(index, pairOp) =>
      if p :| Find(r.recs, index) == Some(p) {
        var pairs := r.recs[p].item;
        InvParts(pairs);
        StepKeepsInv(pairs, pairOp);
        UpdateKeepsInv(r, p, Step(pairs, pairOp).0);
      }
  }

  /** A run from `r`: the final interface and the value every operation returned. */
  ghost function DevRun(r: Devs, ops: seq<DevOp>): (run: (Devs, seq<int>))
    requires DevInv(r)
    ensures DevInv(run.0) && |run.1| == |ops|
    decreases |ops|
  {
    if ops == [] then (r, [])
    else
      DevStepKeepsInv(r, ops[0]);
      var (r', ret) := DevStep(r, ops[0]);
      var (r'', rets) := DevRun(r', ops[1..]);
      (r'', [ret] + rets)
  }

  lemma {:induction false} DevRunSnoc(r: Devs, ops: seq<DevOp>, op: DevOp)
    requires DevInv(r)
    ensures var (r', rets) := DevRun(r, ops); var (r'', ret) := DevStep(r', op);
      DevRun(r, ops + [op]) == (r'', rets + [ret])
    decreases |ops|
  {
    hide DevInv, DevStep;
    if ops == [] {
      assert ops + [op] == [op] && [op][1..] == [];
      DevStepKeepsInv(r, op);
      assert DevRun(DevStep(r, op).0, []) == (DevStep(r, op).0, []);
      assert DevRun(r, ops) == (r, []);
      assert DevRun(r, [op]) == (DevStep(r, op).0, [DevStep(r, op).1] + []);
      assert [] + [DevStep(r, op).1] == [DevStep(r, op).1] + [];
    } else {
      DevStepKeepsInv(r, ops[0]);
      assert (ops + [op])[1..] == ops[1..] + [op];
      var (next, first) := DevStep(r, ops[0]);
      DevRunSnoc(next, ops[1..], op);
      var (last, rets) := DevRun(next, ops[1..]);
      assert DevRun(r, ops) == (last, [first] + rets);
      assert [first] + (rets + [DevStep(last, op).1]) == [first] + rets + [DevStep(last, op).1];
    }
  }

  /** Over every run: an index bit is set iff exactly one listed device has that index, at most 256
      devices exist, and the next creation takes the least index not in use. */
  lemma DevicesOverRuns(r: Devs, ops: seq<DevOp>, i: nat)
    requires DevInv(r) && i < MAX_DEVICES
    ensures var r' := DevRun(r, ops).0;
      && |r'.bits| == MAX_DEVICES
      && (r'.bits[i] <==> exists p :: OnlyAt(r'.recs, p, i))
      && |r'.recs| <= MAX_DEVICES
    ensures var r' := DevRun(r, ops).0; var free := FirstZero(r'.bits);
      if |r'.recs| == MAX_DEVICES then DevStep(r', New(true, true, true, true)) == (r', -ENODEV)
      else
        && free < |r'.bits|
        && DevStep(r', New(true, true, true, true)) == (AddFront(r', Empty(MAX_PAIRS)), free)
        && free !in ToMap(r'.recs) && (forall j: nat | j < free :: j in ToMap(r'.recs))
        && ToMap(AddFront(r', Empty(MAX_PAIRS)).recs) == ToMap(r'.recs)[free := Empty(MAX_PAIRS)]
  {
    hide DevRun, Inv, Weight, FirstZero, ToMap;
    var r' := DevRun(r, ops).0;
    if r'.bits[i] {
      var p :| 0 <= p < |r'.recs| && r'.recs[p].index == i;
      assert OnlyAt(r'.recs, p, i);
    }
    if p :| OnlyAt(r'.recs, p, i) {
      assert r'.bits[r'.recs[p].index];
    }
    WeightBound(r'.bits);
    LeastFree(r');
    if FirstZero(r'.bits) < |r'.bits| {
      AddMaps(r', Empty(MAX_PAIRS));
    }
  }

  /** Taking the newest device off again, whatever it holds by then, leaves the interface exactly as
      it was before the creation: the undoing of a creation that fails after entry and index were taken. */
  lemma FailedCreationRollsBack(r: Devs, item: Pairs)
    requires DevInv(r) && FirstZero(r.bits) < |r.bits|
    ensures Remove(Update(AddFront(r, Empty(MAX_PAIRS)), 0, item), 0) == r
  {
    hide Agree, Inv, FirstZero;
    AddFrontRemove(r, Empty(MAX_PAIRS));
  }

  // ---- The interface as a finite map of finite maps ----

  /** The pairs of every device, by device number. */
  type DevMap = map<nat, PairMap>

  ghost function PairsOfAll(m: map<nat, Pairs>): DevMap {
    map i | i in m :: ToMap(m[i].recs)
  }

  ghost function MapOf(r: Devs): DevMap {
    PairsOfAll(ToMap(r.recs))
  }

  /** What an operation does to the map. A creation takes the least free number, or fails and changes
      nothing; a removal takes the device and its pairs away; a write to a device's file changes that
      device, as `PairRegistry.Next` says, and no other. */
  ghost predicate DevNext(m: DevMap, op: DevOp, m': DevMap, ret: int) {
    match op
    case New(memOk, createOk, kobjOk, pairsOk) =>
      if |m| == MAX_DEVICES || !(memOk && createOk && kobjOk && pairsOk) then m' == m && ret == -ENODEV
      else exists i: nat :: LeastAbsent(m, i) && m' == m[i := map[]] && ret == i
    case Uninstall(i) =>
      if i in m then m' == m - {i} && ret == 0 else m' == m && ret == -ENODEV
    case OnPairs(i, op) =>
      if i in m then exists pairs :: Next(m[i], op, pairs, ret) && m' == m[i := pairs] else m' == m && ret == -ENOENT
  }

  ghost predicate DevMapRun(m: DevMap, ops: seq<DevOp>, m': DevMap, rets: seq<int>)
    decreases |ops|
  {
    if ops == [] then m' == m && rets == []
    else rets != [] && exists next :: DevNext(m, ops[0], next, rets[0]) && DevMapRun(next, ops[1..], m', rets[1..])
  }

  lemma AgreeDistinct(r: Devs)
    requires Agree(r)
    ensures forall p, q | 0 <= p < q < |r.recs| :: r.recs[p].index != r.recs[q].index
  {
  }

  /** Changing the item at one position changes the map at its index. */
  lemma UpdateMaps(r: Devs, p: nat, item: Pairs)
    requires Agree(r) && p < |r.recs|
    ensures ToMap(Update(r, p, item).recs) == ToMap(r.recs)[r.recs[p].index := item]
  {
    hide ToMap, Weight;
    var recs := Update(r, p, item).recs;
    var m := ToMap(r.recs)[r.recs[p].index := item];
    MapHas(r.recs);
    forall i | i in m
      ensures Listed(recs, i)
    {
      if i == r.recs[p].index {
        assert recs[p].index == i;
      } else {
        var q :| 0 <= q < |r.recs| && r.recs[q].index == i;
        assert recs[q].index == i;
      }
    }
    MapIs(recs, m);
  }

  lemma NewRefines(r: Devs, op: DevOp)
    requires DevInv(r) && op.New?
    ensures DevNext(MapOf(r), op, MapOf(DevStep(r, op).0), DevStep(r, op).1)
  {
    hide Inv, FirstZero, ToMap, Weight;
    WeightBound(r.bits);
    MapSize(r.recs);
    assert MapOf(r).Keys == ToMap(r.recs).Keys;
    if FirstZero(r.bits) < |r.bits| {
      LeastFree(r);
      AddMaps(r, Empty(MAX_PAIRS));
      MapEmpty<Pair>();
      assert LeastAbsent(MapOf(r), FirstZero(r.bits));
    }
  }

  lemma UninstallRefines(r: Devs, i: nat)
    requires DevInv(r)
    ensures DevNext(MapOf(r), Uninstall(i), MapOf(DevStep(r, Uninstall(i)).0), DevStep(r, Uninstall(i)).1)
  {
    hide Inv, ToMap, Weight, Find, Remove;
    MapHas(r.recs);
    match Find(r.recs, i)
    case None =>
    case Some(p) => RemoveMaps(r, p);
  }

  lemma WriteRefines(r: Devs, i: nat, op: Op)
    requires DevInv(r)
    ensures DevNext(MapOf(r), OnPairs(i, op), MapOf(DevStep(r, OnPairs(i, op)).0), DevStep(r, OnPairs(i, op)).1)
  {
    hide Inv, ToMap, Weight, Find, Update, Step, Next;
    MapHas(r.recs);
    match Find(r.recs, i)
    case None =>
    case Some(p) =>
      InvParts(r.recs[p].item);
      StepRefinesMap(r.recs[p].item, op);
      UpdateMaps(r, p, Step(r.recs[p].item, op).0);
  }

  /** The interface behaves as the map of maps: every operation's effect and return value are those
      of the map. */
  lemma DevStepRefinesMap(r: Devs, op: DevOp)
    requires DevInv(r)
    ensures DevNext(MapOf(r), op, MapOf(DevStep(r, op).0), DevStep(r, op).1)
  {
    hide DevInv, MapOf, DevNext, DevStep;
    match op
    case New(_, _, _, _) => NewRefines(r, op);
    case Uninstall(i) => UninstallRefines(r, i);
    case OnPairs(i, pairOp) => WriteRefines(r, i, pairOp);
  }

  /** Over every run too, with all return values. */
  lemma {:induction false} DevRunRefinesMap(r: Devs, ops: seq<DevOp>)
    requires DevInv(r)
    ensures DevMapRun(MapOf(r), ops, MapOf(DevRun(r, ops).0), DevRun(r, ops).1)
    decreases |ops|
  {
    hide DevInv, MapOf, DevNext, DevStep;
    if ops != [] {
      DevStepRefinesMap(r, ops[0]);
      DevStepKeepsInv(r, ops[0]);
      var r' := DevStep(r, ops[0]).0;
      DevRunRefinesMap(r', ops[1..]);
      assert DevRun(r, ops).1[1..] == DevRun(r', ops[1..]).1;
    }
  }
}
