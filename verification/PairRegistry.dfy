/** The pairs of one device (kernel/hwe_sysfs.c): a state machine over list and bitmap, its
    invariant over every run, and its refinement of a finite map. */
module PairRegistry {
  import opened Base
  import opened Registry
  import opened PairCodec

  type Pairs = Reg<Pair>

  /** `find_pair`: the first synchronous pair with this request. */
  function FindPair(recs: seq<Rec<Pair>>, req: seq<byte>): (r: Option<nat>)
    ensures r.Some? ==> r.value < |recs| && !recs[r.value].item.asyncRx && recs[r.value].item.req == req
    ensures r.Some? ==> forall p | 0 <= p < r.value :: recs[p].item.asyncRx || recs[p].item.req != req
    ensures r.None? ==> forall p | 0 <= p < |recs| :: recs[p].item.asyncRx || recs[p].item.req != req
  {
    if recs == [] then None
    else if !recs[0].item.asyncRx && recs[0].item.req == req then Some(0)
    else
      assert forall p | 1 <= p < |recs| :: recs[p] == recs[1..][p - 1];
      match FindPair(recs[1..], req) case None => None case Some(p) => Some(p + 1)
  }

  /** `find_response`. */
  function FindResponse(r: Pairs, req: seq<byte>): Option<Pair> {
    match FindPair(r.recs, req) case None => None case Some(p) => Some(r.recs[p].item)
  }

  /** The writes to the files of a device. `memOk` and `fileErr` are the outcomes of `kmalloc` and
      `sysfs_create_file`; the index of a deletion is absent when its text is no number. */
  datatype Op =
    | Add(text: string, memOk: bool, fileErr: int)
    | Delete(count: nat, index: Option<nat>)
    | Clear(count: nat)
  {
    predicate Valid() {
      Add? ==> fileErr <= 0
    }
  }

  /** `pair_show`: the text of the pair with index `i`, if there is one. */
  function ShowPair(r: Pairs, i: nat): Option<string> {
    match Find(r.recs, i) case None => None case Some(p) => Some(PairToStr(r.recs[p].item))
  }

  predicate InRange(r: Pairs) {
    forall p | 0 <= p < |r.recs| :: r.recs[p].index < |r.bits|
  }

  /** `dev_add_store`. */
  function AddStep(r: Pairs, text: string, memOk: bool, fileErr: int): (Pairs, int) {
    if !memOk then (r, -EINVAL)
    else match StrToPair(text)
      case Err(_) => (r, -EINVAL)
      case Ok(p) =>
        if FirstZero(r.bits) == |r.bits| then (r, -EINVAL)
        else if FindPair(r.recs, p.req).Some? then (r, -EINVAL)
        else if fileErr != 0 then (r, fileErr)
        else (AddTail(r, p), |text|)
  }

  /** `dev_delete_store`. */
  function DeleteStep(r: Pairs, count: nat, index: Option<nat>): (Pairs, int)
    requires InRange(r)
  {
    if count == 0 || index.None? then (r, -EINVAL)
    else match Find(r.recs, index.value)
      case None => (r, -EINVAL)
      case Some(p) => (Remove(r, p), count)
  }

  /** `dev_clear_store`. */
  function ClearStep(r: Pairs, count: nat): (Pairs, int)
    requires InRange(r)
  {
    if count == 0 then (r, -EIO) else (RemoveAll(r), count)
  }

  function Step(r: Pairs, op: Op): (Pairs, int)
    requires InRange(r)
  {
    match op
    case Add(text, memOk, fileErr) => AddStep(r, text, memOk, fileErr)
    case Delete(count, index) => DeleteStep(r, count, index)
    case Clear(count) => ClearStep(r, count)
  }

  /** What every run keeps. */
  ghost predicate Inv(r: Pairs) {
    && Agree(r) && |r.bits| == MAX_PAIRS
    && (forall p | 0 <= p < |r.recs| :: WellFormed(r.recs[p].item))
    && DistinctRequests(r.recs)
  }

  ghost predicate DistinctRequests(recs: seq<Rec<Pair>>) {
    forall p, q | 0 <= p < q < |recs| && !recs[p].item.asyncRx && !recs[q].item.asyncRx ::
      recs[p].item.req != recs[q].item.req
  }

  lemma AddStepKeepsInv(r: Pairs, text: string, memOk: bool, fileErr: int)
    requires Inv(r)
    ensures Inv(AddStep(r, text, memOk, fileErr).0)
  {
    hide Agree, FindPair, FirstZero, StrToPair, WellFormed;
    if StrToPair(text).Ok? {
      var p := StrToPair(text).value;
      AcceptedWellFormed(text, p);
      if FirstZero(r.bits) < |r.bits| {
        AddTailAgrees(r, p);
      }
    }
  }

  lemma RemoveKeepsInv(r: Pairs, p: nat)
    requires Inv(r) && p < |r.recs|
    ensures Inv(Remove(r, p))
  {
    hide WellFormed;
    RemoveAgrees(r, p);
    assert forall q | 0 <= q < |Remove(r, p).recs| :: Remove(r, p).recs[q] == r.recs[if q < p then q else q + 1];
  }

  lemma EmptyInv()
    ensures Inv(Empty(MAX_PAIRS))
  {
    EmptyAgrees<Pair>(MAX_PAIRS);
  }

  /** Every operation keeps the invariant. */
  lemma StepKeepsInv(r: Pairs, op: Op)
    requires Inv(r)
    ensures Inv(Step(r, op).0)
  {
    hide Inv, Find, AddStep, Remove, RemoveAll, Weight;
    assert Agree(r) && |r.bits| == MAX_PAIRS by { InvParts(r); }
    match op
    case Add(text, memOk, fileErr) => AddStepKeepsInv(r, text, memOk, fileErr);
    case Delete(count, index) =>
      if count != 0 && index.Some? && Find(r.recs, index.value).Some? {
        RemoveKeepsInv(r, Find(r.recs, index.value).value);
      }
    case Clear(count) =>
      RemoveAllEmpties(r);
      EmptyInv();
  }

  lemma NoPairsLeft(r: Pairs)
    requires Inv(r) && r.recs == []
    ensures r == Empty(MAX_PAIRS)
  {
    RemoveAllEmpties(r);
  }

  lemma InvParts(r: Pairs)
    requires Inv(r)
    ensures Agree(r) && |r.bits| == MAX_PAIRS && InRange(r)
  {
  }

  /** A run from `r`: the final registry and the value every operation returned. */
  ghost function Run(r: Pairs, ops: seq<Op>): (Pairs, seq<int>)
    requires Inv(r)
    decreases |ops|
  {
    if ops == [] then (r, [])
    else
      StepKeepsInv(r, ops[0]);
      InvParts(r);
      var (r', ret) := Step(r, ops[0]);
      var (r'', rets) := Run(r', ops[1..]);
      (r'', [ret] + rets)
  }

  /** Every run keeps the invariant. */
  lemma {:induction false} RunKeepsInv(r: Pairs, ops: seq<Op>)
    requires Inv(r)
    ensures Inv(Run(r, ops).0)
    decreases |ops|
  {
    hide Inv;
    if ops != [] {
      StepKeepsInv(r, ops[0]);
      InvParts(r);
      RunKeepsInv(Step(r, ops[0]).0, ops[1..]);
    }
  }

  /** The registry after a run from an empty device. */
  ghost function After(ops: seq<Op>): (r: Pairs)
    ensures Inv(r)
  {
    EmptyInv();
    RunKeepsInv(Empty(MAX_PAIRS), ops);
    Run(Empty(MAX_PAIRS), ops).0
  }

  /** Over every run from an empty device, list and bitmap agree: bit `i` is set iff exactly one
      listed pair has index `i`, indexes are in range, and the reported count is the list's length. */
  lemma AgreementOverRuns(ops: seq<Op>, i: nat)
    requires i < MAX_PAIRS
    ensures var r := After(ops);
      && |r.bits| == MAX_PAIRS
      && (r.bits[i] <==> exists p :: OnlyAt(r.recs, p, i))
      && Weight(r.bits) == |r.recs| == |ToMap(r.recs)|
      && (forall p | 0 <= p < |r.recs| :: r.recs[p].index < MAX_PAIRS)
  {
    hide Weight, After;
    var r := After(ops);
    if r.bits[i] {
      var p :| 0 <= p < |r.recs| && r.recs[p].index == i;
      assert OnlyAt(r.recs, p, i);
    }
    if p :| OnlyAt(r.recs, p, i) {
      assert r.bits[r.recs[p].index];
    }
    MapSize(r.recs);
  }

  // ---- The registry as a finite map from index to pair ----

  type PairMap = map<nat, Pair>

  /** `p` is the pair that answers request `req`. */
  ghost predicate Answers(m: PairMap, req: seq<byte>, p: Pair) {
    exists i :: i in m && m[i] == p && !p.asyncRx && p.req == req
  }

  /** What there is to read after the request `req`: the response of the pair that answers it, if any. */
  ghost predicate Answered(m: PairMap, req: seq<byte>, left: seq<byte>) {
    && (forall p :: Answers(m, req, p) ==> left == p.resp)
    && ((forall p :: !Answers(m, req, p)) ==> left == [])
  }

  ghost predicate LeastAbsent<V>(m: map<nat, V>, i: nat) {
    i !in m && forall j: nat | j < i :: j in m
  }

  /** What an addition does to the map: nothing and -EINVAL (or the file's error), or the new pair
      at the least free index. Only a synchronous pair can be a duplicate. */
  ghost predicate AddNext(m: PairMap, text: string, memOk: bool, fileErr: int, m': PairMap, ret: int) {
    if !memOk || StrToPair(text).Err? then m' == m && ret == -EINVAL
    else
      var p := StrToPair(text).value;
      if |m| == MAX_PAIRS || (!p.asyncRx && exists q :: Answers(m, p.req, q)) then m' == m && ret == -EINVAL
      else if fileErr != 0 then m' == m && ret == fileErr
      else ret == |text| && exists i: nat :: LeastAbsent(m, i) && m' == m[i := p]
  }

  ghost predicate Next(m: PairMap, op: Op, m': PairMap, ret: int) {
    match op
    case Add(text, memOk, fileErr) => AddNext(m, text, memOk, fileErr, m', ret)
    case Delete(count, index) =>
      if count == 0 || index.None? || index.value !in m then m' == m && ret == -EINVAL
      else m' == m - {index.value} && ret == count
    case Clear(count) => if count == 0 then m' == m && ret == -EIO else m' == map[] && ret == count
  }

  /** Looking up a request in the list, in whatever order it is, is looking it up in the map; a pair
      used for asynchronous exchange is never found. */
  lemma FindIsLookup(r: Pairs, req: seq<byte>, p: Pair)
    requires Inv(r)
    ensures FindResponse(r, req) == Some(p) <==> Answers(ToMap(r.recs), req, p)
    ensures FindResponse(r, req) == None <==> !exists q :: Answers(ToMap(r.recs), req, q)
  {
    hide FindPair, ToMap, WellFormed, Weight;
    MapHas(r.recs);
    var m := ToMap(r.recs);
    forall q | Answers(m, req, q)
      ensures FindResponse(r, req) == Some(q)
    {
      var i :| i in m && m[i] == q && !q.asyncRx && q.req == req;
      var k :| 0 <= k < |r.recs| && r.recs[k].index == i;
      assert r.recs[k].item == q;
      var f := FindPair(r.recs, req);
      assert f.Some?;
      assert f.value == k;
    }
    if FindResponse(r, req).Some? {
      var k := FindPair(r.recs, req).value;
      assert m[r.recs[k].index] == r.recs[k].item;
      assert Answers(m, req, r.recs[k].item);
    }
  }

  /** What a request finds is what it leaves to be read. */
  lemma LookupMeans(reg: Pairs, req: seq<byte>)
    requires Inv(reg)
    ensures Answered(ToMap(reg.recs), req, match FindResponse(reg, req) case None => [] case Some(p) => p.resp)
  {
    hide Inv, ToMap, FindPair, Answers;
    forall p | Answers(ToMap(reg.recs), req, p)
      ensures FindResponse(reg, req) == Some(p)
    {
      FindIsLookup(reg, req, p);
    }
    match FindResponse(reg, req)
    case None =>
    case Some(p) => FindIsLookup(reg, req, p);
  }

  lemma AnswerNonEmpty(reg: Pairs, req: seq<byte>, p: Pair)
    requires Inv(reg) && Answers(ToMap(reg.recs), req, p)
    ensures p.resp != []
  {
    hide ToMap, FindPair;
    FindIsLookup(reg, req, p);
  }

  /** The file named `i` shows the pair with index `i` in the map, and there is no such file otherwise. */
  lemma ShowIsLookup(r: Pairs, i: nat)
    requires Inv(r)
    ensures ShowPair(r, i) == if i in ToMap(r.recs) then Some(PairToStr(ToMap(r.recs)[i])) else None
  {
    hide Find, ToMap, PairToStr, WellFormed, Weight;
    MapHas(r.recs);
    match Find(r.recs, i)
    case None =>
    case Some(p) =>
  }

  /** Two registries with the same map answer alike, whatever the order of their lists. */
  lemma OrderIrrelevant(r1: Pairs, r2: Pairs, req: seq<byte>)
    requires Inv(r1) && Inv(r2) && ToMap(r1.recs) == ToMap(r2.recs)
    ensures FindResponse(r1, req) == FindResponse(r2, req)
  {
    hide Inv, ToMap, FindPair;
    match FindResponse(r1, req)
    case Some(p) =>
      FindIsLookup(r1, req, p);
      FindIsLookup(r2, req, p);
    case None =>
      match FindResponse(r2, req)
      case Some(p) =>
        FindIsLookup(r1, req, p);
        FindIsLookup(r2, req, p);
      case None =>
  }

  /** A timer pair is never taken for a duplicate, because every synchronous request is non-empty. */
  lemma TimerNeverDuplicate(r: Pairs, text: string, p: Pair)
    requires Inv(r) && StrToPair(text) == Ok(p) && p.asyncRx
    ensures FindPair(r.recs, p.req) == None
    ensures |r.recs| < MAX_PAIRS ==> FirstZero(r.bits) < |r.bits| && AddStep(r, text, true, 0) == (AddTail(r, p), |text|)
  {
    hide FindPair, StrToPair, Weight, FirstZero;
    AcceptedWellFormed(text, p);
    assert forall k | 0 <= k < |r.recs| && !r.recs[k].item.asyncRx :: r.recs[k].item.req != [];
    WeightBound(r.bits);
  }

  lemma AddRefines(r: Pairs, text: string, memOk: bool, fileErr: int)
    requires Inv(r)
    ensures AddNext(ToMap(r.recs), text, memOk, fileErr,
      ToMap(AddStep(r, text, memOk, fileErr).0.recs), AddStep(r, text, memOk, fileErr).1)
  {
    hide FindPair, StrToPair, Weight, FirstZero, ToMap, WellFormed, Answers, DistinctRequests;
    if memOk && StrToPair(text).Ok? {
      var p := StrToPair(text).value;
      WeightBound(r.bits);
      MapSize(r.recs);
      if p.asyncRx {
        TimerNeverDuplicate(r, text, p);
      } else {
        FindIsLookup(r, p.req, p);
      }
      if FirstZero(r.bits) < |r.bits| {
        LeastFree(r);
        AddMaps(r, p);
        assert LeastAbsent(ToMap(r.recs), FirstZero(r.bits));
      }
    }
  }

  /** The list and bitmap together behave as the finite map: every operation's effect and return
      value are those of the map. */
  lemma StepRefinesMap(r: Pairs, op: Op)
    requires Inv(r)
    ensures Next(ToMap(r.recs), op, ToMap(Step(r, op).0.recs), Step(r, op).1)
  {
    hide FindPair, AddStep, Weight, ToMap, Find, WellFormed, AddNext, Remove, RemoveAll;
    match op
    case Add(text, memOk, fileErr) => AddRefines(r, text, memOk, fileErr);
    case Delete(count, index) =>
      if index.Some? {
        MapHas(r.recs);
        match Find(r.recs, index.value)
        case None =>
        case Some(p) => RemoveMaps(r, p);
      }
    case Clear(count) =>
      RemoveAllEmpties(r);
      MapEmpty<Pair>();
  }

  /** A run of the map: `m'` is its last value, `rets` what its operations returned. */
  ghost predicate MapRun(m: PairMap, ops: seq<Op>, m': PairMap, rets: seq<int>)
    decreases |ops|
  {
    if ops == [] then m' == m && rets == []
    else rets != [] && exists next :: Next(m, ops[0], next, rets[0]) && MapRun(next, ops[1..], m', rets[1..])
  }

  /** Over every run, registry and map go through the same values and every operation returns what
      that of the map returns. */
  lemma {:induction false} RunRefinesMap(r: Pairs, ops: seq<Op>)
    requires Inv(r)
    ensures MapRun(ToMap(r.recs), ops, ToMap(Run(r, ops).0.recs), Run(r, ops).1)
    decreases |ops|
  {
    hide Inv, ToMap, Next, Step;
    if ops != [] {
      StepRefinesMap(r, ops[0]);
      StepKeepsInv(r, ops[0]);
      InvParts(r);
      var r' := Step(r, ops[0]).0;
      RunRefinesMap(r', ops[1..]);
      assert Run(r, ops).1[1..] == Run(r', ops[1..]).1;
    }
  }

  /** The map leaves nothing open: an operation has one effect and one return value. */
  lemma NextIsOne(m: PairMap, op: Op, m1: PairMap, ret1: int, m2: PairMap, ret2: int)
    requires Next(m, op, m1, ret1) && Next(m, op, m2, ret2)
    ensures m1 == m2 && ret1 == ret2
  {
    hide StrToPair, Answers;
    if op.Add? && m1 != m && m2 != m {
      var i: nat :| LeastAbsent(m, i) && m1 == m[i := StrToPair(op.text).value];
      var j: nat :| LeastAbsent(m, j) && m2 == m[j := StrToPair(op.text).value];
      assert i == j;
    }
  }

  /** So registries with the same map behave alike over every run, whatever the order of their lists. */
  lemma {:induction false} RunsAlike(m: PairMap, ops: seq<Op>, m1: PairMap, rets1: seq<int>, m2: PairMap, rets2: seq<int>)
    requires MapRun(m, ops, m1, rets1) && MapRun(m, ops, m2, rets2)
    ensures m1 == m2 && rets1 == rets2
    decreases |ops|
  {
    hide Next;
    if ops != [] {
      var n1 :| Next(m, ops[0], n1, rets1[0]) && MapRun(n1, ops[1..], m1, rets1[1..]);
      var n2 :| Next(m, ops[0], n2, rets2[0]) && MapRun(n2, ops[1..], m2, rets2[1..]);
      NextIsOne(m, ops[0], n1, rets1[0], n2, rets2[0]);
      RunsAlike(n1, ops[1..], m1, rets1[1..], m2, rets2[1..]);
      assert rets1 == [rets1[0]] + rets1[1..] && rets2 == [rets2[0]] + rets2[1..];
    }
  }

  /** An operation that reports an error changes nothing at all; one that succeeds reports the
      number of characters it consumed. */
  lemma FailureChangesNothing(r: Pairs, op: Op)
    requires Inv(r) && op.Valid()
    ensures Step(r, op).1 < 0 ==> Step(r, op).0 == r
    ensures Step(r, op).1 >= 0 ==> Step(r, op).1 == (if op.Add? then |op.text| else op.count) > 0
  {
    hide FindPair, StrToPair, Weight, FirstZero, WellFormed, Find;
    if op.Add? && StrToPair(op.text).Ok? {
      AcceptedNonEmpty(op.text);
    }
  }

  lemma AcceptedNonEmpty(text: string)
    requires StrToPair(text).Ok?
    ensures text != ""
  {
  }
}
