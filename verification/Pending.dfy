/** The pending response of an emulated device: the fields `resp`, `resp_ptr`, `resp_size` and
    `async` that kernel/hwe_i2c.c and kernel/hwe_spi.c both drive. */
module Pending {
  import opened Base

  /** The response buffer, the read cursor in it, the bytes left, and whether a timer loaded them. */
  datatype Pend = Pend(buf: seq<byte>, off: nat, size: nat, isAsync: bool)

  predicate PendValid(p: Pend) {
    |p.buf| == MAX_RESPONSE && (p.size > 0 ==> p.off + p.size <= MAX_RESPONSE)
  }

  function Load(p: Pend, resp: seq<byte>, isAsync: bool): Pend
    requires PendValid(p) && |resp| <= MAX_RESPONSE
  {
    Pend(resp + p.buf[|resp|..], 0, |resp|, isAsync)
  }

  function Drop(p: Pend): Pend {
    p.(size := 0)
  }

  /** The bytes still to be read. */
  function Remaining(p: Pend): seq<byte>
    requires PendValid(p)
  {
    if p.size == 0 then [] else p.buf[p.off..p.off + p.size]
  }

  /** The bytes a read of `n` hands out. */
  function Chunk(p: Pend, n: nat): seq<byte>
    requires PendValid(p)
  {
    Remaining(p)[..Min(p.size, n)]
  }

  function Take(p: Pend, n: nat): Pend {
    if p.size == 0 then p else p.(off := p.off + Min(p.size, n), size := p.size - Min(p.size, n))
  }

  /** A delivery may replace nothing, or an asynchronous response no byte of which has been read. */
  predicate Replaceable(p: Pend) {
    p.size == 0 || (p.isAsync && p.off == 0)
  }

  function Deliver(p: Pend, resp: seq<byte>): Pend
    requires PendValid(p) && |resp| <= MAX_RESPONSE
  {
    if Replaceable(p) then Load(p, resp, true) else p
  }

  /** `Write` carries the response the registry found; `Duplex` is an spi transfer both ways. */
  datatype Event = Write(found: Option<seq<byte>>) | Read(n: nat) | AsyncRx(resp: seq<byte>) | Duplex(n: nat)
  {
    predicate Valid() {
      match this
      case Write(found) => found.Some? ==> |found.value| <= MAX_RESPONSE
      case Read(_) => true
      case AsyncRx(resp) => |resp| <= MAX_RESPONSE
      case Duplex(_) => true
    }
  }

  function PendStep(p: Pend, e: Event): (q: Pend)
    requires PendValid(p) && e.Valid()
    ensures PendValid(q)
  {
    match e
    case Write(Some(resp)) => Load(p, resp, false)
    case Write(None) => Drop(p)
    case Read(n) => Take(p, n)
    case AsyncRx(resp) => Deliver(p, resp)
    case Duplex(_) => Drop(p)
  }

  /** The response bytes an event hands out. */
  function Output(p: Pend, e: Event): seq<byte>
    requires PendValid(p)
  {
    if e.Read? then Chunk(p, e.n) else []
  }

  predicate AllValid(es: seq<Event>) {
    forall i | 0 <= i < |es| :: es[i].Valid()
  }

  function Run(p: Pend, es: seq<Event>): (q: Pend)
    requires PendValid(p) && AllValid(es)
    ensures PendValid(q)
    decreases |es|
  {
    if es == [] then p else Run(PendStep(p, es[0]), es[1..])
  }

  /** All bytes handed out over a run, in order. */
  function Outputs(p: Pend, es: seq<Event>): seq<byte>
    requires PendValid(p) && AllValid(es)
    decreases |es|
  {
    if es == [] then [] else Output(p, es[0]) + Outputs(PendStep(p, es[0]), es[1..])
  }

  // ---- The history of a run ----

  /** One load of the buffer and the bytes of it handed out before the next load. */
  datatype Segment = Segment(resp: seq<byte>, isAsync: bool, out: seq<byte>)

  /** The loads of a run and the number of bytes thrown away unread. */
  datatype History = History(segments: seq<Segment>, discarded: nat)

  /** Does the event load the buffer, and with what? */
  function Loads(p: Pend, e: Event): Option<Segment> {
    match e
    case Write(Some(resp)) => Some(Segment(resp, false, []))
    case AsyncRx(resp) => if Replaceable(p) then Some(Segment(resp, true, [])) else None
    case _ => None
  }

  /** Bytes an event throws away: what was pending when a load, an unmatched write or a duplex
      transfer comes. */
  function Discards(p: Pend, e: Event): nat {
    if Loads(p, e).Some? || e.Write? || e.Duplex? then p.size else 0
  }

  /** A new segment for a load; bytes handed out go to the last one. */
  function Record(h: History, p: Pend, e: Event): History
    requires PendValid(p)
  {
    var out := Output(p, e);
    var segments :=
      if Loads(p, e).Some? then h.segments + [Loads(p, e).value]
      else if out == [] || h.segments == [] then h.segments
      else
        var n := |h.segments| - 1;
        h.segments[n := h.segments[n].(out := h.segments[n].out + out)];
    History(segments, h.discarded + Discards(p, e))
  }

  function RunHistory(h: History, p: Pend, es: seq<Event>): History
    requires PendValid(p) && AllValid(es)
    decreases |es|
  {
    if es == [] then h else RunHistory(Record(h, p, es[0]), PendStep(p, es[0]), es[1..])
  }

  function OutOf(segments: seq<Segment>): seq<byte> {
    if segments == [] then [] else OutOf(segments[..|segments| - 1]) + segments[|segments| - 1].out
  }

  function BytesLoaded(segments: seq<Segment>): nat {
    if segments == [] then 0 else BytesLoaded(segments[..|segments| - 1]) + |segments[|segments| - 1].resp|
  }

  /** What every event keeps: each segment's output is a prefix of its response; the pending bytes
      are the rest of the last response; and every loaded byte is handed out, thrown away or pending. */
  ghost predicate Accounted(h: History, p: Pend) {
    && PendValid(p)
    && (forall i | 0 <= i < |h.segments| :: h.segments[i].out <= h.segments[i].resp)
    && (p.size > 0 ==> h.segments != [] && var last := h.segments[|h.segments| - 1];
          last.isAsync == p.isAsync && |last.out| == p.off && last.resp == last.out + Remaining(p))
    && BytesLoaded(h.segments) == |OutOf(h.segments)| + h.discarded + p.size
  }

  lemma LoadAccounted(h: History, p: Pend, resp: seq<byte>, isAsync: bool)
    requires Accounted(h, p) && |resp| <= MAX_RESPONSE
    ensures Accounted(History(h.segments + [Segment(resp, isAsync, [])], h.discarded + p.size), Load(p, resp, isAsync))
    ensures OutOf(h.segments + [Segment(resp, isAsync, [])]) == OutOf(h.segments)
    ensures Remaining(Load(p, resp, isAsync)) == resp
  {
    var all := h.segments + [Segment(resp, isAsync, [])];
    assert all[..|h.segments|] == h.segments;
    assert Remaining(Load(p, resp, isAsync)) == resp;
  }

  /** A read hands out the front of what is pending and leaves the rest. */
  lemma TakeSplits(p: Pend, n: nat)
    requires PendValid(p)
    ensures Remaining(p) == Chunk(p, n) + Remaining(Take(p, n))
    ensures |Chunk(p, n)| == Min(p.size, n)
  {
  }

  lemma GrowLast(segments: seq<Segment>, out: seq<byte>)
    requires segments != []
    ensures var m := |segments| - 1;
      var grown := segments[m := segments[m].(out := segments[m].out + out)];
      OutOf(grown) == OutOf(segments) + out && BytesLoaded(grown) == BytesLoaded(segments)
  {
    var m := |segments| - 1;
    var grown := segments[m := segments[m].(out := segments[m].out + out)];
    assert grown[..m] == segments[..m];
  }

  lemma TakeAccounted(h: History, p: Pend, n: nat)
    requires Accounted(h, p)
    ensures Accounted(Record(h, p, Read(n)), Take(p, n))
    ensures OutOf(Record(h, p, Read(n)).segments) == OutOf(h.segments) + Chunk(p, n)
  {
    hide OutOf, BytesLoaded, Remaining, Chunk;
    TakeSplits(p, n);
    if p.size > 0 {
      var out := Chunk(p, n);
      GrowLast(h.segments, out);
      var last := h.segments[|h.segments| - 1];
      assert last.resp == (last.out + out) + Remaining(Take(p, n));
      assert last.out + [] == last.out;
    }
  }

  lemma StepAccounted(h: History, p: Pend, e: Event)
    requires Accounted(h, p) && e.Valid()
    ensures Accounted(Record(h, p, e), PendStep(p, e))
    ensures OutOf(Record(h, p, e).segments) == OutOf(h.segments) + Output(p, e)
  {
    hide OutOf, BytesLoaded, Take, Load, Remaining;
    match e
    case Write(Some(resp)) => LoadAccounted(h, p, resp, false);
    case AsyncRx(resp) => LoadAccounted(h, p, resp, true);
    case Read(n) => TakeAccounted(h, p, n);
    case Write(None) =>
    case Duplex(_) =>
  }

  lemma {:induction false} RunAccounted(h: History, p: Pend, es: seq<Event>)
    requires Accounted(h, p) && AllValid(es)
    ensures Accounted(RunHistory(h, p, es), Run(p, es))
    ensures OutOf(RunHistory(h, p, es).segments) == OutOf(h.segments) + Outputs(p, es)
    decreases |es|
  {
    hide Accounted, OutOf, PendStep, Record, Output;
    if es != [] {
      StepAccounted(h, p, es[0]);
      AccountedValid(h, p);
      RunAccounted(Record(h, p, es[0]), PendStep(p, es[0]), es[1..]);
    }
  }

  lemma AccountedValid(h: History, p: Pend)
    requires Accounted(h, p)
    ensures PendValid(p)
  {
  }

  /** Conservation over whole runs: the bytes loaded are the bytes handed out, plus those thrown away
      by a later load, an unmatched write or a duplex transfer, plus those still pending; and while
      bytes are pending, cursor plus remaining count is the length of the response loaded last. */
  lemma Conservation(p: Pend, es: seq<Event>)
    requires PendValid(p) && p.size == 0 && AllValid(es)
    ensures var h := RunHistory(History([], 0), p, es); var q := Run(p, es);
      && OutOf(h.segments) == Outputs(p, es)
      && BytesLoaded(h.segments) == |Outputs(p, es)| + h.discarded + q.size
      && (q.size > 0 ==> h.segments != [] && q.off + q.size == |h.segments[|h.segments| - 1].resp|)
      && (forall i | 0 <= i < |h.segments| :: h.segments[i].out <= h.segments[i].resp)
  {
    hide Run, RunHistory, Outputs;
    RunAccounted(History([], 0), p, es);
  }

  /** No event of the run loads the buffer. */
  predicate NoLoads(p: Pend, es: seq<Event>)
    requires PendValid(p) && AllValid(es)
    decreases |es|
  {
    es == [] || (Loads(p, es[0]).None? && NoLoads(PendStep(p, es[0]), es[1..]))
  }

  lemma PrefixConcat(a: seq<byte>, b: seq<byte>, c: seq<byte>)
    requires b <= c
    ensures a + b <= a + c
  {
  }

  lemma {:induction false} OutputsPrefix(p: Pend, es: seq<Event>)
    requires PendValid(p) && AllValid(es) && NoLoads(p, es)
    ensures Outputs(p, es) <= Remaining(p)
    decreases |es|
  {
    hide Remaining, Chunk, Take, Load;
    if es != [] {
      var e, q := es[0], PendStep(p, es[0]);
      OutputsPrefix(q, es[1..]);
      match e
      case Read(n) =>
        TakeSplits(p, n);
        PrefixConcat(Chunk(p, n), Outputs(q, es[1..]), Remaining(q));
      case AsyncRx(_) =>
        assert [] + Outputs(q, es[1..]) == Outputs(q, es[1..]);
      case _ =>
        DropEmpty(p);
        assert [] + Outputs(q, es[1..]) == Outputs(q, es[1..]);
        assert [] <= Remaining(p);
    }
  }

  lemma DropEmpty(p: Pend)
    requires PendValid(p)
    ensures Remaining(Drop(p)) == []
  {
  }

  /** No torn responses: in any interleaving, the bytes handed out between one load of the buffer
      and the next are a gap-free prefix of the response of that load. */
  lemma NoTornResponses(p: Pend, load: Event, es: seq<Event>)
    requires PendValid(p) && load.Valid() && AllValid(es)
    requires Loads(p, load).Some? && NoLoads(PendStep(p, load), es)
    ensures Outputs(PendStep(p, load), es) <= Loads(p, load).value.resp
  {
    OutputsPrefix(PendStep(p, load), es);
  }

  /** A timer delivery loads exactly when nothing is pending, or the pending response came from a
      timer and no byte of it has been handed out; otherwise it leaves the device unchanged. */
  lemma DeliveryCondition(h: History, p: Pend, resp: seq<byte>)
    requires Accounted(h, p) && |resp| <= MAX_RESPONSE
    ensures Loads(p, AsyncRx(resp)).Some? <==>
      p.size == 0 || (h.segments[|h.segments| - 1].isAsync && h.segments[|h.segments| - 1].out == [])
    ensures Loads(p, AsyncRx(resp)).None? ==> PendStep(p, AsyncRx(resp)) == p
    ensures Loads(p, AsyncRx(resp)).Some? ==> var q := PendStep(p, AsyncRx(resp));
      Remaining(q) == resp && q.size == |resp| && q.off == 0 && q.isAsync
  {
    assert Remaining(Load(p, resp, true)) == resp;
  }

  // ---- What can be observed ----

  /** No read, write or delivery can tell `p` from `q`: stale bytes of the buffer do not show. */
  predicate Alike(p: Pend, q: Pend)
    requires PendValid(p) && PendValid(q)
  {
    p.size == q.size && Remaining(p) == Remaining(q)
    && (p.size > 0 ==> p.isAsync == q.isAsync && (p.off == 0 <==> q.off == 0))
  }

  lemma StepsAlike(p: Pend, q: Pend, e: Event)
    requires PendValid(p) && PendValid(q) && e.Valid() && Alike(p, q)
    ensures Alike(PendStep(p, e), PendStep(q, e)) && Output(p, e) == Output(q, e)
  {
    if e.Read? {
      TakeSplits(p, e.n);
      TakeSplits(q, e.n);
      assert Remaining(Take(p, e.n)) == Remaining(p)[Min(p.size, e.n)..];
      assert Remaining(Take(q, e.n)) == Remaining(q)[Min(q.size, e.n)..];
    }
  }

  lemma WriteLoads(p: Pend, found: Option<seq<byte>>)
    requires PendValid(p) && Write(found).Valid()
    ensures Remaining(PendStep(p, Write(found))) == if found.Some? then found.value else []
  {
  }

  /** After a write only what the registry found matters. */
  lemma WriteForgets(p: Pend, q: Pend, found: Option<seq<byte>>)
    requires PendValid(p) && PendValid(q) && Write(found).Valid()
    ensures Alike(PendStep(p, Write(found)), PendStep(q, Write(found)))
  {
    if found.Some? {
      assert Remaining(PendStep(p, Write(found))) == found.value;
      assert Remaining(PendStep(q, Write(found))) == found.value;
    }
  }
}
