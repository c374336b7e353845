/** The spi device emulator, kernel/hwe_spi.c: transfers with zero padding, and timer deliveries. */
module Spi {
  import opened Base
  import opened PairCodec
  import opened PairRegistry
  import opened Registry
  import opened Pending
  import Device

  /** `bytes` cut or padded with zeros to length `n`. */
  function Padded(bytes: seq<byte>, n: nat): seq<byte> {
    seq(n, i => if 0 <= i < |bytes| then bytes[i] else 0)
  }

  /** What a read of `n` bytes fills its buffer with. */
  function Received(p: Pend, n: nat): seq<byte>
    requires PendValid(p)
  {
    Padded(Remaining(p), n)
  }

  // ---- Chunking ----

  function Sum(ns: seq<nat>): nat {
    if ns == [] then 0 else ns[0] + Sum(ns[1..])
  }

  /** Everything received by reads of the lengths `ns`, one after the other. */
  function ReceivedAll(p: Pend, ns: seq<nat>): seq<byte>
    requires PendValid(p)
    decreases |ns|
  {
    if ns == [] then [] else Received(p, ns[0]) + ReceivedAll(Take(p, ns[0]), ns[1..])
  }

  lemma RemainingAfter(p: Pend, n: nat)
    requires PendValid(p)
    ensures PendValid(Take(p, n))
    ensures Remaining(Take(p, n)) == Remaining(p)[Min(|Remaining(p)|, n)..]
  {
    TakeSplits(p, n);
  }

  lemma PaddedSplits(bytes: seq<byte>, n: nat, m: nat)
    ensures Padded(bytes, n + m) == Padded(bytes, n) + Padded(bytes[Min(|bytes|, n)..], m)
  {
  }

  /** Chunking is invisible: with nothing in between, reads of any lengths together return exactly
      what one read of their total length would: the pending bytes, then endless zeros. */
  lemma {:induction false} ChunkingInvisible(p: Pend, ns: seq<nat>)
    requires PendValid(p)
    ensures ReceivedAll(p, ns) == Received(p, Sum(ns))
    decreases |ns|
  {
    hide Remaining, Take, Padded;
    if ns == [] {
      PaddedNone(Remaining(p));
    } else {
      RemainingAfter(p, ns[0]);
      ChunkingInvisible(Take(p, ns[0]), ns[1..]);
      PaddedSplits(Remaining(p), ns[0], Sum(ns[1..]));
    }
  }

  lemma PaddedNone(bytes: seq<byte>)
    ensures Padded(bytes, 0) == []
  {
  }

  /** A read hands out the response bytes, and zeros for the rest. */
  lemma ReceivedIsOutput(p: Pend, n: nat)
    requires PendValid(p)
    ensures Received(p, n) == Chunk(p, n) + Padded([], n - |Chunk(p, n)|)
  {
    TakeSplits(p, n);
    assert |Remaining(p)| == p.size;
  }

  // ---- The device ----

  /** The event a transfer stands for; a transfer without buffers is none. */
  function EventOf(reg: Pairs, tx: Option<seq<byte>>, hasRx: bool, len: nat): Option<Event> {
    match tx
    case None => if hasRx then Some(Read(len)) else None
    case Some(bytes) =>
      if hasRx then Some(Duplex(len))
      else match PairRegistry.FindResponse(reg, bytes)
        case None => Some(Write(None))
        case Some(p) => Some(Write(Some(p.resp)))
  }

  lemma EventValid(reg: Pairs, tx: Option<seq<byte>>, hasRx: bool, len: nat)
    requires Inv(reg)
    ensures EventOf(reg, tx, hasRx, len).Some? ==> EventOf(reg, tx, hasRx, len).value.Valid()
  {
    hide Agree, DistinctRequests, FindPair;
  }

  /** One transfer, on the map of pairs and the bytes still to be read. A read takes the front of what
      is left, then zeros; a write leaves the response to its bytes; a transfer both ways receives
      zeros and leaves nothing. */
  ghost predicate TransferNext(m: PairMap, left: seq<byte>, tx: Option<seq<byte>>, hasRx: bool, len: nat, left': seq<byte>, rx: seq<byte>) {
    match tx
    case Some(bytes) =>
      if hasRx then left' == [] && |rx| == len && forall i | 0 <= i < len :: rx[i] == 0
      else Answered(m, bytes, left')
    case None =>
      if hasRx then
        && |rx| == len && (forall i | 0 <= i < len :: rx[i] == if i < |left| then left[i] else 0)
        && left' == left[Min(|left|, len)..]
      else left' == left
  }

  lemma TransferMeans(p: Pend, reg: Pairs, tx: Option<seq<byte>>, hasRx: bool, len: nat)
    requires PendValid(p) && Inv(reg)
    ensures var e := EventOf(reg, tx, hasRx, len); e.Some? ==> e.value.Valid()
    ensures var e := EventOf(reg, tx, hasRx, len); var q := if e.Some? then PendStep(p, e.value) else p;
      TransferNext(ToMap(reg.recs), Remaining(p), tx, hasRx, len, Remaining(q), if tx.Some? then Padded([], len) else Received(p, len))
  {
    hide Inv, ToMap, FindPair, Answered, Remaining, Take, Padded;
    EventValid(reg, tx, hasRx, len);
    match tx
    case Some(bytes) =>
      LookupMeans(reg, bytes);
      PaddedAt([], len);
      DropEmpty(p);
      if !hasRx {
        WriteLoads(p, EventOf(reg, tx, hasRx, len).value.found);
      }
    case None =>
      PaddedAt(Remaining(p), len);
      RemainingAfter(p, len);
  }

  lemma PaddedAt(bytes: seq<byte>, n: nat)
    ensures |Padded(bytes, n)| == n && forall i | 0 <= i < n :: Padded(bytes, n)[i] == if i < |bytes| then bytes[i] else 0
  {
  }

  /** `struct hwe_dev_priv` of an spi device. */
  class SpiPriv {
    const hwedev: Device.HweDev
    const resp: array<byte>
    var respPtr: nat
    var respSize: nat
    var isAsync: bool

    ghost predicate Valid()
      reads this, resp, hwedev, hwedev.pairs, hwedev.pairs.ring, hwedev.pairs.bits
    {
      resp.Length == MAX_RESPONSE && PendValid(State()) && hwedev.Valid()
    }

    ghost function State(): Pend
      reads this, resp
    {
      Pend(resp[..], respPtr, respSize, isAsync)
    }

    /** `new_dev`, on zeroed memory. */
    constructor (hwedev: Device.HweDev)
      requires hwedev.Valid()
      ensures Valid() && this.hwedev == hwedev && respSize == 0 && fresh(resp)
    {
      this.hwedev := hwedev;
      resp := new byte[MAX_RESPONSE](_ => 0);
      respPtr, respSize, isAsync := 0, 0, false;
    }

    /** `memcpy(resp, bytes)` and the cursor set to its start. */
    method LoadResponse(bytes: seq<byte>, async: bool)
      requires Valid() && |bytes| <= MAX_RESPONSE
      modifies this`respPtr, this`respSize, this`isAsync, resp
      ensures Valid() && State() == Load(old(State()), bytes, async)
    {
      forall i | 0 <= i < |bytes| {
        resp[i] := bytes[i];
      }
      respSize := |bytes|;
      respPtr := 0;
      isAsync := async;
      assert resp[..] == bytes + old(resp[..])[|bytes|..];
    }

    /** `hwe_spi_async_rx`. */
    method AsyncRx(bytes: seq<byte>)
      requires Valid() && |bytes| <= MAX_RESPONSE
      modifies this`respPtr, this`respSize, this`isAsync, resp
      ensures Valid() && State() == Deliver(old(State()), bytes)
    {
      if respSize != 0 && (!isAsync || respPtr != 0) {
        return;
      }
      LoadResponse(bytes, true);
    }

    /** The reading branch: the pending bytes, then zeros. */
    method ReadInto(rx: array<byte>)
      requires Valid() && rx != resp
      modifies this`respPtr, this`respSize, rx
      ensures Valid() && State() == Take(old(State()), rx.Length)
      ensures rx[..] == Received(old(State()), rx.Length)
    {
      var len := rx.Length;
      if respSize != 0 {
        var sz := if respSize > len then len else respSize;
        forall i | 0 <= i < len {
          rx[i] := if i < sz then resp[respPtr + i] else 0;
        }
        assert Remaining(State()) == resp[respPtr..respPtr + respSize];
        respSize := respSize - sz;
        respPtr := respPtr + sz;
      } else {
        forall i | 0 <= i < len {
          rx[i] := 0;
        }
      }
    }

    /** `hwespi_transfer_one`; `rx` is null for a transfer that does not receive. */
    method TransferOne(tx: Option<seq<byte>>, rx: array?<byte>, len: nat)
      requires Valid() && rx != resp
      requires (tx.Some? ==> |tx.value| == len) && (rx != null ==> rx.Length == len)
      modifies this`respPtr, this`respSize, this`isAsync, resp, rx
      ensures Valid() && hwedev.pairs.State() == old(hwedev.pairs.State())
      ensures var e := EventOf(hwedev.pairs.State(), tx, rx != null, len);
        State() == if e.Some? then PendStep(old(State()), e.value) else old(State())
      ensures rx != null ==> rx[..] == if tx.Some? then Padded([], len) else Received(old(State()), len)
      ensures TransferNext(ToMap(old(hwedev.pairs.State()).recs), Remaining(old(State())), tx, rx != null, len,
        Remaining(State()), if rx != null then rx[..] else [])
    {
      hide Inv, ToMap, Answered;
      TransferMeans(State(), hwedev.pairs.State(), tx, rx != null, len);
      EventValid(hwedev.pairs.State(), tx, rx != null, len);
      var pair: Option<Pair> := None;
      if tx.Some? {
        pair := hwedev.FindResponse(tx.value);
      }
      if rx != null && tx.Some? {
        respSize := 0;
        forall i | 0 <= i < len {
          rx[i] := 0;
        }
      } else if rx != null && tx.None? {
        ReadInto(rx);
      } else if rx == null && tx.Some? {
        if pair.Some? {
          LoadResponse(pair.value.resp, false);
        } else {
          respSize := 0;
        }
      }
    }
  }
}
