/** The i2c device emulator, kernel/hwe_i2c.c: message batches, timer deliveries and SMBus transfers. */
module I2c {
  import opened Base
  import opened PairRegistry
  import opened Registry
  import opened Pending
  import Device
  import Smbus

  /** `struct i2c_msg`: a read fills the front of `buf`; `len` says how much of it counts. */
  datatype Msg = Msg(rd: bool, len: nat, buf: seq<byte>)

  predicate ValidMsgs(msgs: seq<Msg>) {
    forall i | 0 <= i < |msgs| :: msgs[i].len <= |msgs[i].buf|
  }

  /** The event a message stands for on a device with the pairs `reg`. */
  function EventOf(reg: Pairs, m: Msg): Event
    requires m.len <= |m.buf|
  {
    if m.rd then Read(m.len)
    else match PairRegistry.FindResponse(reg, m.buf[..m.len])
      case None => Write(None)
      case Some(p) => Write(Some(p.resp))
  }

  /** The message as it is handed back. A read that finds nothing is cut to length 0. */
  function Answer(p: Pend, m: Msg): (r: Msg)
    requires PendValid(p) && m.len <= |m.buf|
    ensures r.len <= |r.buf|
  {
    if !m.rd then m
    else if p.size == 0 then m.(len := 0)
    else m.(buf := Chunk(p, m.len) + m.buf[|Chunk(p, m.len)|..])
  }

  /** A batch: the device and the messages afterwards, and whether no read came up empty. */
  datatype Batch = Batch(p: Pend, msgs: seq<Msg>, ok: bool)

  ghost function Xfer(p: Pend, reg: Pairs, msgs: seq<Msg>): (r: Batch)
    requires PendValid(p) && Inv(reg) && ValidMsgs(msgs)
    ensures PendValid(r.p) && |r.msgs| == |msgs| && ValidMsgs(r.msgs)
    decreases |msgs|
  {
    if msgs == [] then Batch(p, [], true)
    else
      var m := msgs[0];
      EventValid(reg, m);
      var rest := Xfer(PendStep(p, EventOf(reg, m)), reg, msgs[1..]);
      Batch(rest.p, [Answer(p, m)] + rest.msgs, !(m.rd && p.size == 0) && rest.ok)
  }

  lemma EventValid(reg: Pairs, m: Msg)
    requires Inv(reg) && m.len <= |m.buf|
    ensures EventOf(reg, m).Valid()
  {
    hide Agree, DistinctRequests;
  }

  /** `do_master_xfer`'s return value. */
  function Ret(num: nat, ok: bool): int {
    if ok then num else -EINVAL
  }

  /** Running a list of messages is running any split of it in order. */
  lemma {:induction false} BatchesCompose(p: Pend, reg: Pairs, a: seq<Msg>, b: seq<Msg>)
    requires PendValid(p) && Inv(reg) && ValidMsgs(a) && ValidMsgs(b)
    ensures ValidMsgs(a + b)
    ensures var first := Xfer(p, reg, a); var second := Xfer(first.p, reg, b);
      Xfer(p, reg, a + b) == Batch(second.p, first.msgs + second.msgs, first.ok && second.ok)
    decreases |a|
  {
    hide Inv, EventOf, PendStep, Answer;
    if a == [] {
      assert a + b == b;
      assert [] + Xfer(p, reg, b).msgs == Xfer(p, reg, b).msgs;
    } else {
      EventValid(reg, a[0]);
      assert (a + b)[1..] == a[1..] + b;
      BatchesCompose(PendStep(p, EventOf(reg, a[0])), reg, a[1..], b);
    }
  }

  /** The pending response just before message `i`. */
  ghost function Before(p: Pend, reg: Pairs, msgs: seq<Msg>, i: nat): (r: Pend)
    requires PendValid(p) && Inv(reg) && ValidMsgs(msgs) && i <= |msgs|
    ensures PendValid(r)
  {
    Xfer(p, reg, msgs[..i]).p
  }

  /** The events of a batch, in order. */
  function Events(reg: Pairs, msgs: seq<Msg>): seq<Event>
    requires ValidMsgs(msgs)
  {
    if msgs == [] then [] else [EventOf(reg, msgs[0])] + Events(reg, msgs[1..])
  }

  /** The response bytes in the answers to `msgs`: the front of each read buffer, as far as the device
      had bytes to give. */
  ghost function Delivered(p: Pend, reg: Pairs, msgs: seq<Msg>): seq<byte>
    requires PendValid(p) && Inv(reg) && ValidMsgs(msgs)
    decreases |msgs|
  {
    if msgs == [] then []
    else
      EventValid(reg, msgs[0]);
      var n := if msgs[0].rd then Min(p.size, msgs[0].len) else 0;
      Xfer(p, reg, msgs).msgs[0].buf[..n] + Delivered(PendStep(p, EventOf(reg, msgs[0])), reg, msgs[1..])
  }

  /** A batch is a run of the pending-response machine, and what it hands out in its buffers is what
      that run hands out; so no batch tears, loses or invents response bytes. */
  lemma {:induction false} BatchIsRun(p: Pend, reg: Pairs, msgs: seq<Msg>)
    requires PendValid(p) && Inv(reg) && ValidMsgs(msgs)
    ensures AllValid(Events(reg, msgs))
    ensures Xfer(p, reg, msgs).p == Pending.Run(p, Events(reg, msgs))
    ensures Delivered(p, reg, msgs) == Outputs(p, Events(reg, msgs))
    decreases |msgs|
  {
    hide Inv, EventOf, PendStep, Answer, Output;
    if msgs != [] {
      var m, es := msgs[0], Events(reg, msgs[1..]);
      EventValid(reg, m);
      BatchIsRun(PendStep(p, EventOf(reg, m)), reg, msgs[1..]);
      assert Events(reg, msgs)[1..] == es;
      FrontIsOutput(p, reg, m);
    }
  }

  lemma FrontIsOutput(p: Pend, reg: Pairs, m: Msg)
    requires PendValid(p) && m.len <= |m.buf|
    ensures (if m.rd then Min(p.size, m.len) else 0) <= |Answer(p, m).buf|
    ensures Answer(p, m).buf[..if m.rd then Min(p.size, m.len) else 0] == Output(p, EventOf(reg, m))
  {
    hide Remaining;
    TakeSplits(p, m.len);
  }

  /** The call returns `num` exactly when every read found pending bytes. */
  lemma {:induction false} AllReadsServed(p: Pend, reg: Pairs, msgs: seq<Msg>)
    requires PendValid(p) && Inv(reg) && ValidMsgs(msgs)
    ensures Xfer(p, reg, msgs).ok <==> forall i | 0 <= i < |msgs| && msgs[i].rd :: Before(p, reg, msgs, i).size > 0
    ensures Ret(|msgs|, Xfer(p, reg, msgs).ok) == |msgs| <==> Xfer(p, reg, msgs).ok
    decreases |msgs|
  {
    hide Inv, EventOf, PendStep, Answer;
    if msgs != [] {
      var n := |msgs| - 1;
      var init, last := msgs[..n], msgs[n];
      assert init + [last] == msgs;
      BatchesCompose(p, reg, init, [last]);
      AllReadsServed(p, reg, init);
      assert forall i | 0 <= i < n :: msgs[..i] == init[..i];
      SingleOk(Before(p, reg, msgs, n), reg, last);
    }
  }

  lemma SingleOk(p: Pend, reg: Pairs, m: Msg)
    requires PendValid(p) && Inv(reg) && m.len <= |m.buf|
    ensures Xfer(p, reg, [m]).ok <==> (m.rd ==> p.size > 0)
  {
    hide Inv, EventOf, PendStep, Answer;
    EventValid(reg, m);
    assert [m][1..] == [];
  }

  lemma {:induction false} BatchesAlike(p: Pend, q: Pend, reg: Pairs, msgs: seq<Msg>)
    requires PendValid(p) && PendValid(q) && Alike(p, q) && Inv(reg) && ValidMsgs(msgs)
    ensures var a, b := Xfer(p, reg, msgs), Xfer(q, reg, msgs);
      Alike(a.p, b.p) && a.msgs == b.msgs && a.ok == b.ok
    decreases |msgs|
  {
    hide Inv, EventOf, PendStep, Remaining;
    if msgs != [] {
      var e := EventOf(reg, msgs[0]);
      EventValid(reg, msgs[0]);
      StepsAlike(p, q, e);
      AnswersAlike(p, q, msgs[0]);
      BatchesAlike(PendStep(p, e), PendStep(q, e), reg, msgs[1..]);
    }
  }

  lemma AnswersAlike(p: Pend, q: Pend, m: Msg)
    requires PendValid(p) && PendValid(q) && Alike(p, q) && m.len <= |m.buf|
    ensures Answer(p, m) == Answer(q, m)
  {
  }

  /** The part of a batch from message `w` on, run on its own. */
  ghost function From(p: Pend, reg: Pairs, msgs: seq<Msg>, w: nat): Batch
    requires PendValid(p) && Inv(reg) && ValidMsgs(msgs) && w <= |msgs|
  {
    Xfer(Before(p, reg, msgs, w), reg, msgs[w..])
  }

  lemma SecondHalf(p: Pend, reg: Pairs, msgs: seq<Msg>, w: nat)
    requires PendValid(p) && Inv(reg) && ValidMsgs(msgs) && w <= |msgs|
    ensures Xfer(p, reg, msgs).p == From(p, reg, msgs, w).p
    ensures Xfer(p, reg, msgs).msgs[w..] == From(p, reg, msgs, w).msgs
  {
    hide Inv, Xfer, PendValid;
    assert msgs[..w] + msgs[w..] == msgs;
    BatchesCompose(p, reg, msgs[..w], msgs[w..]);
  }

  /** A write forgets the past: if two lists of messages go on alike from a write on, then, from any
      two states, they leave states no one can tell apart and give the same answers from that write
      on. So what a list does depends only on the registry and the messages from its last write on. */
  lemma WriteDecides(p: Pend, q: Pend, reg: Pairs, msgs: seq<Msg>, w: nat, msgs': seq<Msg>, w': nat)
    requires PendValid(p) && PendValid(q) && Inv(reg) && ValidMsgs(msgs) && ValidMsgs(msgs')
    requires w < |msgs| && w' < |msgs'| && !msgs[w].rd && msgs[w..] == msgs'[w'..]
    ensures Alike(Xfer(p, reg, msgs).p, Xfer(q, reg, msgs').p)
    ensures Xfer(p, reg, msgs).msgs[w..] == Xfer(q, reg, msgs').msgs[w'..]
  {
    hide Inv, Xfer, Alike, PendValid, Before;
    SecondHalf(p, reg, msgs, w);
    SecondHalf(q, reg, msgs', w');
    FromWrite(Before(p, reg, msgs, w), Before(q, reg, msgs', w'), reg, msgs[w..]);
  }

  lemma FromWrite(p: Pend, q: Pend, reg: Pairs, from: seq<Msg>)
    requires PendValid(p) && PendValid(q) && Inv(reg) && ValidMsgs(from)
    requires from != [] && !from[0].rd
    ensures Alike(Xfer(p, reg, from).p, Xfer(q, reg, from).p) && Xfer(p, reg, from).msgs == Xfer(q, reg, from).msgs
  {
    hide Inv, PendStep, Alike;
    var e := EventOf(reg, from[0]);
    EventValid(reg, from[0]);
    WriteForgets(p, q, e.found);
    BatchesAlike(PendStep(p, e), PendStep(q, e), reg, from[1..]);
  }

  // ---- What messages mean, on the map of pairs and the bytes still to be read ----

  /** One message: a read takes the front of what is left, or is cut to length 0 and fails; a write
      leaves the response to its bytes. */
  ghost predicate MsgNext(m: PairMap, left: seq<byte>, msg: Msg, left': seq<byte>, msg': Msg, ok: bool)
    requires msg.len <= |msg.buf|
  {
    if !msg.rd then ok && msg' == msg && Answered(m, msg.buf[..msg.len], left')
    else if left == [] then !ok && msg' == msg.(len := 0) && left' == []
    else
      var n := Min(|left|, msg.len);
      ok && msg' == msg.(buf := left[..n] + msg.buf[n..]) && left' == left[n..]
  }

  ghost predicate MapBatch(m: PairMap, left: seq<byte>, msgs: seq<Msg>, left': seq<byte>, msgs': seq<Msg>, ok: bool)
    requires ValidMsgs(msgs)
    decreases |msgs|
  {
    if msgs == [] then left' == left && msgs' == [] && ok
    else
      msgs' != [] && exists next, first, rest ::
        MsgNext(m, left, msgs[0], next, msgs'[0], first)
        && MapBatch(m, next, msgs[1..], left', msgs'[1..], rest) && ok == (first && rest)
  }

  lemma MessageMeans(p: Pend, reg: Pairs, msg: Msg)
    requires PendValid(p) && Inv(reg) && msg.len <= |msg.buf|
    ensures EventOf(reg, msg).Valid()
    ensures MsgNext(ToMap(reg.recs), Remaining(p), msg, Remaining(PendStep(p, EventOf(reg, msg))), Answer(p, msg), !(msg.rd && p.size == 0))
  {
    hide Inv, ToMap, FindPair, Answers, Answered;
    EventValid(reg, msg);
    if msg.rd {
      TakeSplits(p, msg.len);
    } else {
      LookupMeans(reg, msg.buf[..msg.len]);
      WriteLoads(p, EventOf(reg, msg).found);
    }
  }

  /** A batch is a run of messages on the map: every write leaves the response of the pair that
      answers its bytes, and the reads hand out what is left, byte after byte. */
  lemma {:induction false} BatchMeans(p: Pend, reg: Pairs, msgs: seq<Msg>)
    requires PendValid(p) && Inv(reg) && ValidMsgs(msgs)
    ensures var b := Xfer(p, reg, msgs);
      MapBatch(ToMap(reg.recs), Remaining(p), msgs, Remaining(b.p), b.msgs, b.ok)
    decreases |msgs|
  {
    hide Inv, ToMap, EventOf, PendStep, Answer, Remaining, MsgNext;
    if msgs != [] {
      MessageMeans(p, reg, msgs[0]);
      var q := PendStep(p, EventOf(reg, msgs[0]));
      BatchMeans(q, reg, msgs[1..]);
      var b, rest := Xfer(p, reg, msgs), Xfer(q, reg, msgs[1..]);
      assert b.msgs[1..] == rest.msgs;
      assert MsgNext(ToMap(reg.recs), Remaining(p), msgs[0], Remaining(q), b.msgs[0], !(msgs[0].rd && p.size == 0));
      assert MapBatch(ToMap(reg.recs), Remaining(q), msgs[1..], Remaining(b.p), b.msgs[1..], rest.ok);
    }
  }

  /** A write and a read: the read hands out the front of the response of the pair that answers; with
      no such pair the call fails and the read comes back with length 0. */
  lemma WriteThenRead(p: Pend, reg: Pairs, msgs: seq<Msg>)
    requires PendValid(p) && Inv(reg) && ValidMsgs(msgs) && |msgs| == 2 && !msgs[0].rd && msgs[1].rd
    ensures var b := Xfer(p, reg, msgs); var m := ToMap(reg.recs); var req := msgs[0].buf[..msgs[0].len];
      && b.msgs[0] == msgs[0]
      && (forall x :: Answers(m, req, x) ==> b.ok && Filled(msgs[1], x.resp, b.msgs[1]))
      && ((forall x :: !Answers(m, req, x)) ==> !b.ok && b.msgs[1] == msgs[1].(len := 0))
  {
    hide Inv, ToMap, EventOf, PendStep, Answer, Remaining, Answers, Filled;
    MessageMeans(p, reg, msgs[0]);
    var q := PendStep(p, EventOf(reg, msgs[0]));
    MessageMeans(q, reg, msgs[1]);
    TwoMessages(p, reg, msgs);
    forall x | Answers(ToMap(reg.recs), msgs[0].buf[..msgs[0].len], x)
      ensures x.resp != [] && Filled(msgs[1], x.resp, Answer(q, msgs[1]))
    {
      AnswerNonEmpty(reg, msgs[0].buf[..msgs[0].len], x);
      FrontFilled(msgs[1], x.resp);
    }
  }

  /** The read `r` comes back as `r'`, with the front of `bytes` in its buffer, as far as there is room. */
  predicate Filled(r: Msg, bytes: seq<byte>, r': Msg)
    requires r.len <= |r.buf|
  {
    var n := Min(|bytes|, r.len);
    r'.rd && r'.len == r.len && |r'.buf| == |r.buf| && r'.buf[..n] == bytes[..n] && r'.buf[n..] == r.buf[n..]
  }

  lemma FrontFilled(r: Msg, bytes: seq<byte>)
    requires r.rd && r.len <= |r.buf|
    ensures var n := Min(|bytes|, r.len); Filled(r, bytes, r.(buf := bytes[..n] + r.buf[n..]))
  {
  }

  lemma TwoMessages(p: Pend, reg: Pairs, msgs: seq<Msg>)
    requires PendValid(p) && Inv(reg) && ValidMsgs(msgs) && |msgs| == 2
    requires EventOf(reg, msgs[0]).Valid() && EventOf(reg, msgs[1]).Valid()
    ensures var q := PendStep(p, EventOf(reg, msgs[0]));
      var b := Xfer(p, reg, msgs);
      b.msgs == [Answer(p, msgs[0]), Answer(q, msgs[1])]
      && b.ok == (!(msgs[0].rd && p.size == 0) && !(msgs[1].rd && q.size == 0))
  {
    hide Inv, EventOf, PendStep, Answer;
    var q := PendStep(p, EventOf(reg, msgs[0]));
    assert msgs[1..][1..] == [];
    assert Xfer(PendStep(q, EventOf(reg, msgs[1])), reg, []).msgs == [];
    assert Xfer(q, reg, msgs[1..]).msgs == [Answer(q, msgs[1])];
  }

  // ---- The device ----

  /** `struct hwe_dev_priv`. The chip memory and the response buffer have fixed sizes. */
  class I2cPriv {
    var inUse: bool
    const hwedev: Device.HweDev
    const resp: array<byte>
    var respPtr: nat
    var respSize: nat
    var isAsync: bool
    var pos: byte
    const dat: array<byte>

    ghost predicate Valid()
      reads this, resp, dat, hwedev, hwedev.pairs, hwedev.pairs.ring, hwedev.pairs.bits
    {
      && resp != dat && resp.Length == MAX_RESPONSE && dat.Length == Smbus.CHIP_SIZE
      && PendValid(State()) && hwedev.Valid()
    }

    ghost function State(): Pend
      reads this, resp
    {
      Pend(resp[..], respPtr, respSize, isAsync)
    }

    ghost function Memory(): Smbus.Chip
      reads this, dat
    {
      Smbus.Chip(pos, dat[..])
    }

    /** `init_dev` on memory from `kzalloc`. */
    constructor (hwedev: Device.HweDev)
      requires hwedev.Valid()
      ensures Valid() && inUse && this.hwedev == hwedev
      ensures respSize == 0 && Memory() == Smbus.Chip(0, seq(Smbus.CHIP_SIZE, _ => 0))
      ensures fresh(resp) && fresh(dat)
    {
      inUse := true;
      this.hwedev := hwedev;
      resp := new byte[MAX_RESPONSE](_ => 0);
      respPtr, respSize, isAsync := 0, 0, false;
      pos := 0;
      dat := new byte[Smbus.CHIP_SIZE](_ => 0);
      new;
      assert dat[..] == seq(Smbus.CHIP_SIZE, _ => 0);
    }

    /** `memcpy(resp, bytes)` and the cursor set to its start. */
    method LoadResponse(bytes: seq<byte>, async: bool)
      requires Valid() && |bytes| <= MAX_RESPONSE
      modifies this`respPtr, this`respSize, this`isAsync, resp
      ensures Valid() && State() == Load(old(State()), bytes, async)
    {
      forall i | 0 <= i < |bytes| {
        resp[i] := bytes[i];
      }
      respSize := |bytes|;
      respPtr := 0;
      isAsync := async;
      assert resp[..] == bytes + old(resp[..])[|bytes|..];
    }

    /** The reading branch for one message. */
    method ReadMessage(m: Msg) returns (r: Msg)
      requires Valid() && m.rd && m.len <= |m.buf|
      modifies this`respPtr, this`respSize
      ensures Valid() && State() == PendStep(old(State()), EventOf(hwedev.pairs.State(), m))
      ensures r == Answer(old(State()), m)
    {
      if respSize != 0 {
        var sz := if respSize > m.len then m.len else respSize;
        r := m.(buf := resp[respPtr..respPtr + sz] + m.buf[sz..]);
        assert resp[respPtr..respPtr + sz] == Chunk(State(), m.len);
        respSize := respSize - sz;
        respPtr := respPtr + sz;
      } else {
        r := m.(len := 0);
      }
    }

    /** The writing branch for one message. */
    method WriteMessage(m: Msg)
      requires Valid() && !m.rd && m.len <= |m.buf|
      modifies this`respPtr, this`respSize, this`isAsync, resp
      ensures Valid() && State() == PendStep(old(State()), EventOf(hwedev.pairs.State(), m))
      ensures hwedev.pairs.State() == old(hwedev.pairs.State())
    {
      hide Inv;
      EventValid(hwedev.pairs.State(), m);
      var pair := hwedev.FindResponse(m.buf[..m.len]);
      if pair.Some? {
        LoadResponse(pair.value.resp, false);
      } else {
        respSize := 0;
      }
    }

    /** `hwe_i2c_async_rx`: the response also becomes the front of the chip memory. */
    method AsyncRx(bytes: seq<byte>)
      requires Valid() && |bytes| <= MAX_RESPONSE
      modifies this`respPtr, this`respSize, this`isAsync, resp, dat
      ensures Valid()
      ensures State() == if inUse then Deliver(old(State()), bytes) else old(State())
      ensures Memory() == if inUse then Smbus.AsyncLoad(old(Memory()), bytes) else old(Memory())
    {
      if !inUse {
        return;
      }
      var n := if |bytes| < Smbus.CHIP_SIZE then |bytes| else Smbus.CHIP_SIZE;
      forall i | 0 <= i < n {
        dat[i] := bytes[i];
      }
      assert dat[..] == Smbus.Overwrite(old(dat[..]), 0, bytes[..n]);
      if respSize != 0 && (!isAsync || respPtr != 0) {
        return;
      }
      LoadResponse(bytes, true);
    }

    /** `do_master_xfer`. */
    method DoMasterXfer(msgs: array<Msg>) returns (err: int)
      requires Valid() && ValidMsgs(msgs[..])
      modifies this`respPtr, this`respSize, this`isAsync, resp, msgs
      ensures Valid()
      ensures var b := Xfer(old(State()), old(hwedev.pairs.State()), old(msgs[..]));
        State() == b.p && msgs[..] == b.msgs && err == Ret(msgs.Length, b.ok)
    {
      hide Inv, Answer, EventOf, PendStep;
      ghost var start, reg, all := State(), hwedev.pairs.State(), msgs[..];
      var num := msgs.Length;
      err := num;
      for i := 0 to num
        invariant Valid() && hwedev.pairs.State() == reg
        invariant State() == Xfer(start, reg, all[..i]).p
        invariant msgs[..i] == Xfer(start, reg, all[..i]).msgs && msgs[i..] == all[i..]
        invariant err == Ret(num, Xfer(start, reg, all[..i]).ok)
      {
        var m := msgs[i];
        assert m == all[i..][0] == all[i];
        OneMessage(start, reg, all, i);
        Replaced(msgs[..], all, i, Answer(State(), m));
        if m.rd {
          if respSize == 0 {
            err := -EINVAL;
          }
          var r := ReadMessage(m);
          msgs[i] := r;
        } else {
          WriteKept(State(), m);
          assert msgs[..][i := m] == msgs[..];
          WriteMessage(m);
        }
      }
      assert all[..num] == all && msgs[..num] == msgs[..];
    }

    /** `hwei2c_master_xfer`: nothing happens on a device that is being removed. */
    method MasterXfer(msgs: array<Msg>) returns (err: int)
      requires Valid() && ValidMsgs(msgs[..])
      modifies this`respPtr, this`respSize, this`isAsync, resp, msgs
      ensures Valid()
      ensures !inUse ==> err == -ENODEV && State() == old(State()) && msgs[..] == old(msgs[..])
      ensures inUse ==> var b := Xfer(old(State()), old(hwedev.pairs.State()), old(msgs[..]));
        State() == b.p && msgs[..] == b.msgs && err == Ret(msgs.Length, b.ok)
      ensures inUse ==> err == msgs.Length || err == -EINVAL
      ensures inUse ==> MapBatch(ToMap(old(hwedev.pairs.State()).recs), Remaining(old(State())), old(msgs[..]),
        Remaining(State()), msgs[..], err == msgs.Length)
    {
      hide Inv, Xfer, ToMap, Remaining, MapBatch;
      err := -ENODEV;
      if inUse {
        BatchMeans(State(), hwedev.pairs.State(), msgs[..]);
        err := DoMasterXfer(msgs);
      }
    }

    /** `do_smbus_xfer` on the data union `data`. */
    method DoSmbusXfer(write: bool, command: byte, protocol: Smbus.Protocol, data: array<byte>) returns (err: int)
      requires Valid() && data.Length == Smbus.DATA_SIZE && data != dat && data != resp
      modifies this`pos, dat, data
      ensures Valid() && State() == old(State())
      ensures (Memory(), data[..], err) == Smbus.Xfer(old(Memory()), Smbus.Transfer(write, command, protocol, old(data[..])))
    {
      hide Inv, PendValid, Smbus.Overwrite, Smbus.BlockLength;
      err := 0;
      match protocol
      case Quick =>
      case Byte =>
        if write {
          pos := command;
        } else {
          data[0] := dat[pos];
          pos := (pos + 1) % 256;
        }
      case ByteData =>
        if write {
          dat[command] := data[0];
        } else {
          data[0] := dat[command];
        }
        pos := (command + 1) % 256;
      case WordData =>
        WordTransfer(write, command, data);
      case I2cBlockData =>
        BlockTransfer(write, command, data);
      case BlockData =>
        BlockTransfer(write, command, data);
      case Unsupported =>
        err := -EOPNOTSUPP;
    }

    /** The word case; at the last address only the low byte has room. */
    method WordTransfer(write: bool, command: byte, data: array<byte>)
      requires dat.Length == Smbus.CHIP_SIZE && data.Length == Smbus.DATA_SIZE && data != dat
      modifies dat, data
      ensures (Memory(), data[..], 0) == Smbus.Xfer(old(Memory()), Smbus.Transfer(write, command, Smbus.WordData, old(data[..])))
    {
      if write {
        dat[command] := data[0];
        if command < 0xFF {
          dat[command + 1] := data[1];
          assert dat[..] == Smbus.Overwrite(old(dat[..]), command, old(data[..])[..2]);
        } else {
          assert dat[..] == Smbus.Overwrite(old(dat[..]), command, old(data[..])[..1]);
        }
      } else {
        data[0] := dat[command];
        data[1] := if command < 0xFF then dat[command + 1] else 0;
        if command < 0xFF {
          assert data[..] == Smbus.Overwrite(old(data[..]), 0, dat[..][command..command + 2]);
        } else {
          assert data[..] == Smbus.Overwrite(old(data[..]), 0, [dat[command], 0]);
        }
      }
    }

    /** The two clamps of the block cases. */
    method ClampLength(command: byte, data: array<byte>)
      requires data.Length == Smbus.DATA_SIZE
      modifies data
      ensures data[..] == old(data[..])[0 := Smbus.BlockLength(old(data[0]), command)]
    {
      if data[0] > Smbus.BLOCK_MAX {
        data[0] := Smbus.BLOCK_MAX;
      }
      if data[0] > Smbus.CHIP_SIZE - command {
        data[0] := Smbus.CHIP_SIZE - command;
      }
    }

    /** The block cases: the clamps, then a loop over the bytes. */
    method BlockTransfer(write: bool, command: byte, data: array<byte>)
      requires dat.Length == Smbus.CHIP_SIZE && data.Length == Smbus.DATA_SIZE && data != dat
      modifies dat, data
      ensures (Memory(), data[..], 0) == Smbus.Xfer(old(Memory()), Smbus.Transfer(write, command, Smbus.BlockData, old(data[..])))
    {
      hide Smbus.Overwrite, Smbus.BlockLength, Smbus.Xfer;
      BlockCases(Memory(), write, command, data[..]);
      ClampLength(command, data);
      var len := data[..][0];
      ghost var block, cells := data[..], dat[..];
      assert block == old(data[..])[0 := len];
      if write {
        CopyBytes(data, 1, dat, command, len);
        assert dat[..] == Smbus.Overwrite(cells, command, old(data[..])[1..1 + len]);
      } else {
        CopyBytes(dat, command, data, 1, len);
        assert data[..] == Smbus.Overwrite(block, 1, cells[command..command + len]);
      }
    }
  }

  lemma BlockCases(c: Smbus.Chip, write: bool, command: byte, data: seq<byte>)
    requires Smbus.ValidChip(c) && |data| == Smbus.DATA_SIZE
    ensures var len := Smbus.BlockLength(data[0], command);
      Smbus.Xfer(c, Smbus.Transfer(write, command, Smbus.BlockData, data)) ==
      if write then (c.(dat := Smbus.Overwrite(c.dat, command, data[1..1 + len])), data[0 := len], 0)
      else (c, Smbus.Overwrite(data[0 := len], 1, c.dat[command..command + len]), 0)
  {
  }

  /** The copying loop of the block cases. */
  method CopyBytes(src: array<byte>, from: nat, dst: array<byte>, at: nat, len: nat)
    requires src != dst && from + len <= src.Length && at + len <= dst.Length
    modifies dst
    ensures dst[..] == Smbus.Overwrite(old(dst[..]), at, src[from..from + len])
  {
    for i := 0 to len
      invariant forall k | 0 <= k < dst.Length ::
        dst[k] == if at <= k < at + i then src[from + k - at] else old(dst[k])
    {
      dst[at + i] := src[from + i];
    }
  }

  lemma Replaced(msgs: seq<Msg>, all: seq<Msg>, i: nat, m: Msg)
    requires |msgs| == |all| && i < |all| && msgs[i..] == all[i..]
    ensures msgs[i := m][..i + 1] == msgs[..i] + [m] && msgs[i := m][i + 1..] == all[i + 1..]
  {
    assert all[i..][1..] == all[i + 1..];
  }

  lemma WriteKept(p: Pend, m: Msg)
    requires PendValid(p) && m.len <= |m.buf| && !m.rd
    ensures Answer(p, m) == m
  {
  }

  lemma OneMessage(p: Pend, reg: Pairs, msgs: seq<Msg>, i: nat)
    requires PendValid(p) && Inv(reg) && ValidMsgs(msgs) && i < |msgs|
    ensures var b := Xfer(p, reg, msgs[..i]); var m := msgs[i];
      Xfer(p, reg, msgs[..i + 1]) == Batch(PendStep(b.p, EventOf(reg, m)), b.msgs + [Answer(b.p, m)], b.ok && !(m.rd && b.p.size == 0))
  {
    hide Inv, EventOf, PendStep, Answer;
    var b, m := Xfer(p, reg, msgs[..i]), msgs[i];
    assert msgs[..i + 1] == msgs[..i] + [m];
    BatchesCompose(p, reg, msgs[..i], [m]);
    EventValid(reg, m);
    assert [m][1..] == [];
  }
}
