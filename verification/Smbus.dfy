/** The SMBus chip of kernel/hwe_i2c.c: a 256-byte memory with a wrapping cursor, as specified by
    sections 5.5.2 to 5.5.5 and 5.5.7 of the SMBus 2.0 specification. */
module Smbus {
  import opened Base

  const CHIP_SIZE: nat := 256
  const BLOCK_MAX: nat := 32
  /** The size of `union i2c_smbus_data`: a block with its length byte and one spare. The `byte` and
      `word` members share its first bytes, low byte first. */
  const DATA_SIZE: nat := 34

  datatype Chip = Chip(pos: byte, dat: seq<byte>)

  predicate ValidChip(c: Chip) {
    |c.dat| == CHIP_SIZE
  }

  datatype Protocol = Quick | Byte | ByteData | WordData | I2cBlockData | BlockData | Unsupported

  datatype Transfer = Transfer(write: bool, command: byte, protocol: Protocol, data: seq<byte>) {
    predicate Valid() {
      |data| == DATA_SIZE
    }
  }

  /** The block length after both clamps. */
  function BlockLength(wanted: byte, command: byte): (n: byte)
    ensures n <= BLOCK_MAX && command + n <= CHIP_SIZE
    ensures n == wanted <==> wanted <= BLOCK_MAX && command + wanted <= CHIP_SIZE
    ensures n < wanted ==> n == BLOCK_MAX || command + n == CHIP_SIZE
    ensures n <= wanted
  {
    var n := if wanted > BLOCK_MAX then BLOCK_MAX else wanted;
    if n > CHIP_SIZE - command then CHIP_SIZE - command else n
  }

  /** `s` with `t` written over it from `at` on. */
  function Overwrite(s: seq<byte>, at: nat, t: seq<byte>): (r: seq<byte>)
    requires at + |t| <= |s|
    ensures |r| == |s|
  {
    s[..at] + t + s[at + |t|..]
  }

  function Next(b: byte): byte {
    (b + 1) % 256
  }

  /** `do_smbus_xfer`: the chip and the data union afterwards, and the return value. */
  function Xfer(c: Chip, t: Transfer): (r: (Chip, seq<byte>, int))
    requires ValidChip(c) && t.Valid()
    ensures ValidChip(r.0) && |r.1| == DATA_SIZE
  {
    match t.protocol
    case Quick => (c, t.data, 0)
    case Byte =>
      if t.write then (c.(pos := t.command), t.data, 0)
      else (c.(pos := Next(c.pos)), t.data[0 := c.dat[c.pos]], 0)
    case ByteData =>
      if t.write then (Chip(Next(t.command), c.dat[t.command := t.data[0]]), t.data, 0)
      else (c.(pos := Next(t.command)), t.data[0 := c.dat[t.command]], 0)
    case WordData =>
      var whole := t.command < 0xFF;
      if t.write then
        (c.(dat := Overwrite(c.dat, t.command, if whole then t.data[..2] else t.data[..1])), t.data, 0)
      else
        (c, Overwrite(t.data, 0, if whole then c.dat[t.command..t.command + 2] else [c.dat[t.command], 0]), 0)
    case Unsupported => (c, t.data, -EOPNOTSUPP)
    case _ =>
      var n := BlockLength(t.data[0], t.command);
      if t.write then
        (c.(dat := Overwrite(c.dat, t.command, t.data[1..1 + n])), t.data[0 := n], 0)
      else
        (c, Overwrite(t.data[0 := n], 1, c.dat[t.command..t.command + n]), 0)
  }

  /** The memory part of a timer delivery: the front of the response becomes the front of the memory. */
  function AsyncLoad(c: Chip, resp: seq<byte>): (r: Chip)
    requires ValidChip(c)
    ensures ValidChip(r)
  {
    c.(dat := Overwrite(c.dat, 0, resp[..Min(|resp|, CHIP_SIZE)]))
  }

  // ---- Runs refine a memory in which the last write to a cell wins ----

  datatype Op = Access(t: Transfer) | Delivery(resp: seq<byte>) {
    predicate Valid() {
      Access? ==> t.Valid()
    }
  }

  function Step(c: Chip, op: Op): (r: Chip)
    requires ValidChip(c) && op.Valid()
    ensures ValidChip(r)
  {
    match op case Access(t) => Xfer(c, t).0 case Delivery(resp) => AsyncLoad(c, resp)
  }

  /** One write of a value to an address. */
  datatype Store = Store(addr: nat, value: byte)

  function Consecutive(at: nat, bytes: seq<byte>): seq<Store> {
    seq(|bytes|, i requires 0 <= i < |bytes| => Store(at + i, bytes[i]))
  }

  /** The writes an operation stands for, whatever the memory holds. A word at the last address is
      only its low byte; a block is cut at 32 bytes and at the end of the memory. */
  function Stores(op: Op): seq<Store>
    requires op.Valid()
  {
    match op
    case Delivery(resp) => Consecutive(0, resp[..Min(|resp|, CHIP_SIZE)])
    case Access(t) =>
      if !t.write then []
      else match t.protocol
        case ByteData => Consecutive(t.command, t.data[..1])
        case WordData => Consecutive(t.command, t.data[..if t.command < 0xFF then 2 else 1])
        case I2cBlockData => Consecutive(t.command, t.data[1..1 + BlockLength(t.data[0], t.command)])
        case BlockData => Consecutive(t.command, t.data[1..1 + BlockLength(t.data[0], t.command)])
        case _ => []
  }

  /** The value of address `a`: that of the last write to it, or else `initial`. */
  function LastStored(stores: seq<Store>, a: nat, initial: byte): byte {
    if stores == [] then initial
    else
      var last := stores[|stores| - 1];
      if last.addr == a then last.value else LastStored(stores[..|stores| - 1], a, initial)
  }

  lemma {:induction false} LastOfConcat(s: seq<Store>, t: seq<Store>, a: nat, initial: byte)
    ensures LastStored(s + t, a, initial) == LastStored(t, a, LastStored(s, a, initial))
    decreases |t|
  {
    if t == [] {
      assert s + t == s;
    } else {
      assert (s + t)[..|s + t| - 1] == s + t[..|t| - 1];
      LastOfConcat(s, t[..|t| - 1], a, initial);
    }
  }

  lemma {:induction false} LastOfConsecutive(at: nat, bytes: seq<byte>, a: nat, initial: byte)
    ensures LastStored(Consecutive(at, bytes), a, initial) ==
      if at <= a < at + |bytes| then bytes[a - at] else initial
    decreases |bytes|
  {
    if bytes != [] {
      var n := |bytes| - 1;
      assert Consecutive(at, bytes)[..n] == Consecutive(at, bytes[..n]);
      LastOfConsecutive(at, bytes[..n], a, initial);
    }
  }

  /** One operation changes the memory as its writes do. */
  lemma StepStores(c: Chip, op: Op, a: nat)
    requires ValidChip(c) && op.Valid() && a < CHIP_SIZE
    ensures Step(c, op).dat[a] == LastStored(Stores(op), a, c.dat[a])
  {
    hide LastStored, Consecutive, BlockLength;
    match op
    case Delivery(resp) => LastOfConsecutive(0, resp[..Min(|resp|, CHIP_SIZE)], a, c.dat[a]);
    case Access(t) =>
      NothingStored(a, c.dat[a]);
      if t.write {
        match t.protocol
        case ByteData => LastOfConsecutive(t.command, t.data[..1], a, c.dat[a]);
        case WordData => LastOfConsecutive(t.command, t.data[..if t.command < 0xFF then 2 else 1], a, c.dat[a]);
        case Quick =>
        case Byte =>
        case Unsupported =>
        case _ => LastOfConsecutive(t.command, t.data[1..1 + BlockLength(t.data[0], t.command)], a, c.dat[a]);
      }
  }

  lemma NothingStored(a: nat, initial: byte)
    ensures LastStored([], a, initial) == initial
  {
  }

  predicate AllValid(ops: seq<Op>) {
    forall i | 0 <= i < |ops| :: ops[i].Valid()
  }

  function Run(c: Chip, ops: seq<Op>): (r: Chip)
    requires ValidChip(c) && AllValid(ops)
    ensures ValidChip(r)
    decreases |ops|
  {
    if ops == [] then c else Run(Step(c, ops[0]), ops[1..])
  }

  function AllStores(ops: seq<Op>): seq<Store>
    requires AllValid(ops)
  {
    if ops == [] then [] else Stores(ops[0]) + AllStores(ops[1..])
  }

  /** After any run of transfers and deliveries, every cell holds what was last written to it. */
  lemma {:induction false} LastWriteWins(c: Chip, ops: seq<Op>, a: nat)
    requires ValidChip(c) && AllValid(ops) && a < CHIP_SIZE
    ensures Run(c, ops).dat[a] == LastStored(AllStores(ops), a, c.dat[a])
    decreases |ops|
  {
    hide Step, Stores;
    NothingStored(a, c.dat[a]);
    if ops != [] {
      StepStores(c, ops[0], a);
      LastWriteWins(Step(c, ops[0]), ops[1..], a);
      LastOfConcat(Stores(ops[0]), AllStores(ops[1..]), a, c.dat[a]);
    }
  }

  // ---- Reading back ----

  /** A read byte transfer. */
  function ReadByte(data: seq<byte>): Transfer {
    Transfer(false, 0, Byte, data)
  }

  /** The bytes returned by `k` successive byte reads. */
  function ReadBytes(c: Chip, k: nat, data: seq<byte>): seq<byte>
    requires ValidChip(c) && |data| == DATA_SIZE
    decreases k
  {
    if k == 0 then []
    else
      var (c', data', _) := Xfer(c, ReadByte(data));
      [data'[0]] + ReadBytes(c', k - 1, data')
  }

  /** After setting the position to `p`, byte reads return the cells from `p` on, wrapping at 256. */
  lemma {:induction false} ByteReadsWalk(c: Chip, k: nat, data: seq<byte>)
    requires ValidChip(c) && |data| == DATA_SIZE
    ensures |ReadBytes(c, k, data)| == k
    ensures forall i | 0 <= i < k :: ReadBytes(c, k, data)[i] == c.dat[(c.pos + i) % CHIP_SIZE]
    decreases k
  {
    hide Xfer, Next;
    if k > 0 {
      ReadByteIs(c, data);
      var (c', data', _) := Xfer(c, ReadByte(data));
      ByteReadsWalk(c', k - 1, data');
      var all, rest := ReadBytes(c, k, data), ReadBytes(c', k - 1, data');
      forall i | 0 <= i < k
        ensures all[i] == c.dat[(c.pos + i) % CHIP_SIZE]
      {
        if i > 0 {
          assert all[i] == rest[i - 1];
          NextWraps(c.pos, i);
        }
      }
    }
  }

  lemma ReadByteIs(c: Chip, data: seq<byte>)
    requires ValidChip(c) && |data| == DATA_SIZE
    ensures Xfer(c, ReadByte(data)) == (c.(pos := Next(c.pos)), data[0 := c.dat[c.pos]], 0)
  {
  }

  lemma NextWraps(pos: byte, i: nat)
    requires i > 0
    ensures (Next(pos) + (i - 1)) % CHIP_SIZE == (pos + i) % CHIP_SIZE
  {
  }

  /** A byte-data transfer at `at` leaves the cursor behind it: byte reads go on from there. */
  lemma ByteDataThenRead(c: Chip, write: bool, at: byte, k: nat, data: seq<byte>)
    requires ValidChip(c) && |data| == DATA_SIZE
    ensures var c' := Xfer(c, Transfer(write, at, ByteData, data)).0;
      |ReadBytes(c', k, data)| == k
      && forall i | 0 <= i < k :: ReadBytes(c', k, data)[i] == c'.dat[(at + 1 + i) % CHIP_SIZE]
  {
    hide ReadBytes, Next;
    var c' := Xfer(c, Transfer(write, at, ByteData, data)).0;
    ByteReadsWalk(c', k, data);
    forall i | 0 <= i < k
      ensures ReadBytes(c', k, data)[i] == c'.dat[(at + 1 + i) % CHIP_SIZE]
    {
      NextWraps(at, i + 1);
    }
  }

  // ---- The cursor ----

  /** What an operation does to the cursor: a byte write sets it to its command byte, a byte-data
      transfer to the position behind that, a byte read moves it on by one. */
  datatype Move = SetTo(pos: nat) | Forward | Stay

  function MoveOf(op: Op): Move {
    if op.Delivery? then Stay
    else if op.t.protocol == ByteData then SetTo(op.t.command + 1)
    else if op.t.protocol == Byte then (if op.t.write then SetTo(op.t.command) else Forward)
    else Stay
  }

  /** The position set last, or else `initial`. */
  function LastSet(ops: seq<Op>, initial: nat): nat {
    if ops == [] then initial
    else
      var move := MoveOf(ops[|ops| - 1]);
      if move.SetTo? then move.pos else LastSet(ops[..|ops| - 1], initial)
  }

  /** The moves forward since then. */
  function ForwardSince(ops: seq<Op>): nat {
    if ops == [] then 0
    else
      match MoveOf(ops[|ops| - 1])
      case SetTo(_) => 0
      case Forward => ForwardSince(ops[..|ops| - 1]) + 1
      case Stay => ForwardSince(ops[..|ops| - 1])
  }

  lemma {:induction false} RunSnoc(c: Chip, ops: seq<Op>, op: Op)
    requires ValidChip(c) && AllValid(ops) && op.Valid()
    ensures Run(c, ops + [op]) == Step(Run(c, ops), op)
    decreases |ops|
  {
    hide Step;
    if ops == [] {
      assert ops + [op] == [op] && [op][1..] == [];
    } else {
      assert (ops + [op])[1..] == ops[1..] + [op];
      RunSnoc(Step(c, ops[0]), ops[1..], op);
    }
  }

  /** After any run of transfers and deliveries the cursor is where it was last set, moved on by one
      for every byte read since, around the 256 cells; nothing else moves it. */
  lemma {:induction false} CursorOverRuns(c: Chip, ops: seq<Op>)
    requires ValidChip(c) && AllValid(ops)
    ensures Run(c, ops).pos == (LastSet(ops, c.pos) + ForwardSince(ops)) % CHIP_SIZE
    decreases |ops|
  {
    hide Run, Step, MoveOf;
    if ops == [] {
      NoRun(c);
    } else {
      var n := |ops| - 1;
      ForwardOne(LastSet(ops[..n], c.pos) + ForwardSince(ops[..n]));
      CursorOverRuns(c, ops[..n]);
      RunSnoc(c, ops[..n], ops[n]);
      assert ops[..n] + [ops[n]] == ops;
      StepCursor(Run(c, ops[..n]), ops[n]);
    }
  }

  lemma ForwardOne(x: nat)
    ensures (x % CHIP_SIZE + 1) % CHIP_SIZE == (x + 1) % CHIP_SIZE
  {
  }

  lemma NoRun(c: Chip)
    requires ValidChip(c)
    ensures Run(c, []) == c
  {
  }

  lemma StepCursor(c: Chip, op: Op)
    requires ValidChip(c) && op.Valid()
    ensures Step(c, op).pos == match MoveOf(op)
      case SetTo(pos) => pos % CHIP_SIZE
      case Forward => (c.pos + 1) % CHIP_SIZE
      case Stay => c.pos
  {
    hide Overwrite, BlockLength;
  }

  /** Every transfer but an unsupported one succeeds; a write hands the data back as it was, but for
      the length byte of a block, and a quick or unsupported transfer has no effect at all. */
  lemma TransferReturns(c: Chip, t: Transfer)
    requires ValidChip(c) && t.Valid()
    ensures var (c', data, err) := Xfer(c, t);
      && (err == -EOPNOTSUPP <==> t.protocol == Unsupported) && (err != -EOPNOTSUPP ==> err == 0)
      && (t.write ==> data[1..] == t.data[1..])
      && (t.write && t.protocol !in {I2cBlockData, BlockData} ==> data[0] == t.data[0])
      && (t.protocol in {Quick, Unsupported} ==> c' == c && data == t.data)
  {
    hide Overwrite, BlockLength;
  }

  lemma SetPositionThenRead(c: Chip, p: byte, k: nat, data: seq<byte>)
    requires ValidChip(c) && |data| == DATA_SIZE
    ensures var c' := Xfer(c, Transfer(true, p, Byte, data)).0;
      |ReadBytes(c', k, data)| == k
      && forall i | 0 <= i < k :: ReadBytes(c', k, data)[i] == c.dat[(p + i) % CHIP_SIZE]
  {
    hide ReadBytes;
    ByteReadsWalk(Xfer(c, Transfer(true, p, Byte, data)).0, k, data);
  }

  /** A block write then a block read of the same length at the same place returns the bytes written;
      the rest of the memory and the cursor are untouched. */
  lemma BlockRoundTrip(c: Chip, at: byte, kind: Protocol, data: seq<byte>, data2: seq<byte>)
    requires kind in {I2cBlockData, BlockData}
    requires ValidChip(c) && |data| == DATA_SIZE && |data2| == DATA_SIZE && data2[0] == data[0]
    ensures var n := BlockLength(data[0], at);
      var (c', d', _) := Xfer(c, Transfer(true, at, kind, data));
      var (c'', d'', _) := Xfer(c', Transfer(false, at, kind, data2));
      && d'[0] == d''[0] == n && d''[1..1 + n] == data[1..1 + n]
      && c'' == c' && c'.pos == c.pos
      && c'.dat[..at] == c.dat[..at] && c'.dat[at + n..] == c.dat[at + n..]
  {
    hide BlockLength;
    var n := BlockLength(data[0], at);
    var c' := Xfer(c, Transfer(true, at, kind, data)).0;
    assert c'.dat[at..at + n] == data[1..1 + n];
  }

  /** A word reads back whole below the last address, and as its low byte there. */
  lemma WordRoundTrip(c: Chip, at: byte, data: seq<byte>, data2: seq<byte>)
    requires ValidChip(c) && |data| == DATA_SIZE && |data2| == DATA_SIZE
    ensures var c' := Xfer(c, Transfer(true, at, WordData, data)).0;
      var back := Xfer(c', Transfer(false, at, WordData, data2)).1;
      back[0] == data[0] && back[1] == (if at < 0xFF then data[1] else 0)
  {
  }

  /** The value of a cell after a run: the last write to it, or what it held before. */
  function CellAfter(c: Chip, ops: seq<Op>, a: nat): byte
    requires ValidChip(c) && AllValid(ops) && a < CHIP_SIZE
  {
    LastStored(AllStores(ops), a, c.dat[a])
  }

  /** Over any run: a read returns, for each cell it covers, the value last written to that cell, by
      whatever kind of transfer or delivery; it changes no cell and no other byte of the data. */
  lemma ReadsSeeLastWrites(c: Chip, ops: seq<Op>, t: Transfer)
    requires ValidChip(c) && AllValid(ops) && t.Valid() && !t.write
    ensures var before := Run(c, ops); var (after, data, _) := Xfer(before, t);
      && after.dat == before.dat
      && (t.protocol == Byte ==> data == t.data[0 := CellAfter(c, ops, before.pos)])
      && (t.protocol == ByteData ==> data == t.data[0 := CellAfter(c, ops, t.command)])
    ensures t.protocol == WordData ==> var data := Xfer(Run(c, ops), t).1;
      && data[0] == CellAfter(c, ops, t.command) && data[2..] == t.data[2..]
      && data[1] == if t.command == 0xFF then 0 else CellAfter(c, ops, t.command + 1)
    ensures t.protocol in {I2cBlockData, BlockData} ==> var data := Xfer(Run(c, ops), t).1;
      var n := BlockLength(t.data[0], t.command);
      && data[0] == n && data[1 + n..] == t.data[1 + n..]
      && forall i | 1 <= i < 1 + n :: data[i] == CellAfter(c, ops, t.command + i - 1)
  {
    hide Run, AllStores, LastStored, BlockLength;
    forall a: nat | a < CHIP_SIZE
      ensures Run(c, ops).dat[a] == CellAfter(c, ops, a)
    {
      LastWriteWins(c, ops, a);
    }
  }
}
