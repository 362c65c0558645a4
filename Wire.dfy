/**
 * Wire types of the bridge: the task handed in by the device front-end,
 * its flag byte, the packed control-task and result records that travel
 * over the transport, the three packets, the per-slot lifecycle record
 * and the task-table entry.
 *
 * Byte layouts are those of the packed (`pack(1)`) structures on a
 * little-endian host: multi-byte integers are stored least significant
 * byte first and the signed slot id is one two's-complement byte.
 */
module Wire {

  const MAX_BATCH_THRESHOLD: nat := 3
  const TASK_HEADER_SIZE: nat := 10
  const TASK_CTRL_DATA_SIZE: nat := 16
  const TASK_CTRL_PKT_SIZE: nat := TASK_HEADER_SIZE + TASK_CTRL_DATA_SIZE
  const TASK_DATA_SIZE: nat := 64
  const RESULT_DATA_SIZE: nat := 32
  /** Bytes of one packed result: valid, slot id, executed time, content. */
  const RESULT_SIZE: nat := 1 + 1 + 8 + RESULT_DATA_SIZE

  const TWO32: int := 0x1_0000_0000
  const TWO64: int := 0x1_0000_0000_0000_0000

  /** An octet, as the integer it denotes. */
  newtype byte = x: int | 0 <= x < 256
  type uint32 = x: int | 0 <= x < 0x1_0000_0000
  type uint64 = x: int | 0 <= x < 0x1_0000_0000_0000_0000
  type int8 = x: int | -128 <= x < 128

  /** Unsigned 64-bit subtraction, wrapping as the source's `uint64_t` does. */
  function Sub64(a: uint64, b: uint64): (r: uint64)
    ensures a >= b ==> r == a - b
    ensures a < b ==> r == a - b + TWO64
  {
    (a - b) % TWO64
  }

  // ---------------------------------------------------------------------
  // Little-endian integers

  function Pow256(n: nat): (p: nat)
    ensures p > 0
  {
    if n == 0 then 1 else 256 * Pow256(n - 1)
  }

  /** The `n` low-order bytes of `x`, least significant first. */
  function LE(x: nat, n: nat): (s: seq<byte>)
    requires x < Pow256(n)
    ensures |s| == n
  {
    if n == 0 then [] else [(x % 256) as byte] + LE(x / 256, n - 1)
  }

  /** The number a little-endian byte string denotes. */
  function FromLE(s: seq<byte>): (x: nat)
    ensures x < Pow256(|s|)
  {
    if s == [] then 0 else s[0] as nat + 256 * FromLE(s[1..])
  }

  lemma DivMod256(x: nat, n: nat)
    requires n > 0 && x < Pow256(n)
    ensures x / 256 < Pow256(n - 1) && x == 256 * (x / 256) + x % 256
  {
  }

  lemma DivMod256Unique(b: nat, y: nat)
    requires b < 256
    ensures (b + 256 * y) % 256 == b && (b + 256 * y) / 256 == y
  {
  }

  lemma {:induction false} FromLEOfLE(x: nat, n: nat)
    requires x < Pow256(n)
    ensures FromLE(LE(x, n)) == x
  {
    if n > 0 {
      DivMod256(x, n);
      var s := LE(x, n);
      var lo, hi := x % 256, x / 256;
      assert s == [lo as byte] + LE(hi, n - 1);
      assert s[1..] == LE(hi, n - 1);
      FromLEOfLE(hi, n - 1);
      assert FromLE(s) == s[0] as nat + 256 * FromLE(s[1..]);
    }
  }

  lemma {:induction false} LEOfFromLE(s: seq<byte>)
    ensures LE(FromLE(s), |s|) == s
  {
    if s != [] {
      LEOfFromLE(s[1..]);
      var x := FromLE(s);
      DivMod256Unique(s[0] as nat, FromLE(s[1..]));
      assert x % 256 == s[0] as nat;
      assert x / 256 == FromLE(s[1..]);
      assert ((x % 256) as byte) == s[0];
    }
  }

  lemma Pow256Values()
    ensures Pow256(4) == TWO32 && Pow256(8) == TWO64
  {
    assert Pow256(2) == 65536;
    assert Pow256(4) == 65536 * 65536;
  }

  /** The signed slot id as its two's-complement byte. */
  function I8Byte(v: int8): (b: byte)
    ensures ByteI8(b) == v
  {
    (if v < 0 then v + 256 else v) as byte
  }

  function ByteI8(b: byte): (v: int8)
  {
    if b as int >= 128 then b as int - 256 else b as int
  }

  lemma I8ByteOfByteI8(b: byte)
    ensures I8Byte(ByteI8(b)) == b
  {
  }

  // ---------------------------------------------------------------------
  // The task and its flag byte

  /**
   * A task as the front-end builds it (`PCIeTask`): flag byte, slot id,
   * insert time, 64 content bytes, and the address and size of a data
   * task.
   */
  datatype PCIeTask = PCIeTask(
    basic: byte,
    tableID: int8,
    insertTime: uint64,
    content: seq<byte>,
    addr: uint32,
    size: uint32)

  predicate WellFormed(t: PCIeTask)
  {
    |t.content| == TASK_DATA_SIZE
  }

  function Zeros(n: nat): (s: seq<byte>)
    ensures |s| == n && forall i :: 0 <= i < n ==> s[i] == 0
  {
    seq(n, _ => 0)
  }

  /** The default-constructed task. */
  function DefaultTask(): (t: PCIeTask)
    ensures WellFormed(t) && t.content == Zeros(TASK_DATA_SIZE)
    ensures !IsValid(t) && !IsNeedResp(t) && !IsCtrl(t) && !IsData(t)
    ensures t.tableID == -1 && t.insertTime == 0 && t.addr == 0 && t.size == 0
  {
    PCIeTask(0, -1, 0, Zeros(TASK_DATA_SIZE), 0, 0)
  }

  // The flag bits are tested and changed arithmetically: bit k of b is
  // (b / 2^k) % 2 and the bits above k are b / 2^(k+1).

  /** Bit 0: the task is valid. */
  predicate IsValid(t: PCIeTask) { t.basic % 2 == 1 }
  /** Bit 1: the task needs a response. */
  predicate IsNeedResp(t: PCIeTask) { (t.basic / 2) % 2 == 1 }
  /** Bit 2: a write request. */
  predicate IsWrite(t: PCIeTask) { (t.basic / 4) % 2 == 1 }
  /** Bit 3: a read request. */
  predicate IsRead(t: PCIeTask) { (t.basic / 8) % 2 == 1 }
  /** Bit 4: a data task. */
  predicate IsData(t: PCIeTask) { (t.basic / 16) % 2 == 1 }

  predicate IsCtrl(t: PCIeTask)
  {
    IsRead(t) || IsWrite(t)
  }

  /** A flag as the bit it occupies. */
  function Bit(f: bool): nat
  {
    if f then 1 else 0
  }

  /**
   * The five tests read five distinct bits, 0 to 4, of the flag byte:
   * those bits and the three above them make up the byte.
   */
  lemma FlagBits(t: PCIeTask)
    ensures t.basic as int == Bit(IsValid(t)) + 2 * Bit(IsNeedResp(t)) + 4 * Bit(IsWrite(t))
                              + 8 * Bit(IsRead(t)) + 16 * Bit(IsData(t)) + 32 * (t.basic as int / 32)
  {
    var b := t.basic as int;
    var b1, b2, b3, b4, b5 := b / 2, b / 4, b / 8, b / 16, b / 32;
    assert b1 / 2 == b2 && b2 / 2 == b3 && b3 / 2 == b4 && b4 / 2 == b5;
    assert b == b % 2 + 2 * b1 && b1 == b1 % 2 + 2 * b2 && b2 == b2 % 2 + 2 * b3;
    assert b3 == b3 % 2 + 2 * b4 && b4 == b4 % 2 + 2 * b5;
  }

  /** `basic |= 1 << 0`: sets bit 0 only. */
  function SetValid(t: PCIeTask): (r: PCIeTask)
    ensures IsValid(r) && r.basic / 2 == t.basic / 2
    ensures r == t.(basic := r.basic)
  {
    t.(basic := if t.basic % 2 == 1 then t.basic else t.basic + 1)
  }

  /** `basic &= 0 << 0`: clears the whole flag byte, not only bit 0. */
  function UnsetValid(t: PCIeTask): (r: PCIeTask)
    ensures !IsValid(r) && !IsNeedResp(r) && !IsCtrl(r) && !IsData(r)
    ensures r.basic == 0 && r == t.(basic := 0)
  {
    t.(basic := 0)
  }

  /** `basic |= 1 << 1`: sets bit 1 only. */
  function SetNeedResp(t: PCIeTask): (r: PCIeTask)
    ensures IsNeedResp(r) && r.basic % 2 == t.basic % 2 && r.basic / 4 == t.basic / 4
    ensures r == t.(basic := r.basic)
  {
    t.(basic := if (t.basic / 2) % 2 == 1 then t.basic else t.basic + 2)
  }

  /** Bit 1 cleared, then `basic |= 1 << 2`: the other six bits are kept. */
  function SetWriteType(t: PCIeTask): (r: PCIeTask)
    ensures IsWrite(r) && !IsNeedResp(r) && r.basic % 2 == t.basic % 2 && r.basic / 8 == t.basic / 8
    ensures r == t.(basic := r.basic)
  {
    var b := t.basic as int;
    var b0, hi := b % 2, b / 8;
    var r := b0 + 4 + 8 * hi;
    assert r % 2 == b0 && r / 2 == 2 + 4 * hi;
    assert r / 4 == 1 + 2 * hi && r / 8 == hi;
    t.(basic := r as byte)
  }

  /** Bit 1 cleared, then `basic |= 1 << 3`: the other six bits are kept. */
  function SetReadType(t: PCIeTask): (r: PCIeTask)
    ensures IsRead(r) && !IsNeedResp(r) && r.basic % 2 == t.basic % 2
    ensures (r.basic / 4) % 2 == (t.basic / 4) % 2 && r.basic / 16 == t.basic / 16
    ensures r == t.(basic := r.basic)
  {
    var b := t.basic as int;
    var b0, b2, hi := b % 2, (b / 4) % 2, b / 16;
    var r := b0 + 4 * b2 + 8 + 16 * hi;
    assert r % 2 == b0 && r / 2 == 2 * b2 + 4 + 8 * hi;
    assert r / 4 == b2 + 2 + 4 * hi;
    assert r / 8 == 1 + 2 * hi && r / 16 == hi;
    t.(basic := r as byte)
  }

  /** Bit 1 cleared, then `basic |= 1 << 4`: the other six bits are kept. */
  function SetDataType(t: PCIeTask): (r: PCIeTask)
    ensures IsData(r) && !IsNeedResp(r) && r.basic % 2 == t.basic % 2
    ensures (r.basic / 4) % 4 == (t.basic / 4) % 4 && r.basic / 32 == t.basic / 32
    ensures r == t.(basic := r.basic)
  {
    var b := t.basic as int;
    var b0, mid, hi := b % 2, (b / 4) % 4, b / 32;
    var r := b0 + 4 * mid + 16 + 32 * hi;
    assert r % 2 == b0 && r / 2 == 2 * mid + 8 + 16 * hi;
    assert r / 4 == mid + 4 + 8 * hi;
    assert r / 16 == 1 + 2 * hi && r / 32 == hi;
    t.(basic := r as byte)
  }

  /** A fatal assertion of the source either holds or stops the program. */
  datatype Outcome<T> = Done(value: T) | Abort

  /** `s` with its first `|data|` bytes replaced by `data`. */
  function Overwrite(s: seq<byte>, data: seq<byte>): (r: seq<byte>)
    requires |data| <= |s|
    ensures |r| == |s| && r[..|data|] == data && r[|data|..] == s[|data|..]
  {
    data + s[|data|..]
  }

  /**
   * `fillData(start_addr, data, size)`: a control task accepts the copy
   * only when `start_addr + size` (32-bit sum) is at most 16, a data task
   * records the address and size, any other task aborts.  The bytes go
   * to the front of the content in both cases; a copy longer than the
   * 64 content bytes, which the source does not check, is an abort too.
   */
  function FillData(t: PCIeTask, startAddr: uint32, data: seq<byte>): (r: Outcome<PCIeTask>)
    requires WellFormed(t)
    ensures r.Done? <==>
              |data| <= TASK_DATA_SIZE &&
              ((IsCtrl(t) && (startAddr + |data|) % TWO32 <= TASK_CTRL_DATA_SIZE) ||
               (!IsCtrl(t) && IsData(t)))
    ensures r.Done? ==> WellFormed(r.value) && r.value.content[..|data|] == data
    ensures r.Done? ==> r.value.content[|data|..] == t.content[|data|..]
    ensures r.Done? ==> r.value.basic == t.basic && r.value.tableID == t.tableID
    ensures r.Done? ==> r.value.insertTime == t.insertTime
    ensures r.Done? && IsCtrl(t) ==> r.value.addr == t.addr && r.value.size == t.size
    ensures r.Done? && !IsCtrl(t) ==> r.value.addr == startAddr && r.value.size == |data|
  {
    if |data| > TASK_DATA_SIZE then Abort
    else if IsCtrl(t) then
      if (startAddr + |data|) % TWO32 <= TASK_CTRL_DATA_SIZE then
        Done(t.(content := Overwrite(t.content, data)))
      else Abort
    else if IsData(t) then
      Done(t.(addr := startAddr, size := |data|, content := Overwrite(t.content, data)))
    else Abort
  }

  // ---------------------------------------------------------------------
  // Packed records

  /** `PCIeCtrlTask`: the 26-byte control task of a request packet. */
  datatype CtrlTask = CtrlTask(basic: byte, tableID: int8, insertTime: uint64, content: seq<byte>)

  predicate CtrlWellFormed(c: CtrlTask)
  {
    |c.content| == TASK_CTRL_DATA_SIZE
  }

  /** What `PCIeReqPkt::fillTask` copies out of a task. */
  function ToCtrlTask(t: PCIeTask): (c: CtrlTask)
    requires WellFormed(t)
    ensures CtrlWellFormed(c) && c.content == t.content[..TASK_CTRL_DATA_SIZE]
    ensures c.basic == t.basic && c.tableID == t.tableID && c.insertTime == t.insertTime
  {
    CtrlTask(t.basic, t.tableID, t.insertTime, t.content[..TASK_CTRL_DATA_SIZE])
  }

  function EncodeCtrlTask(c: CtrlTask): (s: seq<byte>)
    requires CtrlWellFormed(c)
    ensures |s| == TASK_CTRL_PKT_SIZE
  {
    Pow256Values();
    [c.basic, I8Byte(c.tableID)] + LE(c.insertTime, 8) + c.content
  }

  function DecodeCtrlTask(s: seq<byte>): (c: CtrlTask)
    requires |s| == TASK_CTRL_PKT_SIZE
    ensures CtrlWellFormed(c)
  {
    Pow256Values();
    CtrlTask(s[0], ByteI8(s[1]), FromLE(s[2..10]), s[10..])
  }

  lemma DecodeEncodeCtrlTask(c: CtrlTask)
    requires CtrlWellFormed(c)
    ensures DecodeCtrlTask(EncodeCtrlTask(c)) == c
  {
    Pow256Values();
    var s := EncodeCtrlTask(c);
    assert s[2..10] == LE(c.insertTime, 8);
    FromLEOfLE(c.insertTime, 8);
    assert s[10..] == c.content;
  }

  lemma EncodeDecodeCtrlTask(s: seq<byte>)
    requires |s| == TASK_CTRL_PKT_SIZE
    ensures EncodeCtrlTask(DecodeCtrlTask(s)) == s
  {
    Pow256Values();
    LEOfFromLE(s[2..10]);
    I8ByteOfByteI8(s[1]);
    assert s == [s[0], s[1]] + s[2..10] + s[10..];
  }

  /** `PCIeResult`: the 42-byte result of a response packet. */
  datatype Result = Result(valid: byte, tableID: int8, executedTime: uint64, content: seq<byte>)

  predicate ResultWellFormed(r: Result)
  {
    |r.content| == RESULT_DATA_SIZE
  }

  function ZeroResult(): (r: Result)
    ensures ResultWellFormed(r) && r.valid == 0 && r.content == Zeros(RESULT_DATA_SIZE)
  {
    Result(0, 0, 0, Zeros(RESULT_DATA_SIZE))
  }

  function EncodeResult(r: Result): (s: seq<byte>)
    requires ResultWellFormed(r)
    ensures |s| == RESULT_SIZE
  {
    Pow256Values();
    [r.valid, I8Byte(r.tableID)] + LE(r.executedTime, 8) + r.content
  }

  function DecodeResult(s: seq<byte>): (r: Result)
    requires |s| == RESULT_SIZE
    ensures ResultWellFormed(r)
  {
    Pow256Values();
    Result(s[0], ByteI8(s[1]), FromLE(s[2..10]), s[10..])
  }

  lemma DecodeEncodeResult(r: Result)
    requires ResultWellFormed(r)
    ensures DecodeResult(EncodeResult(r)) == r
  {
    Pow256Values();
    var s := EncodeResult(r);
    assert s[2..10] == LE(r.executedTime, 8);
    FromLEOfLE(r.executedTime, 8);
    assert s[10..] == r.content;
  }

  // ---------------------------------------------------------------------
  // Packet images

  function CtrlTasksImage(ts: seq<CtrlTask>): seq<byte>
    requires forall i :: 0 <= i < |ts| ==> CtrlWellFormed(ts[i])
  {
    if ts == [] then [] else EncodeCtrlTask(ts[0]) + CtrlTasksImage(ts[1..])
  }

  lemma {:induction false} CtrlTasksImageLength(ts: seq<CtrlTask>)
    requires forall i :: 0 <= i < |ts| ==> CtrlWellFormed(ts[i])
    ensures |CtrlTasksImage(ts)| == TASK_CTRL_PKT_SIZE * |ts|
  {
    if ts != [] {
      CtrlTasksImageLength(ts[1..]);
    }
  }

  function ResultsImage(rs: seq<Result>): seq<byte>
    requires forall i :: 0 <= i < |rs| ==> ResultWellFormed(rs[i])
  {
    if rs == [] then [] else EncodeResult(rs[0]) + ResultsImage(rs[1..])
  }

  lemma {:induction false} ResultsImageLength(rs: seq<Result>)
    requires forall i :: 0 <= i < |rs| ==> ResultWellFormed(rs[i])
    ensures |ResultsImage(rs)| == RESULT_SIZE * |rs|
  {
    if rs != [] {
      ResultsImageLength(rs[1..]);
    }
  }

  /** The `n` packed results at the front of `s`. */
  function DecodeResults(s: seq<byte>, n: nat): (rs: seq<Result>)
    requires |s| == RESULT_SIZE * n
    ensures |rs| == n && forall i :: 0 <= i < n ==> ResultWellFormed(rs[i])
  {
    if n == 0 then [] else [DecodeResult(s[..RESULT_SIZE])] + DecodeResults(s[RESULT_SIZE..], n - 1)
  }

  lemma {:induction false} DecodeResultsImage(rs: seq<Result>)
    requires forall i :: 0 <= i < |rs| ==> ResultWellFormed(rs[i])
    ensures |ResultsImage(rs)| == RESULT_SIZE * |rs|
    ensures DecodeResults(ResultsImage(rs), |rs|) == rs
  {
    ResultsImageLength(rs);
    if rs != [] {
      var s := ResultsImage(rs);
      ResultsImageLength(rs[1..]);
      assert s[..RESULT_SIZE] == EncodeResult(rs[0]);
      assert s[RESULT_SIZE..] == ResultsImage(rs[1..]);
      DecodeEncodeResult(rs[0]);
      DecodeResultsImage(rs[1..]);
    }
  }

  /** Transfer size of a request packet for batch limit `limit`. */
  function ReqPktSize(limit: nat): nat
  {
    1 + 1 + TASK_CTRL_PKT_SIZE * limit
  }

  /** Transfer size of a response packet for batch limit `limit`. */
  function RespPktSize(limit: nat): nat
  {
    1 + 1 + RESULT_SIZE * limit
  }

  /** Transfer size of a data packet for batch limit `limit`. */
  function DataPktSize(limit: nat): nat
  {
    4 + 4 + TASK_DATA_SIZE * limit
  }

  /** The bytes a request packet puts on the wire: header and `limit` tasks. */
  function ReqImage(valid: byte, batch: byte, tasks: seq<CtrlTask>, limit: nat): seq<byte>
    requires limit <= |tasks| && forall i :: 0 <= i < |tasks| ==> CtrlWellFormed(tasks[i])
  {
    [valid, batch] + CtrlTasksImage(tasks[..limit])
  }

  /** The request-packet size formula is the length of its packed image. */
  lemma ReqImageSize(valid: byte, batch: byte, tasks: seq<CtrlTask>, limit: nat)
    requires limit <= |tasks| && forall i :: 0 <= i < |tasks| ==> CtrlWellFormed(tasks[i])
    ensures |ReqImage(valid, batch, tasks, limit)| == ReqPktSize(limit) == 2 + 26 * limit
  {
    CtrlTasksImageLength(tasks[..limit]);
  }

  /** `PCIeRespPkt`: a response packet, copied by value into the response queue. */
  datatype RespPkt = RespPkt(valid: byte, batch: byte, results: seq<Result>, size: nat)

  predicate RespWellFormed(p: RespPkt)
  {
    && |p.results| == MAX_BATCH_THRESHOLD
    && forall i :: 0 <= i < |p.results| ==> ResultWellFormed(p.results[i])
  }

  /** `PCIeRespPkt(limit)`: invalid, sized for `limit` results. */
  function NewRespPkt(limit: nat): (p: RespPkt)
    ensures RespWellFormed(p) && p.valid == 0 && p.size == 2 + 42 * limit
  {
    RespPkt(0, 0, seq(MAX_BATCH_THRESHOLD, _ => ZeroResult()), RespPktSize(limit))
  }

  /** The bytes a response packet occupies on the wire. */
  function RespImage(p: RespPkt, limit: nat): seq<byte>
    requires RespWellFormed(p) && limit <= MAX_BATCH_THRESHOLD
  {
    [p.valid, p.batch] + ResultsImage(p.results[..limit])
  }

  /** Reading `RespPktSize(limit)` bytes from the device yields this packet. */
  function DecodeRespImage(s: seq<byte>, limit: nat, old_: RespPkt): (p: RespPkt)
    requires RespWellFormed(old_) && limit <= MAX_BATCH_THRESHOLD && |s| == RespPktSize(limit)
    ensures RespWellFormed(p) && p.size == old_.size
    ensures p.results[limit..] == old_.results[limit..]
  {
    RespPkt(s[0], s[1], DecodeResults(s[2..], limit) + old_.results[limit..], old_.size)
  }

  /** Decoding the image of a packet gives back that packet. */
  lemma DecodeRespImageOfImage(p: RespPkt, limit: nat)
    requires RespWellFormed(p) && limit <= MAX_BATCH_THRESHOLD
    ensures |RespImage(p, limit)| == RespPktSize(limit) == 2 + 42 * limit
    ensures DecodeRespImage(RespImage(p, limit), limit, p) == p
  {
    DecodeResultsImage(p.results[..limit]);
    var s := RespImage(p, limit);
    assert s[2..] == ResultsImage(p.results[..limit]);
    assert p.results[..limit] + p.results[limit..] == p.results;
  }

  // ---------------------------------------------------------------------
  // Bookkeeping records

  /** `LifeCycle`: per-slot timestamps. */
  datatype LifeCycle = LifeCycle(
    valid: bool,
    needResp: bool,
    recvTime: uint64,
    preSubmitTime: uint64,
    postSubmitTime: uint64,
    preCollectTime: uint64,
    postCollectTime: uint64,
    respTime: uint64,
    preHwTime: uint64,
    postHwTime: uint64)

  /** `LifeCycle::reset`: invalid with every timestamp 0. */
  function ResetLifeCycle(): (l: LifeCycle)
    ensures !l.valid && !l.needResp
    ensures l.recvTime == l.preSubmitTime == l.postSubmitTime == 0
    ensures l.preCollectTime == l.postCollectTime == l.respTime == 0
    ensures l.preHwTime == l.postHwTime == 0
  {
    LifeCycle(false, false, 0, 0, 0, 0, 0, 0, 0, 0)
  }

  /** `taskTableEntry`: one slot of the in-flight task table. */
  datatype TableEntry = TableEntry(
    valid: bool,
    complete: bool,
    tableID: int8,
    taskUID: nat,
    task: PCIeTask,
    result: Result,
    enqueueTime: uint64)

  /**
   * `taskTableEntry(id)`: neither valid nor complete, carrying its id.
   * Fields the source leaves uninitialised are given zero values here.
   */
  function NewTableEntry(id: int8): (e: TableEntry)
    ensures !e.valid && !e.complete && e.tableID == id && e.enqueueTime == 0
  {
    TableEntry(false, false, id, 0, DefaultTask(), ZeroResult(), 0)
  }

  // ---------------------------------------------------------------------
  // Packets the bridge keeps on the heap

  /** `PCIeReqPkt`: the outstanding request packet. */
  class ReqPkt {
    var valid: byte
    var batch: byte
    const tasks: array<CtrlTask>
    const size: nat

    ghost predicate Valid()
      reads this, tasks
    {
      tasks.Length == MAX_BATCH_THRESHOLD && forall i :: 0 <= i < tasks.Length ==> CtrlWellFormed(tasks[i])
    }

    constructor (limit: nat)
      ensures Valid() && fresh(tasks) && valid == 0 && size == ReqPktSize(limit)
    {
      valid := 0;
      batch := 0;
      size := 1 + 1 + TASK_CTRL_PKT_SIZE * limit;
      var blank := CtrlTask(0, 0, 0, Zeros(TASK_CTRL_DATA_SIZE));
      tasks := new CtrlTask[MAX_BATCH_THRESHOLD](_ => blank);
    }

    /** `fillTask(index, task)`: slot `index` takes the task's control fields. */
    method FillTask(index: nat, task: PCIeTask)
      requires Valid() && index < MAX_BATCH_THRESHOLD && WellFormed(task)
      modifies tasks
      ensures Valid()
      ensures tasks[..] == old(tasks[..])[index := ToCtrlTask(task)]
    {
      tasks[index] := ToCtrlTask(task);
    }
  }

  /** `PCIeDataPkt`: the outstanding data packet. */
  class DataPkt {
    var startAddr: uint32
    var totalSize: uint32
    const data: array<byte>
    const size: nat

    ghost predicate Valid()
      reads this
    {
      data.Length == MAX_BATCH_THRESHOLD * TASK_DATA_SIZE
    }

    constructor (limit: nat)
      ensures Valid() && fresh(data) && size == DataPktSize(limit)
      ensures startAddr == 0 && totalSize == 0 && data[..] == Zeros(MAX_BATCH_THRESHOLD * TASK_DATA_SIZE)
    {
      startAddr := 0;
      totalSize := 0;
      data := new byte[MAX_BATCH_THRESHOLD * TASK_DATA_SIZE](_ => 0);
      size := 4 + 4 + TASK_DATA_SIZE * limit;
    }

    /**
     * `fillTask(index, task)`.  Index 0 starts a packet at the task's
     * address; a later index is accepted only when the task starts where
     * the packet ends (32-bit sums), and then extends the total size.
     */
    method FillTask(index: nat, task: PCIeTask) returns (result: int)
      requires Valid() && WellFormed(task)
      modifies this, data
      ensures Valid()
      ensures result == 0 || result == -1
      ensures index == 0 ==> result == 0 && startAddr == task.addr && totalSize == task.size
      ensures index == 0 ==> data[..TASK_DATA_SIZE] == task.content
      ensures index == 0 ==> data[TASK_DATA_SIZE..] == old(data[TASK_DATA_SIZE..])
      ensures index > 0 ==>
                (result == -1 <==> (old(startAddr) + old(totalSize)) % TWO32 != task.addr)
      ensures index > 0 && result == -1 ==> startAddr == old(startAddr) && totalSize == old(totalSize)
      ensures index > 0 && result == 0 ==>
                startAddr == old(startAddr) && totalSize == (old(totalSize) + task.size) % TWO32
      ensures index > 0 ==> data[..] == old(data[..])
    {
      if index == 0 {
        startAddr := task.addr;
        totalSize := task.size;
        forall i | 0 <= i < TASK_DATA_SIZE {
          data[i] := task.content[i];
        }
        result := 0;
      } else {
        if (startAddr + totalSize) % TWO32 != task.addr {
          result := -1;
        } else {
          totalSize := (totalSize + task.size) % TWO32;
          result := 0;
        }
      }
    }
  }
}
