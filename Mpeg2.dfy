/**
 * The MPEG-2 encoder front-end that owns the bridge: it turns the CPU's
 * register and pixel writes into tasks for the bridge, packs pixel
 * writes into 64-byte data nodes when the data-plane option is on,
 * holds back the stop signal until every node is submitted, answers
 * status and stream reads, and, when it drives the Verilator model
 * instead, keeps the encoder's output stream in a local buffer.
 */
module Mpeg2 {
  import opened Wire
  import opened Cdma
  import opened Slots
  import opened Chimera

  const MPEG2_BASE_ADDR: nat := 0x1_0000_0000
  /** The status register, read as one 64-bit word. */
  const STATUS_REG: nat := 0x10
  /** Register writes below this device address; pixel data at or above it. */
  const DATA_WINDOW: nat := 0x100_0000
  /** Reads at or above this device address fetch the output stream. */
  const STREAM_WINDOW: nat := 0x1000_0000
  /** Bytes per pixel group handed to the Verilator model. */
  const PIXEL_GROUP: nat := 8
  /** Bytes of one output beat of the Verilator model. */
  const OUT_BEAT: nat := 32
  /** Bytes of the Verilator output buffer. */
  const OUT_BUFFER_SIZE: nat := 0x200000

  /** The device-relative address of a request, as the source's unsigned subtraction gives it. */
  function ConfigAddr(addr: uint64): (c: uint64)
    ensures addr >= MPEG2_BASE_ADDR ==> c == addr - MPEG2_BASE_ADDR
  {
    Sub64(addr, MPEG2_BASE_ADDR)
  }

  // ---------------------------------------------------------------------
  // The status word

  /**
   * The 64-bit status word: bit 0 always set, bit 2 the status flag, and
   * the byte count shifted into the upper half (the shift drops what
   * does not fit into 64 bits).  The three parts occupy distinct bits,
   * so the word is their sum.
   */
  function StatusWord(flag: bool, count: nat): (w: nat)
    ensures w < TWO64
  {
    1 + (if flag then 4 else 0) + (count % 0x1_0000_0000) * 0x1_0000_0000
  }

  /** What software makes of the eight bytes of a status read: the ready bit, the flag and the count. */
  datatype Status = Status(ready: bool, flag: bool, count: nat)

  function ParseStatus(bytes: seq<byte>): Status
  {
    var w := FromLE(bytes);
    Status(w % 2 == 1, (w / 4) % 2 == 1, w / 0x1_0000_0000)
  }

  /** The bytes of a status read reporting `flag` and `count`: software reads back what was reported. */
  function StatusBytes(flag: bool, count: nat): (s: seq<byte>)
    requires count < TWO32
    ensures |s| == 8 && ParseStatus(s) == Status(true, flag, count)
  {
    var w := StatusWord(flag, count);
    StatusWordParts(flag, count);
    Pow256Values();
    FromLEOfLE(w, 8);
    LE(w, 8)
  }

  /** A count below 2^32 survives the status word, and so do the ready bit and the flag. */
  lemma StatusWordParts(flag: bool, count: nat)
    requires count < TWO32
    ensures var w := StatusWord(flag, count);
      w % 2 == 1 && ((w / 4) % 2 == 1) == flag && w / 0x1_0000_0000 == count
  {
    var f := if flag then 1 else 0;
    var w := StatusWord(flag, count);
    Split(count, 0x1_0000_0000, 0, count);
    assert w == 0x1_0000_0000 * count + (1 + 4 * f);
    Split(w, 0x1_0000_0000, count, 1 + 4 * f);
    Split(w, 2, 2 * f + 0x8000_0000 * count, 1);
    Split(w, 4, f + 0x4000_0000 * count, 1);
    Split(w / 4, 2, 0x2000_0000 * count, f);
  }

  /** A number written as `d * q + r` with `r` below `d` has quotient `q` and remainder `r`. */
  lemma Split(x: int, d: int, q: int, r: int)
    requires d > 0 && 0 <= r < d && x == d * q + r
    ensures x / d == q && x % d == r
  {
    var q', r' := x / d, x % d;
    assert d * q' + r' == d * q + r;
    if q' < q {
      assert d * (q - q') == r' - r;
      MulAtLeast(d, q - q');
    } else if q' > q {
      assert d * (q' - q) == r - r';
      MulAtLeast(d, q' - q);
    }
  }

  /** The one nonlinear step of `Split`, kept apart so that nothing else is in its context. */
  lemma MulAtLeast(d: int, k: int)
    requires d > 0 && k >= 1
    ensures d * k >= d
  {
  }


  // ---------------------------------------------------------------------
  // Tasks built from requests

  /** A data node: 64 bytes of pixel data and the device address of its first write. */
  datatype DataNode = DataNode(addr: uint64, data: seq<byte>)

  /** The task that carries a data node: valid, data type, the node's address (cut to 32 bits) and bytes. */
  function NodeTask(n: DataNode): (t: PCIeTask)
    requires |n.data| == TASK_DATA_SIZE
    ensures WellFormed(t) && IsValid(t) && IsData(t) && !IsWrite(t) && !IsNeedResp(t) && !IsRead(t)
    ensures t.content == n.data && t.addr == n.addr % TWO32 && t.size == TASK_DATA_SIZE
  {
    SetDataType(SetValid(DefaultTask())).(addr := n.addr % TWO32, size := TASK_DATA_SIZE, content := n.data)
  }

  /** The tasks carrying the nodes `ns`, in order. */
  function NodeTasks(ns: seq<DataNode>): (ts: seq<PCIeTask>)
    requires forall k :: 0 <= k < |ns| ==> |ns[k].data| == TASK_DATA_SIZE
    ensures |ts| == |ns|
  {
    if ns == [] then [] else NodeTasks(ns[..|ns| - 1]) + [NodeTask(ns[|ns| - 1])]
  }

  /** The task at position `k` carries the node at position `k`. */
  lemma {:induction false} NodeTasksAt(ns: seq<DataNode>, k: nat)
    requires forall j :: 0 <= j < |ns| ==> |ns[j].data| == TASK_DATA_SIZE
    requires k < |ns|
    ensures NodeTasks(ns)[k] == NodeTask(ns[k])
  {
    if k < |ns| - 1 {
      NodeTasksAt(ns[..|ns| - 1], k);
    }
  }

  /**
   * The write task for a register write: valid, write type, the device
   * address in the first eight content bytes and the written bytes right
   * after it.
   */
  function WriteTask(configAddr: uint64, data: seq<byte>): (t: PCIeTask)
    requires |data| <= TASK_DATA_SIZE - 8
    ensures WellFormed(t) && IsValid(t) && IsWrite(t) && !IsNeedResp(t) && !IsData(t) && !IsRead(t)
    ensures FromLE(t.content[..8]) == configAddr && t.content[8..8 + |data|] == data
  {
    Pow256Values();
    FromLEOfLE(configAddr, 8);
    var content := LE(configAddr, 8) + data + Zeros(TASK_DATA_SIZE - 8 - |data|);
    assert content[..8] == LE(configAddr, 8);
    assert content[8..8 + |data|] == data;
    SetWriteType(SetValid(DefaultTask())).(content := content)
  }

  /** A write of register 0 whose bit 1 is set is the stop signal. */
  predicate IsStopWrite(configAddr: uint64, t: PCIeTask)
    requires WellFormed(t)
  {
    configAddr == 0 && (t.content[8] / 2) % 2 == 1
  }

  /** A write of register 0 whose bit 0 is set (and is not the stop signal) starts a run. */
  predicate IsStartWrite(configAddr: uint64, t: PCIeTask)
    requires WellFormed(t)
  {
    configAddr == 0 && t.content[8] % 2 == 1
  }

  // ---------------------------------------------------------------------
  // Several recvTask calls in a row

  /** The first `j` ids of the free list index the records and the table, and fit a table id. */
  predicate FreeIdsIn(s: State, j: nat)
  {
    && j <= |s.pl.idle|
    && forall k :: 0 <= k < j ==> 0 <= s.pl.idle[k] < |s.lc| && s.pl.idle[k] < |s.table| && s.pl.idle[k] < 128
  }

  /** Every id of a well-kept free list qualifies. */
  lemma FreeIdsOf(s: State)
    requires Inv(s) && s.n <= 128
    ensures FreeIdsIn(s, |s.pl.idle|)
  {
    forall k | 0 <= k < |s.pl.idle|
      ensures 0 <= s.pl.idle[k] < s.n
    {
      IdleExclusive(s.n, s.pl, s.lc, s.pl.idle[k]);
    }
  }

  /**
   * The bookkeeping `s1` after a register write `task` was passed on from
   * `s0`: a start write first counts one more outstanding task; the task
   * then takes the first free slot, or the call spins in `recvTask`
   * (`stalled`) when none is free.  A start write that finds the CDMA
   * engine busy stops the run (`aborted`) before anything changes.
   */
  ghost predicate PassedOn(s0: State, start: bool, task: PCIeTask, cycle: uint64, now: uint64,
                           aborted: bool, stalled: bool, s1: State)
  {
    var s := if start then s0.(osd := s0.osd + 1, credit := s0.credit + 1) else s0;
    && (aborted ==> start)
    && (stalled <==> !aborted && s.pl.idle == [])
    && (aborted || stalled ==> s1 == (if aborted then s0 else s))
    && (!aborted && !stalled ==> FreeHead(s) && s1 == RecvOne(s, task, cycle, now))
  }

  /** The first free id, when there is one, indexes the records and the table, and fits a table id. */
  predicate FreeHead(s: State)
  {
    s.pl.idle != [] ==> 0 <= s.pl.idle[0] < |s.lc| && s.pl.idle[0] < |s.table| && s.pl.idle[0] < 128
  }

  lemma FreeHeadOf(s: State)
    requires Inv(s) && s.n <= 128
    ensures FreeHead(s)
  {
    if s.pl.idle != [] {
      IdleExclusive(s.n, s.pl, s.lc, s.pl.idle[0]);
    }
  }

  /** The tasks `ts`, each carrying the id at its position in `ids`. */
  function Tagged(ts: seq<PCIeTask>, ids: seq<int>): (r: seq<PCIeTask>)
    requires |ts| <= |ids| && forall k :: 0 <= k < |ts| ==> 0 <= ids[k] < 128
    ensures |r| == |ts|
  {
    if ts == [] then [] else Tagged(ts[..|ts| - 1], ids) + [ts[|ts| - 1].(tableID := ids[|ts| - 1] as int8)]
  }

  /** The task at position `k` is the `k`-th task with the `k`-th id. */
  lemma {:induction false} TaggedAt(ts: seq<PCIeTask>, ids: seq<int>, k: nat)
    requires |ts| <= |ids| && forall j :: 0 <= j < |ts| ==> 0 <= ids[j] < 128
    requires k < |ts|
    ensures Tagged(ts, ids)[k] == ts[k].(tableID := ids[k] as int8)
  {
    if k < |ts| - 1 {
      TaggedAt(ts[..|ts| - 1], ids, k);
    }
  }

  /**
   * `recvTask` on the bookkeeping `s`: the task takes the first free id,
   * its record is opened at `now` and its entry stamped with `cycle`.
   */
  function RecvOne(s: State, t: PCIeTask, cycle: uint64, now: uint64): State
    requires FreeHead(s) && s.pl.idle != []
  {
    var id := s.pl.idle[0];
    RecvNext(s, t.(tableID := id as int8), s.lc[id].(valid := true, recvTime := now, preHwTime := t.insertTime), cycle)
  }

  /**
   * The bookkeeping after `recvTask` took the tasks `ts` one after the
   * other: they join the ingress queue behind the tasks already there, in
   * order, each carrying the free id at its position; the free list loses
   * those ids, their records are opened at `now` and their entries stamped
   * with `cycle`, and nothing else changes.
   */
  function Received(s: State, ts: seq<PCIeTask>, cycle: uint64, now: uint64): (r: State)
    requires FreeIdsIn(s, |ts|)
    ensures |r.lc| == |s.lc| && |r.table| == |s.table|
    ensures r == s.(pl := s.pl.(idle := s.pl.idle[|ts|..], comeIn := s.pl.comeIn + Tagged(ts, s.pl.idle)),
                    lc := r.lc, table := r.table)
    decreases |ts|
  {
    if ts == [] then
      assert s.pl.idle[0..] == s.pl.idle;
      s
    else
      var ts' := ts[..|ts| - 1];
      var p := Received(s, ts', cycle, now);
      assert p.pl.idle[0] == s.pl.idle[|ts'|];
      assert s.pl.idle[|ts'|..][1..] == s.pl.idle[|ts|..];
      assert Tagged(ts, s.pl.idle) == Tagged(ts', s.pl.idle) + [ts[|ts'|].(tableID := s.pl.idle[|ts'|] as int8)];
      RecvOne(p, ts[|ts'|], cycle, now)
  }

  /** Taking tasks one after the other keeps the bookkeeping well kept. */
  lemma {:induction false} ReceivedKeepsInv(s: State, ts: seq<PCIeTask>, cycle: uint64, now: uint64)
    requires Inv(s) && s.n <= 128 && |ts| <= |s.pl.idle|
    requires forall k :: 0 <= k < |ts| ==> WellFormed(ts[k])
    ensures FreeIdsIn(s, |ts|) && Inv(Received(s, ts, cycle, now))
  {
    FreeIdsOf(s);
    if ts != [] {
      var ts' := ts[..|ts| - 1];
      ReceivedKeepsInv(s, ts', cycle, now);
      var p := Received(s, ts', cycle, now);
      var id := p.pl.idle[0];
      InvRecv(p, ts[|ts'|].(tableID := id as int8), p.lc[id].(valid := true, recvTime := now, preHwTime := ts[|ts'|].insertTime), cycle);
    }
  }

  /**
   * How far the loop of `submit` got from the bookkeeping `s0` and the
   * nodes `nodes0`: the first `k` nodes are in the bookkeeping `s`, in
   * order, the others still wait, and the retry is marked once the table
   * was found full, which happens only with nodes left and no slot free.
   */
  ghost predicate NodesSent(s0: State, nodes0: seq<DataNode>, mark0: bool, k: nat, full: bool,
                            s: State, nodes: seq<DataNode>, mark: bool, cycle: uint64, now: uint64)
    requires FreeIdsIn(s0, |s0.pl.idle|) && forall j :: 0 <= j < |nodes0| ==> |nodes0[j].data| == TASK_DATA_SIZE
  {
    && k <= |nodes0| && k <= |s0.pl.idle| && nodes == nodes0[k..]
    && s == Received(s0, NodeTasks(nodes0[..k]), cycle, now)
    && mark == (mark0 || full)
    && (full ==> k == |s0.pl.idle| && k < |nodes0|)
  }

  /** One round of the loop, a node sent or the table found full, keeps the account of `NodesSent`. */
  lemma NodesSentStep(s0: State, nodes0: seq<DataNode>, mark0: bool, k: nat, s: State, nodes: seq<DataNode>, mark: bool,
                      full: bool, s': State, nodes': seq<DataNode>, mark': bool, cycle: uint64, now: uint64)
    requires FreeIdsIn(s0, |s0.pl.idle|) && forall j :: 0 <= j < |nodes0| ==> |nodes0[j].data| == TASK_DATA_SIZE
    requires NodesSent(s0, nodes0, mark0, k, false, s, nodes, mark, cycle, now) && nodes != []
    requires (full <==> s.pl.idle == []) && mark' == (mark || full)
    requires full ==> nodes' == nodes && s' == s
    requires !full ==> FreeHead(s) && nodes' == nodes[1..] && s' == RecvOne(s, NodeTask(nodes[0]), cycle, now)
    ensures NodesSent(s0, nodes0, mark0, if full then k else k + 1, full, s', nodes', mark', cycle, now)
  {
    if !full {
      assert nodes0[k..][1..] == nodes0[k + 1..];
      ReceivedNode(s0, nodes0, k, s, s', cycle, now);
    }
  }

  /** When the loop ends, `k` is the smaller of the node count and the free-slot count. */
  lemma NodesSentDone(s0: State, nodes0: seq<DataNode>, mark0: bool, k: nat, full: bool,
                      s: State, nodes: seq<DataNode>, mark: bool, cycle: uint64, now: uint64)
    requires FreeIdsIn(s0, |s0.pl.idle|) && forall j :: 0 <= j < |nodes0| ==> |nodes0[j].data| == TASK_DATA_SIZE
    requires NodesSent(s0, nodes0, mark0, k, full, s, nodes, mark, cycle, now) && (nodes == [] || full)
    ensures k == Min(|nodes0|, |s0.pl.idle|) && nodes == nodes0[k..] && FreeIdsIn(s0, k)
    ensures s == Received(s0, NodeTasks(nodes0[..k]), cycle, now)
    ensures mark == (mark0 || k < |nodes0|)
  {
  }

  /** The bookkeeping after `k` nodes, with the `k`-th one received, is the bookkeeping after `k + 1`. */
  lemma ReceivedNode(s0: State, nodes: seq<DataNode>, k: nat, pre: State, post: State, cycle: uint64, now: uint64)
    requires forall j :: 0 <= j < |nodes| ==> |nodes[j].data| == TASK_DATA_SIZE
    requires k < |nodes| && FreeIdsIn(s0, k + 1)
    requires pre == Received(s0, NodeTasks(nodes[..k]), cycle, now)
    requires FreeHead(pre) && post == RecvOne(pre, NodeTask(nodes[k]), cycle, now)
    ensures post == Received(s0, NodeTasks(nodes[..k + 1]), cycle, now)
  {
    NodeTasksSnoc(nodes, k);
    ReceivedSnoc(s0, NodeTasks(nodes[..k]), NodeTask(nodes[k]), cycle, now);
  }

  /** One more node, one more task. */
  lemma NodeTasksSnoc(ns: seq<DataNode>, k: nat)
    requires k < |ns| && forall j :: 0 <= j < |ns| ==> |ns[j].data| == TASK_DATA_SIZE
    ensures NodeTasks(ns[..k + 1]) == NodeTasks(ns[..k]) + [NodeTask(ns[k])]
  {
    assert ns[..k + 1][..k] == ns[..k];
  }

  /** One more task received is one more `recvTask` after the others. */
  lemma ReceivedSnoc(s: State, ts: seq<PCIeTask>, t: PCIeTask, cycle: uint64, now: uint64)
    requires FreeIdsIn(s, |ts| + 1)
    ensures FreeIdsIn(s, |ts|) && Received(s, ts, cycle, now).pl.idle != [] && FreeHead(Received(s, ts, cycle, now))
    ensures Received(s, ts + [t], cycle, now) == RecvOne(Received(s, ts, cycle, now), t, cycle, now)
  {
    assert (ts + [t])[..|ts|] == ts;
  }

  // ---------------------------------------------------------------------
  // The submit backlog, counted

  /**
   * What `submit` and the retry callback look at: the data nodes not
   * yet submitted, the free slots of the bridge, whether the stop
   * signal is held back, and the bridge's retry mark.
   */
  datatype Backlog = Backlog(nodes: nat, free: nat, stop: bool, mark: bool)

  /**
   * `submit` as written, counted: nodes go while slots are free (a full
   * table marks the retry); once no node is left the stop signal goes,
   * and when no slot is free for it the call spins inside `recvTask`
   * (`stalled`) until one is freed.
   */
  function SubmitAsWritten(b: Backlog): (r: (Backlog, bool))
  {
    var k := if b.nodes <= b.free then b.nodes else b.free;
    var c := Backlog(b.nodes - k, b.free - k, b.stop, b.mark || k < b.nodes);
    if c.nodes == 0 && c.stop then
      if c.free == 0 then (c, true) else (c.(free := c.free - 1, stop := false), false)
    else (c, false)
  }

  /** `submit` with the stop signal sent only when `isFullAndMark` finds a free slot: it never spins. */
  function SubmitGuarded(b: Backlog): (r: Backlog)
  {
    var k := if b.nodes <= b.free then b.nodes else b.free;
    var c := Backlog(b.nodes - k, b.free - k, b.stop, b.mark || k < b.nodes);
    if c.nodes == 0 && c.stop then
      if c.free == 0 then c.(mark := true) else c.(free := c.free - 1, stop := false)
    else c
  }

  /** `retryCallback` as written: it submits only when nodes wait and the stop signal is held. */
  function RetryAsWritten(b: Backlog): (r: (Backlog, bool))
  {
    if b.nodes > 0 && b.stop then SubmitAsWritten(b) else (b, false)
  }

  /**
   * `parentRetryCallback` as written: when the mark is set the parent's
   * retry runs, and the mark is cleared after it, whatever the retry did
   * (a retry that spins never gets there).
   */
  function CallbackAsWritten(b: Backlog): (r: (Backlog, bool))
  {
    if b.mark then
      var (c, stalled) := RetryAsWritten(b);
      if stalled then (c, true) else (c.(mark := false), false)
    else (b, false)
  }

  /**
   * The corrected callback: the mark is cleared before the parent's
   * retry runs, so a retry that finds the table full again leaves it set;
   * and the retry also runs for a stop signal that is held back alone.
   */
  function Callback(b: Backlog): (r: Backlog)
  {
    if b.mark then
      var c := b.(mark := false);
      if c.stop then SubmitGuarded(c) else c
    else b
  }

  /** Something is held back that only a retry will send: the stop signal, with or without nodes before it. */
  predicate HeldBack(b: Backlog)
  {
    b.stop
  }

  /**
   * With two nodes waiting behind the stop signal and one free slot, the
   * callback as written sends one node; the table is then full and the
   * retry marks it, but the mark is cleared right after, so nothing will
   * ever call the retry again: a node and the stop signal stay held back
   * without a mark, and nothing spins.
   */
  lemma CallbackLosesMark()
    ensures var (r, stalled) := CallbackAsWritten(Backlog(2, 1, true, true));
      r == Backlog(1, 0, true, false) && !stalled && HeldBack(r) && !r.mark
  {
  }

  /**
   * With one node waiting behind the stop signal and one free slot, the
   * callback as written sends the node and then spins in `recvTask` for
   * the stop signal's slot.  Every task the encoder sends is a data task
   * or a write that needs no response, so its slot is released by the
   * submit stage right after transmission, and the callback runs there.
   * The submit stage is the only stage that frees an encoder slot, and
   * it is the one spinning: the spin never ends.
   */
  lemma CallbackSpins()
    ensures CallbackAsWritten(Backlog(1, 1, true, true)).1
  {
  }

  /**
   * The corrected callback never leaves the stop signal held back
   * without the mark that brings the next retry; nodes never outlive the
   * stop signal, and free slots are used before the mark is set.
   */
  lemma CallbackKeepsMark(b: Backlog)
    requires b.mark
    ensures var r := Callback(b);
      && (HeldBack(r) ==> r.mark)
      && (b.stop && !r.stop ==> r.nodes == 0)
      && (r.mark ==> r.free == 0)
      && r.nodes + r.free + (if r.stop then 1 else 0) <= b.nodes + b.free + (if b.stop then 1 else 0)
  {
  }

  /** The guarded submit sends as much as the as-written one, and marks instead of spinning. */
  lemma GuardedAgrees(b: Backlog)
    ensures var (r, stalled) := SubmitAsWritten(b);
      && (!stalled ==> SubmitGuarded(b) == r)
      && (stalled ==> SubmitGuarded(b) == r.(mark := true) && r.stop && r.free == 0)
  {
  }

  // ---------------------------------------------------------------------
  // The node accumulator

  /** `memcpy` of `data` into `buf` at offset `at`. */
  function Splice(buf: seq<byte>, at: nat, data: seq<byte>): (r: seq<byte>)
    requires at + |data| <= |buf|
    ensures |r| == |buf| && r[at..at + |data|] == data
    ensures r[..at] == buf[..at] && r[at + |data|..] == buf[at + |data|..]
  {
    buf[..at] + data + buf[at + |data|..]
  }

  /** The bytes of consecutive writes, one behind the other. */
  function Concat(ds: seq<seq<byte>>): seq<byte>
  {
    if ds == [] then [] else Concat(ds[..|ds| - 1]) + ds[|ds| - 1]
  }

  /** A node buffer after the writes `ds`, each copied right behind the one before, from offset 0. */
  function Filled(buf: seq<byte>, ds: seq<seq<byte>>): (r: seq<byte>)
    requires |Concat(ds)| <= |buf|
    ensures |r| == |buf|
  {
    if ds == [] then buf
    else
      var ds' := ds[..|ds| - 1];
      Splice(Filled(buf, ds'), |Concat(ds')|, ds[|ds| - 1])
  }

  /** The writes land side by side: the buffer starts with their bytes, in order, and keeps the rest. */
  lemma {:induction false} FilledHolds(buf: seq<byte>, ds: seq<seq<byte>>)
    requires |Concat(ds)| <= |buf|
    ensures Filled(buf, ds)[..|Concat(ds)|] == Concat(ds)
    ensures Filled(buf, ds)[|Concat(ds)|..] == buf[|Concat(ds)|..]
  {
    if ds != [] {
      var ds' := ds[..|ds| - 1];
      var d := ds[|ds| - 1];
      FilledHolds(buf, ds');
      var f := Filled(buf, ds');
      var m := |Concat(ds')|;
      var r := Splice(f, m, d);
      assert r[..m + |d|] == r[..m] + r[m..m + |d|];
      assert r[..m] == f[..m];
      assert r[m + |d|..] == f[m + |d|..] == f[m..][|d|..];
    }
  }

  // ---------------------------------------------------------------------
  // The Verilator model's ports

  /**
   * What one tick hands to the Verilator model: the pixel-input enable
   * and the eight bytes Y0 U0 Y1 V0 Y2 U2 Y3 V2 of a pixel group, reset
   * (active low), the 64-bit sequence-stop pin, passed on as the value
   * written to it, and the frame size in 16-pixel units.
   */
  datatype PixelInput = PixelInput(en: bool, pixels: seq<byte>, rstn: bool, sequenceStop: uint64,
                                   xsize16: uint32, ysize16: uint32)

  /** The pins of a fresh `inputMPEG2`, what a tick sees when no request sets them: reset released, everything else zero. */
  function NoInput(): (i: PixelInput)
    ensures !i.en && i.rstn && i.sequenceStop == 0 && i.xsize16 == 0 && i.ysize16 == 0
    ensures i.pixels == Zeros(PIXEL_GROUP)
  {
    PixelInput(false, Zeros(PIXEL_GROUP), true, 0, 0, 0)
  }

  /** What one tick of the Verilator model gives back: an output beat when enabled, and the last-frame flag. */
  datatype PixelOutput = PixelOutput(en: bool, data: seq<byte>, last: bool)

  /** The 64-bit value a `memcpy` of up to eight bytes into a zeroed word leaves there. */
  function WordOf(data: seq<byte>): (v: nat)
    requires |data| <= 8
    ensures v < TWO64
  {
    Pow256Values();
    PowMonotone(|data|, 8);
    FromLE(data)
  }

  lemma {:induction false} PowMonotone(m: nat, n: nat)
    requires m <= n
    ensures Pow256(m) <= Pow256(n)
  {
    if m < n {
      PowMonotone(m, n - 1);
    }
  }

  /** The frame-size register: the high half is the width, the low half the height. */
  function SizeHalves(v: nat): (r: (uint32, uint32))
    requires v < TWO64
    ensures r.0 * TWO32 + r.1 == v
  {
    (v / TWO32, v % TWO32)
  }

  /**
   * A write of the frame-size register with the Verilator model: the
   * high half of the value is the width, the low half the height, which
   * together give back the value.  More than eight bytes stop the run.
   */
  function SizeWrite(data: seq<byte>): (r: Outcome<PixelInput>)
    ensures r.Done? <==> |data| <= 8
    ensures r.Done? ==>
      && r.value.xsize16 as int * TWO32 + r.value.ysize16 as int == WordOf(data)
      && r.value == NoInput().(xsize16 := r.value.xsize16, ysize16 := r.value.ysize16)
  {
    if |data| > 8 then Abort
    else
      var (x, y) := SizeHalves(WordOf(data));
      Done(NoInput().(xsize16 := x, ysize16 := y))
  }

  /** What a submit leaves behind: the bookkeeping, the nodes still waiting, the stop signal, the retry mark, and whether it spins. */
  datatype Submitted = Submitted(slots: State, nodes: seq<DataNode>, stop: PCIeTask, mark: bool, stalled: bool)

  /**
   * The loop of `submit` on values: the nodes that fit go in order, and a
   * node left over (a full table) marks the retry.
   */
  function NodesSpec(s: State, nodes: seq<DataNode>, stop: PCIeTask, mark: bool, cycle: uint64, now: uint64): (r: Submitted)
    requires FreeIdsIn(s, |s.pl.idle|) && forall k :: 0 <= k < |nodes| ==> |nodes[k].data| == TASK_DATA_SIZE
    ensures FreeHead(r.slots)
  {
    var k := Min(|nodes|, |s.pl.idle|);
    var mid := Received(s, NodeTasks(nodes[..k]), cycle, now);
    assert k < |s.pl.idle| ==> mid.pl.idle[0] == s.pl.idle[k];
    Submitted(mid, nodes[k..], stop, mark || k < |nodes|, false)
  }

  /**
   * The tail of `submit` on values: once no node is left, a held stop
   * signal goes when a slot is free for it and is dropped.  Without a
   * slot for it, `submit` as written spins (`stalled`) where the
   * corrected one (`guarded`) marks the retry.
   */
  function StopSpec(r: Submitted, cycle: uint64, now: uint64, guarded: bool): Submitted
    requires r.nodes == [] && IsValid(r.stop) ==> FreeHead(r.slots)
  {
    if r.nodes == [] && IsValid(r.stop) then
      if r.slots.pl.idle != [] then r.(slots := RecvOne(r.slots, r.stop, cycle, now), stop := UnsetValid(r.stop))
      else if guarded then r.(mark := true)
      else r.(stalled := true)
    else r
  }

  /** `submit` on values: the loop, then the stop signal. */
  function SubmitSpec(s: State, nodes: seq<DataNode>, stop: PCIeTask, mark: bool, cycle: uint64, now: uint64,
                      guarded: bool): Submitted
    requires FreeIdsIn(s, |s.pl.idle|) && forall k :: 0 <= k < |nodes| ==> |nodes[k].data| == TASK_DATA_SIZE
  {
    StopSpec(NodesSpec(s, nodes, stop, mark, cycle, now), cycle, now, guarded)
  }

  /** What a submit leaves behind, counted. */
  function CountOf(r: Submitted): Backlog
  {
    Backlog(|r.nodes|, |r.slots.pl.idle|, IsValid(r.stop), r.mark)
  }

  /** `retryCallback` on values: `submit` as written when nodes wait behind a held stop signal, and nothing otherwise. */
  function RetrySpec(s: State, nodes: seq<DataNode>, stop: PCIeTask, mark: bool, cycle: uint64, now: uint64): Submitted
    requires FreeIdsIn(s, |s.pl.idle|) && forall k :: 0 <= k < |nodes| ==> |nodes[k].data| == TASK_DATA_SIZE
  {
    if |nodes| > 0 && IsValid(stop) then SubmitSpec(s, nodes, stop, mark, cycle, now, false)
    else Submitted(s, nodes, stop, mark, false)
  }

  /**
   * `parentRetryCallback` on values, as written: with the mark set the
   * retry runs and the mark is cleared after it, unless the retry spins.
   */
  function CallbackSpec(s: State, nodes: seq<DataNode>, stop: PCIeTask, mark: bool, cycle: uint64, now: uint64): Submitted
    requires FreeIdsIn(s, |s.pl.idle|) && forall k :: 0 <= k < |nodes| ==> |nodes[k].data| == TASK_DATA_SIZE
  {
    if mark then
      var r := RetrySpec(s, nodes, stop, mark, cycle, now);
      if r.stalled then r else r.(mark := false)
    else Submitted(s, nodes, stop, mark, false)
  }

  /**
   * The corrected callback on values: with the mark set, the mark is
   * cleared first and the corrected `submit` runs whenever the stop
   * signal is held.
   */
  function GuardedCallbackSpec(s: State, nodes: seq<DataNode>, stop: PCIeTask, mark: bool, cycle: uint64, now: uint64): Submitted
    requires FreeIdsIn(s, |s.pl.idle|) && forall k :: 0 <= k < |nodes| ==> |nodes[k].data| == TASK_DATA_SIZE
  {
    if mark && IsValid(stop) then SubmitSpec(s, nodes, stop, false, cycle, now, true)
    else Submitted(s, nodes, stop, false, false)
  }

  /** Counted, the retry on the bookkeeping is the counted retry as written. */
  lemma RetrySpecCounts(s: State, nodes: seq<DataNode>, stop: PCIeTask, mark: bool, cycle: uint64, now: uint64)
    requires FreeIdsIn(s, |s.pl.idle|) && forall k :: 0 <= k < |nodes| ==> |nodes[k].data| == TASK_DATA_SIZE
    ensures var r := RetrySpec(s, nodes, stop, mark, cycle, now);
      (CountOf(r), r.stalled) == RetryAsWritten(Backlog(|nodes|, |s.pl.idle|, IsValid(stop), mark))
  {
    SubmitSpecCounts(s, nodes, stop, mark, cycle, now);
  }

  /** Counted, the callback on the bookkeeping is the counted callback as written. */
  lemma CallbackSpecCounts(s: State, nodes: seq<DataNode>, stop: PCIeTask, mark: bool, cycle: uint64, now: uint64, r: Submitted)
    requires FreeIdsIn(s, |s.pl.idle|) && forall k :: 0 <= k < |nodes| ==> |nodes[k].data| == TASK_DATA_SIZE
    requires r == CallbackSpec(s, nodes, stop, mark, cycle, now)
    ensures (CountOf(r), r.stalled) == CallbackAsWritten(Backlog(|nodes|, |s.pl.idle|, IsValid(stop), mark))
  {
    RetrySpecCounts(s, nodes, stop, mark, cycle, now);
  }

  /** Counted, the corrected callback on the bookkeeping is the counted corrected callback, and it never spins. */
  lemma GuardedCallbackSpecCounts(s: State, nodes: seq<DataNode>, stop: PCIeTask, mark: bool, cycle: uint64, now: uint64)
    requires FreeIdsIn(s, |s.pl.idle|) && forall k :: 0 <= k < |nodes| ==> |nodes[k].data| == TASK_DATA_SIZE
    ensures var r := GuardedCallbackSpec(s, nodes, stop, mark, cycle, now);
      CountOf(r) == Callback(Backlog(|nodes|, |s.pl.idle|, IsValid(stop), mark)) && !r.stalled
  {
    SubmitSpecCounts(s, nodes, stop, false, cycle, now);
  }

  /** Counted, the loop of `submit` sends as many nodes as slots are free. */
  lemma NodesSpecCounts(s: State, nodes: seq<DataNode>, stop: PCIeTask, mark: bool, cycle: uint64, now: uint64)
    requires FreeIdsIn(s, |s.pl.idle|) && forall k :: 0 <= k < |nodes| ==> |nodes[k].data| == TASK_DATA_SIZE
    ensures var k := Min(|nodes|, |s.pl.idle|); var r := NodesSpec(s, nodes, stop, mark, cycle, now);
      CountOf(r) == Backlog(|nodes| - k, |s.pl.idle| - k, IsValid(stop), mark || k < |nodes|) && !r.stalled
  {
  }

  /** Counted, the tail of `submit` takes a slot for the stop signal, or spins or marks without one. */
  lemma StopSpecCounts(r: Submitted, cycle: uint64, now: uint64, guarded: bool)
    requires r.nodes == [] && IsValid(r.stop) ==> FreeHead(r.slots)
    ensures var c := CountOf(r); var q := StopSpec(r, cycle, now, guarded);
      && (c.nodes == 0 && c.stop && c.free > 0 ==> CountOf(q) == c.(free := c.free - 1, stop := false) && q.stalled == r.stalled)
      && (c.nodes == 0 && c.stop && c.free == 0 ==>
            if guarded then CountOf(q) == c.(mark := true) && q.stalled == r.stalled else CountOf(q) == c && q.stalled)
      && (c.nodes > 0 || !c.stop ==> q == r)
  {
  }

  /**
   * Counted, `submit` on the bookkeeping is the counted `submit`: as
   * written it spins exactly when the counted one does; corrected it
   * never spins.
   */
  lemma SubmitSpecCounts(s: State, nodes: seq<DataNode>, stop: PCIeTask, mark: bool, cycle: uint64, now: uint64)
    requires FreeIdsIn(s, |s.pl.idle|) && forall k :: 0 <= k < |nodes| ==> |nodes[k].data| == TASK_DATA_SIZE
    ensures var r := SubmitSpec(s, nodes, stop, mark, cycle, now, false);
      (CountOf(r), r.stalled) == SubmitAsWritten(Backlog(|nodes|, |s.pl.idle|, IsValid(stop), mark))
    ensures var r := SubmitSpec(s, nodes, stop, mark, cycle, now, true);
      CountOf(r) == SubmitGuarded(Backlog(|nodes|, |s.pl.idle|, IsValid(stop), mark)) && !r.stalled
  {
    NodesSpecCounts(s, nodes, stop, mark, cycle, now);
    var mid := NodesSpec(s, nodes, stop, mark, cycle, now);
    StopSpecCounts(mid, cycle, now, false);
    StopSpecCounts(mid, cycle, now, true);
  }

  /** The corrected `submit` never leaves the stop signal held back without the retry mark. */
  lemma GuardedKeepsMark(b: Backlog)
    ensures SubmitGuarded(b).stop ==> SubmitGuarded(b).mark
  {
  }

  /** The most bytes the node buffer holds before it is handed on: a full node, or one pixel group for the Verilator model. */
  function NodeCap(verilator: bool): nat
  {
    if verilator then PIXEL_GROUP else TASK_DATA_SIZE
  }

  function Min(a: nat, b: nat): nat
  {
    if a <= b then a else b
  }

  // ---------------------------------------------------------------------
  // The encoder

  class Encoder {
    const bridge: Chimera
    const dataPlaneOpt: bool
    const verilator: bool
    /** Full data nodes not yet submitted, oldest first (`m_data_nodes`). */
    var dataNodes: seq<DataNode>
    /** The node being filled, the bytes already in it and the device address of its first write. */
    var node: seq<byte>
    var nodePtr: nat
    var nodeAddr: uint64
    /** The stop signal, held back while valid until every data node is submitted. */
    var stopSignal: PCIeTask
    /** The Verilator model's output stream: the buffer and its write and read offsets. */
    const outBuffer: array<byte>
    var wptr: nat
    var rptr: nat
    var lastSignal: bool
    var stopVerilator: bool
    var inputCount: nat
    var outputCount: nat

    ghost function Repr(): set<object>
    {
      {this, outBuffer} + bridge.Repr()
    }

    ghost predicate Valid()
      reads this, bridge.Repr()
    {
      && bridge.Valid() && this !in bridge.Repr() && outBuffer !in bridge.Repr()
      && !(dataPlaneOpt && verilator)
      && |node| == TASK_DATA_SIZE && nodePtr < NodeCap(verilator)
      && (forall k :: 0 <= k < |dataNodes| ==> |dataNodes[k].data| == TASK_DATA_SIZE)
      && WellFormed(stopSignal)
      && outBuffer.Length == OUT_BUFFER_SIZE && rptr <= wptr <= OUT_BUFFER_SIZE
    }

    /** What `submit` and the retry callback look at, counted. */
    function Counts(): Backlog
      reads this, bridge
    {
      Backlog(|dataNodes|, |bridge.slots.pl.idle|, IsValid(stopSignal), bridge.parentRetry)
    }

    /** A held-back stop signal always has a retry mark waiting for it. */
    ghost predicate Progress()
      reads this, bridge
    {
      IsValid(stopSignal) ==> bridge.parentRetry
    }

    /**
     * A fresh encoder on the bridge `chimera`: no node, an empty node
     * buffer, no stop signal, an empty output stream.  The data-plane
     * option and the Verilator model exclude each other.
     */
    constructor (chimera: Chimera, opt: bool, enableVerilator: bool)
      requires chimera.Valid() && !(opt && enableVerilator)
      ensures Valid() && Progress()
      ensures bridge == chimera && dataPlaneOpt == opt && verilator == enableVerilator
      ensures dataNodes == [] && nodePtr == 0 && nodeAddr == 0 && !IsValid(stopSignal)
      ensures wptr == 0 && rptr == 0 && !lastSignal && !stopVerilator && inputCount == 0 && outputCount == 0
      ensures fresh(outBuffer)
    {
      bridge := chimera;
      dataPlaneOpt := opt;
      verilator := enableVerilator;
      dataNodes := [];
      node := Zeros(TASK_DATA_SIZE);
      nodePtr := 0;
      nodeAddr := 0;
      stopSignal := DefaultTask();
      outBuffer := new byte[OUT_BUFFER_SIZE];
      wptr, rptr := 0, 0;
      lastSignal, stopVerilator := false, false;
      inputCount, outputCount := 0, 0;
    }

    /** `init`: the encoder registers itself as the bridge's parent. */
    method Init()
      requires Valid()
      modifies bridge`parentName
      ensures Valid() && bridge.parentName == PARENT_MPEG2
    {
      bridge.SetParent(PARENT_MPEG2);
    }

    /**
     * One round of the loop of `submit`: when `isFullAndMark` finds a free
     * slot, the oldest data node goes to the bridge as a data task;
     * otherwise the retry is marked and nothing else changes.
     */
    method SubmitOne(cycle: uint64, now: uint64) returns (full: bool)
      requires Valid() && dataNodes != []
      modifies this`dataNodes, bridge`slots, bridge`parentRetry
      ensures Valid()
      ensures full <==> old(bridge.slots.pl.idle) == []
      ensures bridge.parentRetry == (old(bridge.parentRetry) || full)
      ensures full ==> dataNodes == old(dataNodes) && bridge.slots == old(bridge.slots)
      ensures !full ==>
        && dataNodes == old(dataNodes)[1..] && FreeHead(old(bridge.slots))
        && bridge.slots == RecvOne(old(bridge.slots), NodeTask(old(dataNodes)[0]), cycle, now)
    {
      full := bridge.IsFullAndMark();
      if !full {
        FreeHeadOf(bridge.slots);
        var r := bridge.RecvTask(NodeTask(dataNodes[0]), cycle, now);
        dataNodes := dataNodes[1..];
      }
    }

    /** One round of the loop of `submit`, kept in the account of `NodesSent`. */
    method SubmitCounted(ghost s0: State, ghost nodes0: seq<DataNode>, ghost mark0: bool, ghost k: nat,
                         cycle: uint64, now: uint64) returns (full: bool)
      requires Valid() && dataNodes != []
      requires FreeIdsIn(s0, |s0.pl.idle|) && forall j :: 0 <= j < |nodes0| ==> |nodes0[j].data| == TASK_DATA_SIZE
      requires NodesSent(s0, nodes0, mark0, k, false, bridge.slots, dataNodes, bridge.parentRetry, cycle, now)
      modifies this`dataNodes, bridge`slots, bridge`parentRetry
      ensures Valid() && |dataNodes| <= |old(dataNodes)| && (!full ==> |dataNodes| < |old(dataNodes)|)
      ensures NodesSent(s0, nodes0, mark0, if full then k else k + 1, full, bridge.slots, dataNodes, bridge.parentRetry, cycle, now)
    {
      ghost var s, nodes, mark := bridge.slots, dataNodes, bridge.parentRetry;
      full := SubmitOne(cycle, now);
      NodesSentStep(s0, nodes0, mark0, k, s, nodes, mark, full, bridge.slots, dataNodes, bridge.parentRetry, cycle, now);
    }

    /**
     * The loop of `submit`: data nodes go to the bridge, oldest first, as
     * long as a slot is free; the first full table marks the retry and
     * ends the loop.  `k` nodes went, as many as there were free slots.
     */
    method SubmitNodes(cycle: uint64, now: uint64) returns (k: nat)
      requires Valid()
      modifies this`dataNodes, bridge`slots, bridge`parentRetry
      ensures Valid()
      ensures k == Min(|old(dataNodes)|, |old(bridge.slots.pl.idle)|) && dataNodes == old(dataNodes)[k..]
      ensures FreeIdsIn(old(bridge.slots), k)
      ensures bridge.slots == Received(old(bridge.slots), NodeTasks(old(dataNodes)[..k]), cycle, now)
      ensures bridge.parentRetry == (old(bridge.parentRetry) || k < |old(dataNodes)|)
    {
      ghost var s0, nodes0, mark0 := bridge.slots, dataNodes, bridge.parentRetry;
      FreeIdsOf(s0);
      k := 0;
      var full := false;
      while dataNodes != [] && !full
        invariant Valid()
        invariant NodesSent(s0, nodes0, mark0, k, full, bridge.slots, dataNodes, bridge.parentRetry, cycle, now)
        decreases |dataNodes|, !full
      {
        full := SubmitCounted(s0, nodes0, mark0, k, cycle, now);
        if !full {
          k := k + 1;
        }
      }
      NodesSentDone(s0, nodes0, mark0, k, full, bridge.slots, dataNodes, bridge.parentRetry, cycle, now);
    }

    /** The stop signal goes to the bridge: it takes the first free slot and is dropped. */
    method SendStop(cycle: uint64, now: uint64)
      requires Valid() && bridge.slots.pl.idle != [] && IsValid(stopSignal)
      modifies this`stopSignal, bridge`slots
      ensures Valid() && FreeHead(old(bridge.slots))
      ensures stopSignal == UnsetValid(old(stopSignal))
      ensures bridge.slots == RecvOne(old(bridge.slots), old(stopSignal), cycle, now)
    {
      FreeHeadOf(bridge.slots);
      var stop := stopSignal;
      stopSignal := UnsetValid(stop);
      var r := bridge.RecvTask(stop, cycle, now);
    }

    /**
     * The tail of `submit`: once no data node is left, a held stop signal
     * goes to the bridge and is dropped.  When no slot is free for it,
     * `recvTask` spins (`stalled`), in the state returned.
     */
    method SubmitStop(cycle: uint64, now: uint64) returns (stalled: bool)
      requires Valid()
      modifies this`stopSignal, bridge`slots
      ensures Valid() && (dataNodes == [] && IsValid(old(stopSignal)) ==> FreeHead(old(bridge.slots)))
      ensures Submitted(bridge.slots, dataNodes, stopSignal, bridge.parentRetry, stalled)
           == StopSpec(Submitted(old(bridge.slots), dataNodes, old(stopSignal), bridge.parentRetry, false), cycle, now, false)
    {
      stalled := false;
      if dataNodes == [] && IsValid(stopSignal) {
        if bridge.slots.pl.idle == [] {
          return true;
        }
        SendStop(cycle, now);
      }
    }

    /**
     * The corrected tail of `submit`: the stop signal goes only when
     * `isFullAndMark` finds a free slot; otherwise the retry is marked and
     * the stop signal stays held.  It never spins.
     */
    method GuardedSubmitStop(cycle: uint64, now: uint64)
      requires Valid()
      modifies this`stopSignal, bridge`slots, bridge`parentRetry
      ensures Valid() && (dataNodes == [] && IsValid(old(stopSignal)) ==> FreeHead(old(bridge.slots)))
      ensures Submitted(bridge.slots, dataNodes, stopSignal, bridge.parentRetry, false)
           == StopSpec(Submitted(old(bridge.slots), dataNodes, old(stopSignal), old(bridge.parentRetry), false), cycle, now, true)
    {
      if dataNodes == [] && IsValid(stopSignal) {
        var full := bridge.IsFullAndMark();
        if !full {
          SendStop(cycle, now);
        }
      }
    }

    /**
     * `submit`: the data nodes go first, as many as slots are free (a full
     * table marks the retry); once none is left, a held stop signal goes
     * too and is dropped, or the call spins (`stalled`) for want of a slot.
     */
    method Submit(cycle: uint64, now: uint64) returns (stalled: bool)
      requires Valid()
      modifies this`dataNodes, this`stopSignal, bridge`slots, bridge`parentRetry
      ensures Valid() && FreeIdsIn(old(bridge.slots), |old(bridge.slots.pl.idle)|)
      ensures Submitted(bridge.slots, dataNodes, stopSignal, bridge.parentRetry, stalled)
           == SubmitSpec(old(bridge.slots), old(dataNodes), old(stopSignal), old(bridge.parentRetry), cycle, now, false)
    {
      FreeIdsOf(bridge.slots);
      var k := SubmitNodes(cycle, now);
      stalled := SubmitStop(cycle, now);
    }

    /** The corrected `submit`: as `submit`, with the corrected tail; it never spins. */
    method GuardedSubmit(cycle: uint64, now: uint64)
      requires Valid()
      modifies this`dataNodes, this`stopSignal, bridge`slots, bridge`parentRetry
      ensures Valid() && FreeIdsIn(old(bridge.slots), |old(bridge.slots.pl.idle)|)
      ensures Submitted(bridge.slots, dataNodes, stopSignal, bridge.parentRetry, false)
           == SubmitSpec(old(bridge.slots), old(dataNodes), old(stopSignal), old(bridge.parentRetry), cycle, now, true)
    {
      FreeIdsOf(bridge.slots);
      var k := SubmitNodes(cycle, now);
      GuardedSubmitStop(cycle, now);
    }

    /** `retryCallback`: the parent's retry submits again when nodes wait behind a held stop signal. */
    method RetryCallback(cycle: uint64, now: uint64) returns (stalled: bool)
      requires Valid()
      modifies this`dataNodes, this`stopSignal, bridge`slots, bridge`parentRetry
      ensures Valid() && FreeIdsIn(old(bridge.slots), |old(bridge.slots.pl.idle)|)
      ensures Submitted(bridge.slots, dataNodes, stopSignal, bridge.parentRetry, stalled)
           == RetrySpec(old(bridge.slots), old(dataNodes), old(stopSignal), old(bridge.parentRetry), cycle, now)
      ensures (Counts(), stalled) == RetryAsWritten(old(Counts()))
    {
      ghost var s0, nodes0, stop0, mark0 := bridge.slots, dataNodes, stopSignal, bridge.parentRetry;
      FreeIdsOf(bridge.slots);
      stalled := false;
      if |dataNodes| > 0 && IsValid(stopSignal) {
        stalled := Submit(cycle, now);
      }
      RetrySpecCounts(s0, nodes0, stop0, mark0, cycle, now);
    }

    /**
     * `parentRetryCallback` with this encoder as the parent, as written:
     * when the retry mark is set the encoder's retry runs and the mark is
     * cleared after it.  A parent of another name stops the run.
     */
    method BridgeRetryCallback(cycle: uint64, now: uint64) returns (aborted: bool, stalled: bool)
      requires Valid()
      modifies this`dataNodes, this`stopSignal, bridge`slots, bridge`parentRetry
      ensures Valid() && FreeIdsIn(old(bridge.slots), |old(bridge.slots.pl.idle)|)
      ensures aborted <==> old(bridge.parentRetry) && bridge.parentName != PARENT_MPEG2
      ensures aborted ==>
        && !stalled && bridge.slots == old(bridge.slots) && dataNodes == old(dataNodes)
        && stopSignal == old(stopSignal) && bridge.parentRetry == old(bridge.parentRetry)
      ensures !aborted ==>
        Submitted(bridge.slots, dataNodes, stopSignal, bridge.parentRetry, stalled)
          == CallbackSpec(old(bridge.slots), old(dataNodes), old(stopSignal), old(bridge.parentRetry), cycle, now)
      ensures !aborted ==> (Counts(), stalled) == CallbackAsWritten(old(Counts()))
    {
      if !bridge.parentRetry {
        FreeIdsOf(bridge.slots);
        aborted, stalled := false, false;
      } else if bridge.parentName != PARENT_MPEG2 {
        FreeIdsOf(bridge.slots);
        aborted, stalled := true, false;
      } else {
        aborted := false;
        stalled := RetryThenClear(cycle, now);
      }
    }

    /** The marked branch of `parentRetryCallback` for this encoder: the retry, then the mark cleared unless the retry spins. */
    method RetryThenClear(cycle: uint64, now: uint64) returns (stalled: bool)
      requires Valid() && bridge.parentRetry
      modifies this`dataNodes, this`stopSignal, bridge`slots, bridge`parentRetry
      ensures Valid() && FreeIdsIn(old(bridge.slots), |old(bridge.slots.pl.idle)|)
      ensures Submitted(bridge.slots, dataNodes, stopSignal, bridge.parentRetry, stalled)
           == CallbackSpec(old(bridge.slots), old(dataNodes), old(stopSignal), true, cycle, now)
      ensures (Counts(), stalled) == CallbackAsWritten(old(Counts()))
    {
      ghost var s0, nodes0, stop0 := bridge.slots, dataNodes, stopSignal;
      stalled := RetryCallback(cycle, now);
      if !stalled {
        bridge.ClearParentRetry();
      }
      CallbackSpecCounts(s0, nodes0, stop0, true, cycle, now, Submitted(bridge.slots, dataNodes, stopSignal, bridge.parentRetry, stalled));
    }

    /** The corrected retry: the corrected `submit`, after which a held stop signal always has its mark. */
    method GuardedRetry(cycle: uint64, now: uint64)
      requires Valid()
      modifies this`dataNodes, this`stopSignal, bridge`slots, bridge`parentRetry
      ensures Valid() && FreeIdsIn(old(bridge.slots), |old(bridge.slots.pl.idle)|)
      ensures Submitted(bridge.slots, dataNodes, stopSignal, bridge.parentRetry, false)
           == SubmitSpec(old(bridge.slots), old(dataNodes), old(stopSignal), old(bridge.parentRetry), cycle, now, true)
      ensures Counts() == SubmitGuarded(old(Counts())) && Progress()
    {
      ghost var b := Counts();
      ghost var s0, nodes0, stop0, mark0 := bridge.slots, dataNodes, stopSignal, bridge.parentRetry;
      GuardedSubmit(cycle, now);
      SubmitSpecCounts(s0, nodes0, stop0, mark0, cycle, now);
      GuardedKeepsMark(b);
    }

    /**
     * The corrected `parentRetryCallback`: the mark is cleared before the
     * retry, and the retry is the corrected `submit`, run whenever the
     * stop signal is held.  It never spins, and a held stop signal keeps
     * its mark.
     */
    method ParentRetryCallback(cycle: uint64, now: uint64) returns (aborted: bool)
      requires Valid()
      modifies this`dataNodes, this`stopSignal, bridge`slots, bridge`parentRetry
      ensures Valid() && FreeIdsIn(old(bridge.slots), |old(bridge.slots.pl.idle)|)
      ensures aborted <==> old(bridge.parentRetry) && bridge.parentName != PARENT_MPEG2
      ensures aborted ==>
        && bridge.slots == old(bridge.slots) && dataNodes == old(dataNodes)
        && stopSignal == old(stopSignal) && bridge.parentRetry == old(bridge.parentRetry)
      ensures !aborted ==>
        Submitted(bridge.slots, dataNodes, stopSignal, bridge.parentRetry, false)
          == GuardedCallbackSpec(old(bridge.slots), old(dataNodes), old(stopSignal), old(bridge.parentRetry), cycle, now)
      ensures !aborted ==> Counts() == Callback(old(Counts()))
      ensures !aborted && old(Progress()) ==> Progress()
    {
      if !bridge.parentRetry {
        FreeIdsOf(bridge.slots);
        aborted := false;
      } else if bridge.parentName != PARENT_MPEG2 {
        FreeIdsOf(bridge.slots);
        aborted := true;
      } else {
        aborted := false;
        ClearThenRetry(cycle, now);
      }
    }

    /** The marked branch of the corrected callback: the mark is cleared, then the corrected retry runs if the stop signal is held. */
    method ClearThenRetry(cycle: uint64, now: uint64)
      requires Valid() && bridge.parentRetry
      modifies this`dataNodes, this`stopSignal, bridge`slots, bridge`parentRetry
      ensures Valid() && FreeIdsIn(old(bridge.slots), |old(bridge.slots.pl.idle)|)
      ensures Submitted(bridge.slots, dataNodes, stopSignal, bridge.parentRetry, false)
           == GuardedCallbackSpec(old(bridge.slots), old(dataNodes), old(stopSignal), true, cycle, now)
      ensures Counts() == Callback(old(Counts())) && Progress()
    {
      ghost var s0, nodes0, stop0 := bridge.slots, dataNodes, stopSignal;
      FreeIdsOf(bridge.slots);
      GuardedCallbackSpecCounts(s0, nodes0, stop0, true, cycle, now);
      bridge.ClearParentRetry();
      if IsValid(stopSignal) {
        GuardedRetry(cycle, now);
      }
    }

    /** The device address a node keeps: that of its first write. */
    function NodeAddrAfter(configAddr: uint64): uint64
      reads this
    {
      if nodePtr == 0 then configAddr else nodeAddr
    }

    /**
     * A pixel write with the data-plane option: the bytes are copied into
     * the node being filled, right behind those already there; the first
     * write of a node gives its address.  A node that is full is queued,
     * the buffer starts over empty and `submit` runs.  A write that
     * overruns the node stops the run.
     */
    method Accumulate(configAddr: uint64, data: seq<byte>, cycle: uint64, now: uint64)
      returns (aborted: bool, pushed: bool, stalled: bool)
      requires Valid() && dataPlaneOpt
      modifies this`node, this`nodePtr, this`nodeAddr, this`dataNodes, this`stopSignal, bridge`slots, bridge`parentRetry
      ensures Valid()
      ensures aborted <==> old(nodePtr) + |data| > TASK_DATA_SIZE
      ensures pushed <==> old(nodePtr) + |data| == TASK_DATA_SIZE
      ensures aborted ==> node == old(node) && nodePtr == old(nodePtr) && nodeAddr == old(nodeAddr)
      ensures !pushed ==> dataNodes == old(dataNodes) && stopSignal == old(stopSignal) && !stalled
                          && bridge.slots == old(bridge.slots) && bridge.parentRetry == old(bridge.parentRetry)
      ensures !aborted && !pushed ==>
        node == Splice(old(node), old(nodePtr), data) && nodePtr == old(nodePtr) + |data| && nodeAddr == old(NodeAddrAfter(configAddr))
      ensures pushed ==>
        && node == Zeros(TASK_DATA_SIZE) && nodePtr == 0 && nodeAddr == 0
        && FreeIdsIn(old(bridge.slots), |old(bridge.slots.pl.idle)|)
        && Submitted(bridge.slots, dataNodes, stopSignal, bridge.parentRetry, stalled)
           == SubmitSpec(old(bridge.slots), old(dataNodes) + [DataNode(old(NodeAddrAfter(configAddr)), Splice(old(node), old(nodePtr), data))],
                         old(stopSignal), old(bridge.parentRetry), cycle, now, false)
    {
      aborted, pushed, stalled := false, false, false;
      if nodePtr + |data| > TASK_DATA_SIZE {
        return true, false, false;
      }
      pushed := FillNode(configAddr, data);
      if pushed {
        stalled := Submit(cycle, now);
      }
    }

    /**
     * The bytes are copied behind those already in the node, the first
     * write of a node giving its address; a node that is full joins the
     * queue and the buffer starts over empty.
     */
    method FillNode(configAddr: uint64, data: seq<byte>) returns (pushed: bool)
      requires Valid() && dataPlaneOpt && nodePtr + |data| <= TASK_DATA_SIZE
      modifies this`node, this`nodePtr, this`nodeAddr, this`dataNodes
      ensures Valid()
      ensures pushed <==> old(nodePtr) + |data| == TASK_DATA_SIZE
      ensures !pushed ==>
        && node == Splice(old(node), old(nodePtr), data) && nodePtr == old(nodePtr) + |data|
        && nodeAddr == old(NodeAddrAfter(configAddr)) && dataNodes == old(dataNodes)
      ensures pushed ==>
        && dataNodes == old(dataNodes) + [DataNode(old(NodeAddrAfter(configAddr)), Splice(old(node), old(nodePtr), data))]
        && node == Zeros(TASK_DATA_SIZE) && nodePtr == 0 && nodeAddr == 0
    {
      var filled := Splice(node, nodePtr, data);
      var addr := NodeAddrAfter(configAddr);
      pushed := nodePtr + |data| == TASK_DATA_SIZE;
      if pushed {
        dataNodes := dataNodes + [DataNode(addr, filled)];
        node, nodePtr, nodeAddr := Zeros(TASK_DATA_SIZE), 0, 0;
      } else {
        node, nodePtr, nodeAddr := filled, nodePtr + |data|, addr;
      }
    }

    /** The node being filled, when it holds any byte: what a stop signal flushes. */
    function Partial(): seq<DataNode>
      reads this
    {
      if nodePtr > 0 then [DataNode(nodeAddr, node)] else []
    }

    /**
     * A stop write: the stop signal is held, a node being filled is
     * queued as it stands and the buffer starts over, and `submit` runs,
     * so the stop signal follows every node still waiting.
     */
    method HoldStop(task: PCIeTask, cycle: uint64, now: uint64) returns (stalled: bool)
      requires Valid() && WellFormed(task)
      modifies this`node, this`nodePtr, this`nodeAddr, this`dataNodes, this`stopSignal, bridge`slots, bridge`parentRetry
      ensures Valid() && nodePtr == 0 && unchanged(bridge.cdma)
      ensures old(nodePtr) > 0 ==> node == Zeros(TASK_DATA_SIZE) && nodeAddr == 0
      ensures old(nodePtr) == 0 ==> node == old(node) && nodeAddr == old(nodeAddr)
      ensures FreeIdsIn(old(bridge.slots), |old(bridge.slots.pl.idle)|)
      ensures Submitted(bridge.slots, dataNodes, stopSignal, bridge.parentRetry, stalled)
           == SubmitSpec(old(bridge.slots), old(dataNodes) + old(Partial()), task, old(bridge.parentRetry), cycle, now, false)
    {
      stopSignal := task;
      if nodePtr > 0 {
        dataNodes := dataNodes + [DataNode(nodeAddr, node)];
        node := Zeros(TASK_DATA_SIZE);
        nodePtr := 0;
        nodeAddr := 0;
      } else {
        assert dataNodes + [] == dataNodes;
      }
      stalled := Submit(cycle, now);
    }

    /**
     * A pixel write without the data-plane option: the eight bytes go to
     * the bridge at once as a write task, `recvTask` spinning (`stalled`)
     * while no slot is free.  A write of another size stops the run.
     */
    method WriteThrough(configAddr: uint64, data: seq<byte>, cycle: uint64, now: uint64) returns (aborted: bool, stalled: bool)
      requires Valid()
      modifies bridge`slots
      ensures Valid()
      ensures aborted <==> |data| != 8
      ensures stalled <==> !aborted && old(bridge.slots.pl.idle) == []
      ensures aborted || stalled ==> bridge.slots == old(bridge.slots)
      ensures !aborted && !stalled ==>
        FreeHead(old(bridge.slots)) && bridge.slots == RecvOne(old(bridge.slots), WriteTask(configAddr, data), cycle, now)
    {
      if |data| != 8 {
        return true, false;
      }
      aborted := false;
      if bridge.slots.pl.idle == [] {
        return false, true;
      }
      stalled := false;
      FreeHeadOf(bridge.slots);
      var r := bridge.RecvTask(WriteTask(configAddr, data), cycle, now);
    }

    /**
     * A register write that is not the stop signal: a start write first
     * arms the CDMA engine on the stream window (an armed engine stops
     * the run), then the write goes to the bridge as a write task,
     * `recvTask` spinning (`stalled`) while no slot is free.
     */
    method PassRegister(configAddr: uint64, task: PCIeTask, cycle: uint64, now: uint64) returns (aborted: bool, stalled: bool)
      requires Valid() && WellFormed(task) && IsValid(task)
      modifies bridge`slots, bridge.cdma
      ensures Valid()
      ensures aborted <==> IsStartWrite(configAddr, task) && old(bridge.cdma.status)
      ensures IsStartWrite(configAddr, task) && !aborted ==>
        bridge.cdma.status && bridge.cdma.addr == STREAM_WINDOW && bridge.cdma.size == 0
      ensures !IsStartWrite(configAddr, task) ==> unchanged(bridge.cdma)
      ensures PassedOn(old(bridge.slots), IsStartWrite(configAddr, task), task, cycle, now, aborted, stalled, bridge.slots)
    {
      aborted, stalled := false, false;
      if IsStartWrite(configAddr, task) {
        aborted := bridge.EnableCdma(STREAM_WINDOW, 0);
        if aborted {
          return;
        }
      }
      if bridge.slots.pl.idle == [] {
        return false, true;
      }
      FreeHeadOf(bridge.slots);
      var r := bridge.RecvTask(task, cycle, now);
    }

    /**
     * A register write: its bytes follow the register address in a write
     * task (more than the task holds stops the run); the stop signal is
     * held, anything else is passed on.
     */
    method RegisterWrite(configAddr: uint64, data: seq<byte>, cycle: uint64, now: uint64) returns (aborted: bool, stalled: bool)
      requires Valid()
      modifies this`node, this`nodePtr, this`nodeAddr, this`dataNodes, this`stopSignal, bridge`slots, bridge`parentRetry, bridge.cdma
      ensures Valid()
      ensures |data| > TASK_DATA_SIZE - 8 ==>
        aborted && !stalled && unchanged(this) && unchanged(bridge) && unchanged(bridge.cdma)
      ensures |data| <= TASK_DATA_SIZE - 8 && IsStopWrite(configAddr, WriteTask(configAddr, data)) ==>
        && !aborted && IsValid(WriteTask(configAddr, data)) && unchanged(bridge.cdma)
        && nodePtr == 0
        && (old(nodePtr) > 0 ==> node == Zeros(TASK_DATA_SIZE) && nodeAddr == 0)
        && (old(nodePtr) == 0 ==> node == old(node) && nodeAddr == old(nodeAddr))
        && FreeIdsIn(old(bridge.slots), |old(bridge.slots.pl.idle)|)
        && Submitted(bridge.slots, dataNodes, stopSignal, bridge.parentRetry, stalled)
           == SubmitSpec(old(bridge.slots), old(dataNodes) + old(Partial()), WriteTask(configAddr, data), old(bridge.parentRetry), cycle, now, false)
      ensures |data| <= TASK_DATA_SIZE - 8 && !IsStopWrite(configAddr, WriteTask(configAddr, data)) ==>
        && node == old(node) && nodePtr == old(nodePtr) && nodeAddr == old(nodeAddr)
        && stopSignal == old(stopSignal) && dataNodes == old(dataNodes) && bridge.parentRetry == old(bridge.parentRetry)
        && (aborted <==> IsStartWrite(configAddr, WriteTask(configAddr, data)) && old(bridge.cdma.status))
        && (IsStartWrite(configAddr, WriteTask(configAddr, data)) && !aborted ==>
              bridge.cdma.status && bridge.cdma.addr == STREAM_WINDOW && bridge.cdma.size == 0)
        && (!IsStartWrite(configAddr, WriteTask(configAddr, data)) ==> unchanged(bridge.cdma))
        && PassedOn(old(bridge.slots), IsStartWrite(configAddr, WriteTask(configAddr, data)), WriteTask(configAddr, data),
                    cycle, now, aborted, stalled, bridge.slots)
    {
      if |data| > TASK_DATA_SIZE - 8 {
        aborted, stalled := true, false;
      } else if IsStopWrite(configAddr, WriteTask(configAddr, data)) {
        aborted := false;
        stalled := HoldStop(WriteTask(configAddr, data), cycle, now);
      } else {
        aborted, stalled := PassRegister(configAddr, WriteTask(configAddr, data), cycle, now);
      }
    }

    /** A status read: bit 0 set, the CDMA engine's idle flag and its buffered byte count; sizes other than eight stop the run. */
    function StatusRead(size: uint64): (r: Outcome<seq<byte>>)
      requires Valid()
      reads this, bridge.Repr()
      ensures r.Done? <==> size == 8
      ensures r.Done? ==> |r.value| == 8 && ParseStatus(r.value) == Status(true, !bridge.CdmaStatus(), bridge.CdmaRemain())
    {
      if size != 8 then Abort else Done(StatusBytes(!bridge.CdmaStatus(), bridge.CdmaRemain()))
    }

    /** A read of the stream window: `n` bytes of the CDMA engine's stream, or `n` zeros when fewer are buffered. */
    method StreamRead(n: uint64) returns (buf: seq<byte>)
      requires Valid()
      modifies bridge.cdma`rptr
      ensures Valid() && |buf| == n
      ensures n <= old(bridge.CdmaRemain()) ==>
        buf == bridge.cdma.buffer[old(bridge.cdma.rptr)..old(bridge.cdma.rptr) + n] && bridge.cdma.rptr == old(bridge.cdma.rptr) + n
      ensures n > old(bridge.CdmaRemain()) ==> buf == Zeros(n) && bridge.cdma.rptr == old(bridge.cdma.rptr)
    {
      buf := bridge.CdmaFetchData(n);
    }

    /** A read request: the status register, the stream window, and nothing else. */
    method ReadRequest(addr: uint64, size: uint64) returns (r: Outcome<seq<byte>>)
      requires Valid()
      modifies bridge.cdma`rptr
      ensures Valid()
      ensures r.Abort? <==> (ConfigAddr(addr) == STATUS_REG && size != 8) || (ConfigAddr(addr) != STATUS_REG && ConfigAddr(addr) < STREAM_WINDOW)
      ensures ConfigAddr(addr) == STATUS_REG ==> r == old(StatusRead(size)) && unchanged(bridge.cdma)
      ensures ConfigAddr(addr) >= STREAM_WINDOW ==> r.Done? && |r.value| == size
    {
      var c := ConfigAddr(addr);
      if c == STATUS_REG {
        r := StatusRead(size);
      } else if c >= STREAM_WINDOW {
        var buf := StreamRead(size);
        r := Done(buf);
      } else {
        r := Abort;
      }
    }

    /**
     * A write request: the data window goes to the node accumulator with
     * the data-plane option and straight to the bridge without it; below
     * it are the registers.
     */
    method WriteRequest(addr: uint64, data: seq<byte>, cycle: uint64, now: uint64) returns (aborted: bool, stalled: bool)
      requires Valid()
      modifies this`node, this`nodePtr, this`nodeAddr, this`dataNodes, this`stopSignal, bridge`slots, bridge`parentRetry, bridge.cdma
      ensures Valid()
      ensures ConfigAddr(addr) >= DATA_WINDOW && dataPlaneOpt ==> (aborted <==> old(nodePtr) + |data| > TASK_DATA_SIZE)
      ensures ConfigAddr(addr) >= DATA_WINDOW && !dataPlaneOpt ==> (aborted <==> |data| != 8)
      ensures ConfigAddr(addr) < DATA_WINDOW && |data| > TASK_DATA_SIZE - 8 ==> aborted
    {
      var c := ConfigAddr(addr);
      if c >= DATA_WINDOW {
        if dataPlaneOpt {
          var pushed;
          aborted, pushed, stalled := Accumulate(c, data, cycle, now);
        } else {
          aborted, stalled := WriteThrough(c, data, cycle, now);
        }
      } else {
        aborted, stalled := RegisterWrite(c, data, cycle, now);
      }
    }

    // -------------------------------------------------------------------
    // The Verilator model's side

    /** The encoder's output stream not yet read. */
    ghost function Stream(): seq<byte>
      requires rptr <= wptr <= outBuffer.Length
      reads this, outBuffer
    {
      outBuffer[rptr..wptr]
    }

    /** A status read with the Verilator model: bit 0 set, the last-frame flag and the bytes of output not yet read. */
    function VStatusRead(size: uint64): (r: Outcome<seq<byte>>)
      requires Valid()
      reads this, bridge.Repr()
      ensures r.Done? <==> size == 8
      ensures r.Done? ==> |r.value| == 8 && ParseStatus(r.value) == Status(true, lastSignal, wptr - rptr)
    {
      if size != 8 then Abort else Done(StatusBytes(lastSignal, wptr - rptr))
    }

    /**
     * A stream read with the Verilator model: the oldest `n` bytes of the
     * output stream when that many are there, and both offsets go back to
     * the start once it is drained; otherwise `n` zeros and no change.
     */
    method VStreamRead(n: uint64) returns (buf: seq<byte>)
      requires Valid()
      modifies this`rptr, this`wptr
      ensures Valid() && |buf| == n
      ensures n <= |old(Stream())| ==> buf == old(Stream())[..n] && Stream() == old(Stream())[n..]
      ensures n <= |old(Stream())| && rptr == wptr ==> rptr == 0 && wptr == 0
      ensures n > |old(Stream())| ==> buf == Zeros(n) && rptr == old(rptr) && wptr == old(wptr)
    {
      if n <= wptr - rptr {
        buf := outBuffer[rptr..rptr + n];
        rptr := rptr + n;
        if wptr == rptr {
          wptr, rptr := 0, 0;
        }
      } else {
        buf := Zeros(n);
      }
    }

    /**
     * A pixel write with the Verilator model: the bytes are copied into
     * the node buffer behind those already there, and once eight are in,
     * they go to the model as one pixel group and the buffer starts over.
     * More than eight stops the run.
     */
    method VPixelWrite(configAddr: uint64, data: seq<byte>) returns (aborted: bool, input: PixelInput)
      requires Valid() && verilator
      modifies this`node, this`nodePtr, this`nodeAddr, this`inputCount
      ensures Valid()
      ensures aborted <==> old(nodePtr) + |data| > PIXEL_GROUP
      ensures aborted ==> node == old(node) && nodePtr == old(nodePtr) && inputCount == old(inputCount)
      ensures !aborted ==> node == Splice(old(node), old(nodePtr), data) && inputCount == old(inputCount) + 1
      ensures !aborted && old(nodePtr) + |data| < PIXEL_GROUP ==>
        nodePtr == old(nodePtr) + |data| && nodeAddr == old(NodeAddrAfter(configAddr)) && input == NoInput()
      ensures !aborted && old(nodePtr) + |data| == PIXEL_GROUP ==>
        nodePtr == 0 && nodeAddr == 0 && input == NoInput().(en := true, pixels := node[..PIXEL_GROUP])
    {
      input := NoInput();
      if nodePtr + |data| > PIXEL_GROUP {
        return true, input;
      }
      aborted := false;
      node := Splice(node, nodePtr, data);
      if nodePtr == 0 {
        nodeAddr := configAddr;
      }
      nodePtr := nodePtr + |data|;
      inputCount := inputCount + 1;
      if nodePtr == PIXEL_GROUP {
        nodePtr := 0;
        nodeAddr := 0;
        input := input.(en := true, pixels := node[..PIXEL_GROUP]);
      }
    }

    /**
     * A write of the control register with the Verilator model: bit 0 is
     * the reset (active low); bit 1, kept in place (0 or 2), is the
     * sequence-stop pin; both are handed to the model; a reset clears the last-frame flag and lets the model run,
     * and bit 2 stops it.  More than eight bytes stop the run.
     */
    method VControlWrite(data: seq<byte>) returns (aborted: bool, input: PixelInput)
      requires Valid()
      modifies this`lastSignal, this`stopVerilator
      ensures Valid()
      ensures aborted <==> |data| > 8
      ensures aborted ==> lastSignal == old(lastSignal) && stopVerilator == old(stopVerilator)
      ensures !aborted ==>
        var v := WordOf(data);
        && input == NoInput().(rstn := v % 2 == 1, sequenceStop := 2 * ((v / 2) % 2))
        && lastSignal == (old(lastSignal) && v % 2 == 1)
        && stopVerilator == ((v / 4) % 2 == 1 || (old(stopVerilator) && v % 2 == 1))
    {
      input := NoInput();
      if |data| > 8 {
        return true, input;
      }
      aborted := false;
      var v := WordOf(data);
      input := input.(rstn := v % 2 == 1, sequenceStop := 2 * ((v / 2) % 2));
      if v % 2 == 0 {
        lastSignal := false;
        stopVerilator := false;
      }
      if (v / 4) % 2 == 1 {
        stopVerilator := true;
      }
    }

    /**
     * One tick of the Verilator model, given what it answered: an output
     * beat is appended to the output stream (one that would run past the
     * buffer stops the run), the last-frame flag is latched, and the next
     * tick is scheduled unless the model was stopped.
     */
    method VTick(out: PixelOutput) returns (aborted: bool, reschedule: bool)
      requires Valid() && (out.en ==> |out.data| == OUT_BEAT)
      modifies this`wptr, this`outputCount, this`lastSignal, outBuffer
      ensures Valid()
      ensures aborted <==> out.en && old(wptr) + OUT_BEAT > OUT_BUFFER_SIZE
      ensures aborted ==> wptr == old(wptr) && outputCount == old(outputCount) && outBuffer[..] == old(outBuffer[..])
      ensures !aborted ==>
        && Stream() == old(Stream()) + (if out.en then out.data else [])
        && outputCount == old(outputCount) + (if out.en then 1 else 0)
        && lastSignal == (old(lastSignal) || out.last)
        && reschedule == !stopVerilator
    {
      aborted := false;
      if out.en {
        if wptr + OUT_BEAT > OUT_BUFFER_SIZE {
          return true, false;
        }
        forall k | 0 <= k < OUT_BEAT {
          outBuffer[wptr + k] := out.data[k];
        }
        assert outBuffer[rptr..wptr + OUT_BEAT] == old(outBuffer[rptr..wptr]) + out.data;
        wptr := wptr + OUT_BEAT;
        outputCount := outputCount + 1;
      }
      if out.last {
        lastSignal := true;
      }
      reschedule := !stopVerilator;
    }

    /** A read request with the Verilator model: the status register, the output stream, and nothing else. */
    method VReadRequest(addr: uint64, size: uint64) returns (r: Outcome<seq<byte>>)
      requires Valid()
      modifies this`rptr, this`wptr
      ensures Valid()
      ensures r.Abort? <==> (ConfigAddr(addr) == STATUS_REG && size != 8) || (ConfigAddr(addr) != STATUS_REG && ConfigAddr(addr) < STREAM_WINDOW)
      ensures ConfigAddr(addr) == STATUS_REG ==> r == old(VStatusRead(size)) && rptr == old(rptr) && wptr == old(wptr)
      ensures ConfigAddr(addr) >= STREAM_WINDOW ==> r.Done? && |r.value| == size
    {
      var c := ConfigAddr(addr);
      if c == STATUS_REG {
        r := VStatusRead(size);
      } else if c >= STREAM_WINDOW {
        var buf := VStreamRead(size);
        r := Done(buf);
      } else {
        r := Abort;
      }
    }

    /**
     * A write request with the Verilator model: the data window feeds the
     * pixel groups, register 0 is the control register and register 8 the
     * frame size; any other register stops the run.  `input` is what the
     * next tick hands to the model.
     */
    method VWriteRequest(addr: uint64, data: seq<byte>) returns (aborted: bool, input: PixelInput)
      requires Valid() && verilator
      modifies this`node, this`nodePtr, this`nodeAddr, this`inputCount, this`lastSignal, this`stopVerilator
      ensures Valid()
      ensures ConfigAddr(addr) >= DATA_WINDOW ==> (aborted <==> old(nodePtr) + |data| > PIXEL_GROUP)
      ensures ConfigAddr(addr) == 0 || ConfigAddr(addr) == 8 ==> (aborted <==> |data| > 8)
      ensures ConfigAddr(addr) == 8 && !aborted ==> SizeWrite(data) == Done(input)
      ensures ConfigAddr(addr) < DATA_WINDOW && ConfigAddr(addr) != 0 && ConfigAddr(addr) != 8 ==> aborted
    {
      var c := ConfigAddr(addr);
      input := NoInput();
      if c >= DATA_WINDOW {
        aborted, input := VPixelWrite(c, data);
      } else if c == 0 {
        aborted, input := VControlWrite(data);
      } else if c == 8 {
        var r := SizeWrite(data);
        aborted := r.Abort?;
        if r.Done? {
          input := r.value;
        }
      } else {
        aborted := true;
      }
    }
  }
}
