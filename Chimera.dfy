/**
 * The bridge itself: the slot table with its free list and lifecycle
 * records, the three inter-stage queues and the three pipeline stages.
 * Each loop body of a stage thread is one atomic step on the bridge
 * object; the device's answers and the clock readings are parameters.
 *
 * The four queues are held by their contents as bounded FIFOs of
 * capacity N (the contract `Ring.RingBuffer` is proved to meet); every
 * enqueue the source asserts to succeed is proved to fit.  Slot
 * ownership is the invariant `Slots.Inv` over the bookkeeping value
 * `slots`: every slot id 0..N-1 sits in exactly one of the free list,
 * the ingress queue, the transmit queue, the set of ids submitted with
 * needs-response and not yet collected (`awaiting`), or a response
 * packet waiting in the response queue.
 */
module Chimera {
  import opened Wire
  import opened Cdma
  import opened Slots

  /** The only parent the retry callback knows how to call. */
  const PARENT_MPEG2: string := "mpeg2encoder"

  /** The free list as the constructor fills it: every slot, in order. */
  method FreeList(n: nat) returns (r: seq<int>)
    ensures r == Range(n)
  {
    r := [];
    var i := 0;
    while i < n
      invariant 0 <= i <= n && r == Range(i)
    {
      assert Range(i + 1) == Range(i) + [i];
      r := r + [i];
      i := i + 1;
    }
  }

  /** The slot table, each entry carrying its own id. */
  function NewTable(n: nat): (t: seq<TableEntry>)
    requires n <= 128
    ensures |t| == n && forall i :: 0 <= i < n ==> t[i] == NewTableEntry(i)
  {
    seq(n, i requires 0 <= i < n => NewTableEntry(i))
  }

  /** Statistics accumulated whenever a slot's lifecycle is closed. */
  datatype Stats = Stats(handleCount: nat, preFlow: nat, pcieSubmit: nat, pcieCollect: nat, postFlow: nat)

  /**
   * `submitLifeCycle`'s accounting of one closed lifecycle: one more
   * handled task and the four interval lengths, each an unsigned 64-bit
   * difference of two timestamps.
   */
  function Account(s: Stats, e: LifeCycle): Stats
  {
    Stats(s.handleCount + 1,
          s.preFlow + Sub64(e.preSubmitTime, e.recvTime),
          s.pcieSubmit + Sub64(e.postSubmitTime, e.preSubmitTime),
          s.pcieCollect + Sub64(e.postCollectTime, e.preCollectTime),
          s.postFlow + Sub64(e.respTime, e.postCollectTime))
  }

  /** Accounting of several closed lifecycles, in order. */
  function AccountAll(s: Stats, es: seq<LifeCycle>): Stats
  {
    if es == [] then s else Account(AccountAll(s, es[..|es| - 1]), es[|es| - 1])
  }

  /** The handled-task count grows by exactly the number of closed lifecycles, and no sum ever shrinks. */
  lemma {:induction false} AccountAllCounts(s: Stats, es: seq<LifeCycle>)
    ensures AccountAll(s, es).handleCount == s.handleCount + |es|
    ensures AccountAll(s, es).preFlow >= s.preFlow && AccountAll(s, es).pcieSubmit >= s.pcieSubmit
    ensures AccountAll(s, es).pcieCollect >= s.pcieCollect && AccountAll(s, es).postFlow >= s.postFlow
  {
    if es != [] {
      AccountAllCounts(s, es[..|es| - 1]);
    }
  }

  /** What one submit step writes to the device. */
  datatype DevWrite =
    | NoWrite
      /** the request packet image, written at device address 0 */
    | ReqWrite(image: seq<byte>)
      /** the data packet buffer, written at its start address for its total size */
    | DataWrite(addr: uint32, size: uint32, data: seq<byte>)

  /**
   * Whether a transmitted task's slot waits for a response.  The submit
   * step tests the write flag first: a write task waits when it needs a
   * response; any other task that got that far is a data task, and it
   * waits when it also carries the read flag.
   */
  predicate Awaits(h: PCIeTask)
  {
    if IsWrite(h) then IsNeedResp(h) else IsRead(h)
  }

  /** The batch threshold the constructor writes to the device. */
  const DEVICE_BATCH_THRESHOLD: nat := 1

  /**
   * What the collect step requires of the device's answer: a valid
   * packet carries at least one and at most the configured threshold of
   * results, all for slots that are awaiting a response.  An invalid
   * packet may carry any batch count.
   */
  predicate HonestResponse(p: RespPkt, awaiting: multiset<int>)
  {
    && RespWellFormed(p)
    && (p.valid == 1 ==> 1 <= p.batch as int <= DEVICE_BATCH_THRESHOLD && multiset(PktIds(p)) <= awaiting)
  }

  /** A task of neither the write nor the data kind stops the submit stage. */
  predicate Unsubmittable(h: PCIeTask)
  {
    !IsWrite(h) && !IsData(h)
  }

  /**
   * The lifecycle record of a slot whose task was just transmitted: the
   * write path stamps both submit times; the record closes unless the
   * slot now waits for a response.
   */
  function Transmitted(l: LifeCycle, h: PCIeTask, now1: uint64, now2: uint64): LifeCycle
  {
    var s := if IsWrite(h) then l.(preSubmitTime := now1, postSubmitTime := now2) else l;
    if Awaits(h) then s else s.(valid := false)
  }

  /** The records of the collected slots `ids` with both collect times stamped. */
  function Collected(lc: seq<LifeCycle>, ids: seq<int>, pre: uint64, post: uint64): (r: seq<LifeCycle>)
    ensures |r| == |lc|
  {
    seq(|lc|, j requires 0 <= j < |lc| =>
      if j in ids then lc[j].(preCollectTime := pre, postCollectTime := post) else lc[j])
  }

  /** The record of a slot whose result `r` was handed back at time `now`, closed. */
  function Closed(l: LifeCycle, r: Result, now: uint64): LifeCycle
  {
    l.(respTime := now, postHwTime := r.executedTime, valid := false)
  }

  /**
   * The records after the first `i` results of packet `p` were handed
   * back one after the other: each time the result's slot is closed with
   * that result and the time `now`.
   */
  function RespondedUpTo(lc: seq<LifeCycle>, p: RespPkt, i: nat, now: uint64): (r: seq<LifeCycle>)
    requires RespWellFormed(p) && i <= p.batch as int <= MAX_BATCH_THRESHOLD
    requires forall k :: 0 <= k < p.batch as int ==> 0 <= p.results[k].tableID as int < |lc|
    ensures |r| == |lc|
  {
    if i == 0 then lc
    else
      var r := RespondedUpTo(lc, p, i - 1, now);
      var id := p.results[i - 1].tableID as int;
      r[id := Closed(r[id], p.results[i - 1], now)]
  }

  /**
   * The table after the first `i` results of packet `p` were stored, each
   * in its slot's entry, which is marked complete; ids, valid bits and
   * task UIDs stay as they were.
   */
  function GivenUpTo(t: seq<TableEntry>, p: RespPkt, i: nat): (r: seq<TableEntry>)
    requires RespWellFormed(p) && i <= p.batch as int <= MAX_BATCH_THRESHOLD
    requires forall k :: 0 <= k < p.batch as int ==> 0 <= p.results[k].tableID as int < |t|
    ensures |r| == |t| && TableWeaker(t, r)
  {
    if i == 0 then t
    else
      var r := GivenUpTo(t, p, i - 1);
      var id := p.results[i - 1].tableID as int;
      r[id := r[id].(result := p.results[i - 1], complete := true)]
  }

  /** The statistics after the first `i` closed records of packet `p` were accounted, as they closed. */
  function AccountedUpTo(st: Stats, lc: seq<LifeCycle>, p: RespPkt, i: nat, now: uint64): Stats
    requires RespWellFormed(p) && i <= p.batch as int <= MAX_BATCH_THRESHOLD
    requires forall k :: 0 <= k < p.batch as int ==> 0 <= p.results[k].tableID as int < |lc|
  {
    if i == 0 then st
    else Account(AccountedUpTo(st, lc, p, i - 1, now), RespondedUpTo(lc, p, i, now)[p.results[i - 1].tableID as int])
  }

  /** The closed records of packet `p`'s slots, in result order, each closed from its record before the step. */
  function ClosedInOrder(lc: seq<LifeCycle>, p: RespPkt, now: uint64): (r: seq<LifeCycle>)
    requires RespWellFormed(p) && p.batch as int <= MAX_BATCH_THRESHOLD
    requires forall k :: 0 <= k < p.batch as int ==> 0 <= p.results[k].tableID as int < |lc|
    ensures |r| == p.batch as int
  {
    seq(p.batch as int, k requires 0 <= k < p.batch as int =>
      Closed(lc[p.results[k].tableID as int], p.results[k], now))
  }

  /**
   * With distinct ids, after `i` results exactly the first `i` slots of
   * the packet are closed, each from its own original record with its own
   * result; every other record is untouched.
   */
  lemma {:induction false} RespondedFrame(lc: seq<LifeCycle>, p: RespPkt, i: nat, now: uint64)
    requires RespWellFormed(p) && i <= p.batch as int <= MAX_BATCH_THRESHOLD && Distinct(PktIds(p))
    requires forall k :: 0 <= k < p.batch as int ==> 0 <= p.results[k].tableID as int < |lc|
    ensures forall j :: 0 <= j < |lc| && j !in PktIds(p)[..i] ==> RespondedUpTo(lc, p, i, now)[j] == lc[j]
    ensures forall k :: 0 <= k < i ==>
      RespondedUpTo(lc, p, i, now)[PktIds(p)[k]] == Closed(lc[PktIds(p)[k]], p.results[k], now)
  {
    if i > 0 {
      RespondedFrame(lc, p, i - 1, now);
      var ids := PktIds(p);
      assert ids[..i] == ids[..i - 1] + [ids[i - 1]];
      assert ids[i - 1] !in ids[..i - 1];
    }
  }

  /**
   * With distinct ids, after `i` results each of the first `i` slots of
   * the packet stores its own result and is complete; every other entry is
   * untouched.
   */
  lemma {:induction false} GivenFrame(t: seq<TableEntry>, p: RespPkt, i: nat)
    requires RespWellFormed(p) && i <= p.batch as int <= MAX_BATCH_THRESHOLD && Distinct(PktIds(p))
    requires forall k :: 0 <= k < p.batch as int ==> 0 <= p.results[k].tableID as int < |t|
    ensures forall j :: 0 <= j < |t| && j !in PktIds(p)[..i] ==> GivenUpTo(t, p, i)[j] == t[j]
    ensures forall k :: 0 <= k < i ==>
      GivenUpTo(t, p, i)[PktIds(p)[k]] == t[PktIds(p)[k]].(result := p.results[k], complete := true)
  {
    if i > 0 {
      GivenFrame(t, p, i - 1);
      var ids := PktIds(p);
      assert ids[..i] == ids[..i - 1] + [ids[i - 1]];
      assert ids[i - 1] !in ids[..i - 1];
    }
  }

  /**
   * The response step's records: the packet's slots are closed, each
   * with its own result and the response time, and every other record
   * is left as it was.
   */
  lemma RespondedCloses(lc: seq<LifeCycle>, p: RespPkt, now: uint64)
    requires RespWellFormed(p) && p.batch as int <= MAX_BATCH_THRESHOLD && Distinct(PktIds(p))
    requires forall k :: 0 <= k < p.batch as int ==> 0 <= p.results[k].tableID as int < |lc|
    ensures forall j :: 0 <= j < |lc| ==>
      RespondedUpTo(lc, p, p.batch as int, now)[j].valid == (lc[j].valid && j !in PktIds(p))
    ensures forall k :: 0 <= k < p.batch as int ==>
      RespondedUpTo(lc, p, p.batch as int, now)[PktIds(p)[k]] == Closed(lc[PktIds(p)[k]], p.results[k], now)
    ensures forall j :: 0 <= j < |lc| && j !in PktIds(p) ==> RespondedUpTo(lc, p, p.batch as int, now)[j] == lc[j]
  {
    var ids := PktIds(p);
    RespondedFrame(lc, p, p.batch as int, now);
    assert ids[..p.batch as int] == ids;
    forall j | 0 <= j < |lc| && j in ids
      ensures !RespondedUpTo(lc, p, p.batch as int, now)[j].valid
    {
      var k :| 0 <= k < |ids| && ids[k] == j;
    }
  }

  /** With distinct ids, the statistics account the packet's closed records in result order. */
  lemma {:induction false} AccountedInOrder(st: Stats, lc: seq<LifeCycle>, p: RespPkt, i: nat, now: uint64)
    requires RespWellFormed(p) && i <= p.batch as int <= MAX_BATCH_THRESHOLD && Distinct(PktIds(p))
    requires forall k :: 0 <= k < p.batch as int ==> 0 <= p.results[k].tableID as int < |lc|
    ensures AccountedUpTo(st, lc, p, i, now) == AccountAll(st, ClosedInOrder(lc, p, now)[..i])
  {
    if i > 0 {
      AccountedInOrder(st, lc, p, i - 1, now);
      RespondedFrame(lc, p, i, now);
      var cs := ClosedInOrder(lc, p, now);
      assert cs[..i][..i - 1] == cs[..i - 1];
    }
  }

  /**
   * The response step on the head packet of the response queue keeps the
   * bookkeeping invariant; the packet's ids are distinct slots, each with
   * an open record, and all of them fit on the free list.
   */
  lemma RespondKeepsInv(s: State, now: uint64)
    requires Inv(s) && s.pl.response != []
    ensures PktOk(s.pl.response[0])
    ensures var p := s.pl.response[0]; var ids := PktIds(p);
      && Distinct(ids) && |s.pl.idle| + |ids| <= s.n
      && (forall k :: 0 <= k < |ids| ==> 0 <= ids[k] < s.n && s.lc[ids[k]].valid)
      && Inv(RespondNext(s, RespondedUpTo(s.lc, p, p.batch as int, now), GivenUpTo(s.table, p, p.batch as int)))
  {
    var p := s.pl.response[0];
    assert PktOk(p);
    RespondFacts(s.n, s.pl, s.lc);
    RespondedCloses(s.lc, p, now);
    InvRespond(s, RespondedUpTo(s.lc, p, p.batch as int, now), GivenUpTo(s.table, p, p.batch as int));
  }

  /** Result `i` of the packet closes a record still open, and extends the freed prefix by its id. */
  lemma HandBackStep(lc0: seq<LifeCycle>, p: RespPkt, i: nat, now: uint64)
    requires RespWellFormed(p) && p.batch as int <= MAX_BATCH_THRESHOLD && Distinct(PktIds(p)) && i < p.batch as int
    requires forall k :: 0 <= k < p.batch as int ==> 0 <= PktIds(p)[k] < |lc0| && lc0[PktIds(p)[k]].valid
    ensures var id := p.results[i].tableID as int;
      && 0 <= id < |lc0| && RespondedUpTo(lc0, p, i, now)[id].valid
      && PktIds(p)[..i + 1] == PktIds(p)[..i] + [id]
  {
    var ids := PktIds(p);
    var id := p.results[i].tableID as int;
    assert ids[i] == id;
    RespondedFrame(lc0, p, i, now);
    assert id !in ids[..i];
    assert ids[..i + 1] == ids[..i] + [id];
  }

  /**
   * The per-result loop of the response step, on the records `lc`, the
   * table `t` and the statistics `st`: result by result, the slot's
   * record is closed with the response time and its execution time and
   * accounted (it must be open, as `submitLifeCycle` asserts), its id is
   * freed, and its entry stores the result and is marked complete.
   */
  method HandBack(lc0: seq<LifeCycle>, t0: seq<TableEntry>, p: RespPkt, now: uint64, st0: Stats)
      returns (lc: seq<LifeCycle>, table: seq<TableEntry>, freed: seq<int>, st: Stats)
    requires RespWellFormed(p) && p.batch as int <= MAX_BATCH_THRESHOLD && Distinct(PktIds(p))
    requires forall k :: 0 <= k < p.batch as int ==>
               0 <= PktIds(p)[k] < |lc0| && PktIds(p)[k] < |t0| && lc0[PktIds(p)[k]].valid
    ensures lc == RespondedUpTo(lc0, p, p.batch as int, now) && table == GivenUpTo(t0, p, p.batch as int)
    ensures freed == PktIds(p)
    ensures st == AccountAll(st0, ClosedInOrder(lc0, p, now))
  {
    var ids := PktIds(p);
    lc, table, freed, st := lc0, t0, [], st0;
    var i := 0;
    while i < p.batch as int
      invariant 0 <= i <= p.batch as int
      invariant lc == RespondedUpTo(lc0, p, i, now) && table == GivenUpTo(t0, p, i)
      invariant freed == ids[..i]
      invariant st == AccountedUpTo(st0, lc0, p, i, now)
    {
      var id := p.results[i].tableID as int;
      HandBackStep(lc0, p, i, now);
      lc := lc[id := Closed(lc[id], p.results[i], now)];
      st := Account(st, lc[id]);
      freed := freed + [id];
      table := table[id := table[id].(result := p.results[i], complete := true)];
      i := i + 1;
    }
    assert ids[..i] == ids;
    AccountedInOrder(st0, lc0, p, i, now);
    assert ClosedInOrder(lc0, p, now)[..i] == ClosedInOrder(lc0, p, now);
  }

  /**
   * What the response step makes of the bookkeeping `s` and the
   * statistics `st`: the head packet's records closed with the response
   * time `now`, its results stored and its ids freed and completed, and
   * the closed records accounted in batch order.
   */
  ghost function Responded(s: State, now: uint64, st: Stats): (State, Stats)
    requires Inv(s) && s.pl.response != []
  {
    RespondKeepsInv(s, now);
    var p := s.pl.response[0];
    (RespondNext(s, RespondedUpTo(s.lc, p, p.batch as int, now), GivenUpTo(s.table, p, p.batch as int)),
     AccountAll(st, ClosedInOrder(s.lc, p, now)))
  }

  /**
   * The response step on the bookkeeping `s` and the statistics `st0`:
   * the head packet of the response queue is handed back, its slots'
   * records closed and accounted, its results stored, its ids freed and
   * completed; the invariant is kept.
   */
  method Respond(s: State, now: uint64, st0: Stats) returns (s': State, st: Stats)
    requires Inv(s) && s.pl.response != []
    ensures PktOk(s.pl.response[0]) && (s', st) == Responded(s, now, st0)
    ensures Inv(s') && s'.n == s.n
  {
    var p := s.pl.response[0];
    RespondKeepsInv(s, now);
    var lc, table, freed, st1 := HandBack(s.lc, s.table, p, now, st0);
    s' := RespondNext(s, lc, table);
    st := st1;
  }

  /** The collect step for a valid packet, its slots' collect times stamped, keeps the invariant. */
  lemma CollectKeepsInv(s: State, p: RespPkt, pre: uint64, post: uint64)
    requires Inv(s) && HonestResponse(p, s.pl.awaiting) && p.valid == 1
    ensures Inv(CollectNext(s, p, Collected(s.lc, PktIds(p), pre, post)))
  {
    var ids := PktIds(p);
    var lc := Collected(s.lc, ids, pre, post);
    CollectedKeepsValid(s.lc, ids, pre, post);
    InvCollect(s, p, lc);
  }

  /**
   * The search loop of `fetchResp` over the completed list `c`: the
   * position of the first occurrence of `id`, or -1; every element looked
   * at clears the list's updated flag, so the flag survives only an empty
   * list.
   */
  method ScanComplete(c: seq<int>, id: int, updated0: bool) returns (k: int, updated: bool)
    ensures k == FirstIndex(c, id)
    ensures updated == (updated0 && c == [])
  {
    k, updated := -1, updated0;
    var i := 0;
    while i < |c|
      invariant 0 <= i <= |c|
      invariant id !in c[..i]
      invariant updated == (updated0 && i == 0)
    {
      updated := false;
      if c[i] == id {
        k := i;
        assert FirstIndex(c, id) == i by {
          FirstIndexPrefix(c, id, i);
        }
        return;
      }
      assert c[..i + 1] == c[..i] + [c[i]];
      i := i + 1;
    }
    assert c[..i] == c;
  }

  /** An element not among the first `i`, found at `i`, is there first. */
  lemma {:induction false} FirstIndexPrefix(c: seq<int>, x: int, i: nat)
    requires i < |c| && c[i] == x && x !in c[..i]
    ensures FirstIndex(c, x) == i
  {
    if i > 0 {
      assert c[1..][..i - 1] == c[1..i];
      assert c[0] != x by {
        assert c[0] == c[..i][0];
      }
      assert x !in c[1..][..i - 1] by {
        assert c[1..i] == c[..i][1..];
      }
      FirstIndexPrefix(c[1..], x, i - 1);
    }
  }

  /**
   * A response step followed by a fetch for one of the packet's slots:
   * the slot is on the completed list, its entry is complete and holds
   * the result the packet carried for it.
   */
  lemma RespondThenFetch(s: State, now: uint64, k: nat)
    requires Inv(s) && s.pl.response != [] && PktOk(s.pl.response[0]) && k < s.pl.response[0].batch as int
    ensures var p := s.pl.response[0]; var id := p.results[k].tableID as int;
      && (forall j :: 0 <= j < p.batch as int ==> 0 <= p.results[j].tableID as int < s.n)
      && var s' := RespondNext(s, RespondedUpTo(s.lc, p, p.batch as int, now), GivenUpTo(s.table, p, p.batch as int));
      && id in s'.complete
      && s'.table[id].result == p.results[k] && s'.table[id].complete
  {
    var p := s.pl.response[0];
    var ids := PktIds(p);
    assert Distinct(ids) && forall i :: 0 <= i < |ids| ==> 0 <= ids[i] < s.n by {
      RespondFacts(s.n, s.pl, s.lc);
    }
    assert ids[k] == p.results[k].tableID as int;
    var t := GivenUpTo(s.table, p, p.batch as int);
    assert t[ids[k]] == s.table[ids[k]].(result := p.results[k], complete := true) by {
      GivenFrame(s.table, p, p.batch as int);
    }
    var s' := RespondNext(s, RespondedUpTo(s.lc, p, p.batch as int, now), t);
    assert s'.complete[|s.complete| + k] == ids[k];
  }

  /** Stamping the collect times of one more id extends the stamped prefix by that id. */
  lemma CollectOne(lc: seq<LifeCycle>, ids: seq<int>, i: nat, pre: uint64, post: uint64)
    requires i < |ids| && 0 <= ids[i] < |lc|
    ensures var c := Collected(lc, ids[..i], pre, post);
      Collected(lc, ids[..i + 1], pre, post) == c[ids[i] := c[ids[i]].(preCollectTime := pre, postCollectTime := post)]
  {
    assert ids[..i + 1] == ids[..i] + [ids[i]];
  }

  /** The collect stamps change timestamps only: every record keeps its valid bit. */
  lemma CollectedKeepsValid(lc: seq<LifeCycle>, ids: seq<int>, pre: uint64, post: uint64)
    ensures forall j :: 0 <= j < |lc| ==> Collected(lc, ids, pre, post)[j].valid == lc[j].valid
    ensures forall j :: 0 <= j < |lc| && j in ids ==>
      Collected(lc, ids, pre, post)[j].preCollectTime == pre && Collected(lc, ids, pre, post)[j].postCollectTime == post
  {
  }

  /**
   * Whether the shutdown pass of the auxiliary stage, built with the
   * trace flag off, never returns: shutdown was requested, the collect
   * stage is not being told to stop on this pass, and the free list is
   * non-empty.
   */
  predicate ShutdownHangs(auxDone: bool, readDone: bool, validNum: int, n: nat, idle: nat)
  {
    auxDone && (readDone || validNum != n) && idle > 0
  }

  /**
   * The hang is reachable with two free slots: after one task is
   * received and dispatched, one slot is busy and one is free, so a
   * shutdown requested then never gets past its first pass.
   */
  lemma ShutdownHangsAfterDispatch(s: State, t: PCIeTask, l: LifeCycle, cycle: uint64)
    requires Inv(s) && s.pl.comeIn == [] && |s.pl.idle| >= 2
    requires WellFormed(t) && t.tableID as int == s.pl.idle[0] && l.valid
    ensures 0 <= s.pl.idle[0] < |s.lc| && s.pl.idle[0] < |s.table|
    ensures var s1 := RecvNext(s, t, l, cycle);
            s1.pl.comeIn != [] && 0 <= s1.pl.comeIn[0].tableID as int < |s1.table| &&
            var s2 := DispatchNext(s1);
            Inv(s2) && ShutdownHangs(true, false, s2.validNum, s2.n, |s2.pl.idle|)
  {
    InvRecv(s, t, l, cycle);
    var s1 := RecvNext(s, t, l, cycle);
    assert s1.pl.comeIn == [t];
    InvDispatch(s1);
  }

  class Chimera {
    const taskTableNum: nat
    /**
     * The slot bookkeeping: the task table (`m_taskTable`), the lifecycle
     * records (`m_lifeCycleTable`), the free list (`m_idleTaskTableID`),
     * the ingress, transmit and response queues, the completed list, the
     * valid-slot, task-UID and outstanding counters; with the ids
     * awaiting a response and the CDMA engine's share of the outstanding
     * counter, which the source keeps implicitly.
     */
    var slots: State

    const cdma: CDMA
    var parentName: string
    var parentRetry: bool

    const osdReqPkt: ReqPkt
    const osdDataPkt: DataPkt
    var osdRespPkt: RespPkt

    const cdmaEnable: bool
    var auxDone: bool
    var writeDone: bool
    var readDone: bool
    var completeListUpdated: bool
    var issuedDataPacket: nat
    var stats: Stats

    ghost function Repr(): set<object>
    {
      {this, cdma, osdReqPkt, osdReqPkt.tasks, osdDataPkt}
    }

    /** Sizes and the invariants of the packets and the CDMA engine. */
    ghost predicate Shape()
      reads Repr()
    {
      && taskTableNum <= 128 && slots.n == taskTableNum
      && cdma.Valid() && osdReqPkt.Valid() && osdDataPkt.Valid()
      && RespWellFormed(osdRespPkt) && osdRespPkt.size == RespPktSize(1)
      && osdReqPkt.size == ReqPktSize(1)
    }

    ghost predicate Valid()
      reads Repr()
    {
      Shape() && Inv(slots)
    }

    /** The bookkeeping the constructor builds satisfies the invariant. */
    static lemma InitialInv(n: nat)
      ensures Inv(State(n, Places(Range(n), [], [], multiset{}, []), seq(n, _ => ResetLifeCycle()),
                        n, [], NewTable(n), 0, 0, 0))
      requires n <= 128
    {
      var s := State(n, Places(Range(n), [], [], multiset{}, []), seq(n, _ => ResetLifeCycle()),
                     n, [], NewTable(n), 0, 0, 0);
      assert TaskIds(s.pl.comeIn) == [] && TaskIds(s.pl.transmit) == [];
      assert RespIds(s.pl.response) == multiset{};
      forall j | 0 <= j < n
        ensures !s.lc[j].valid && j in s.pl.idle
      {
        assert s.pl.idle[j] == j;
      }
    }

    /**
     * The constructor: N free slots in order, empty queues, reset
     * records and entries, and the request, data and CDMA packets
     * sized for a batch of one.
     */
    constructor (n: nat, enableCdma: bool)
      requires n <= 128
      ensures Valid()
      ensures taskTableNum == n && cdmaEnable == enableCdma
      ensures slots.pl == Places(Range(n), [], [], multiset{}, [])
      ensures slots.validNum == n && slots.complete == [] && slots.osd == 0 && slots.total == 0
      ensures !parentRetry && !auxDone && !writeDone && !readDone && !cdma.status
      ensures stats == Stats(0, 0, 0, 0, 0) && issuedDataPacket == 0
    {
      var freeList := FreeList(n);
      InitialInv(n);
      taskTableNum := n;
      slots := State(n, Places(freeList, [], [], multiset{}, []), seq(n, _ => ResetLifeCycle()),
                     n, [], NewTable(n), 0, 0, 0);
      parentRetry := false;
      parentName := "";
      osdRespPkt := NewRespPkt(1);
      cdmaEnable := enableCdma;
      auxDone, writeDone, readDone := false, false, false;
      completeListUpdated := false;
      issuedDataPacket := 0;
      stats := Stats(0, 0, 0, 0, 0);
      cdma := new CDMA(1);
      osdReqPkt := new ReqPkt(1);
      osdDataPkt := new DataPkt(1);
    }

    /** `isFullAndMark`: whether no slot is free; if so the parent is marked for a retry. */
    method IsFullAndMark() returns (full: bool)
      requires Valid()
      modifies this`parentRetry
      ensures Valid()
      ensures full <==> slots.pl.idle == []
      ensures parentRetry == (old(parentRetry) || full)
    {
      full := slots.pl.idle == [];
      if full {
        parentRetry := true;
      }
    }

    /** `setParent`: records the name of the owning component. */
    method SetParent(name: string)
      requires Valid()
      modifies this`parentName
      ensures Valid() && parentName == name
    {
      parentName := name;
    }

    /** The last statement of `parentRetryCallback`: the pending retry is cleared. */
    method ClearParentRetry()
      requires Valid()
      modifies this`parentRetry
      ensures Valid() && !parentRetry
    {
      parentRetry := false;
    }

    /**
     * `recvTask` once a slot is free: the first free id is assigned to the
     * task, the slot's enqueue cycle and lifecycle record are stamped and
     * the task joins the ingress queue.  A task without its valid flag
     * stops the run.  The slot's record was closed, as the source asserts.
     */
    method RecvTask(task: PCIeTask, cycle: uint64, now: uint64) returns (r: Outcome<int>)
      requires Valid() && WellFormed(task) && slots.pl.idle != []
      modifies this`slots
      ensures Valid()
      ensures r.Abort? <==> !IsValid(task)
      ensures r.Abort? ==> slots == old(slots)
      ensures r.Done? ==>
        var id := old(slots.pl.idle[0]);
        && r.value == id && 0 <= id < taskTableNum && !old(slots.lc[id].valid)
        && slots == RecvNext(old(slots), task.(tableID := id as int8),
                             old(slots.lc[id].(valid := true, recvTime := now, preHwTime := task.insertTime)), cycle)
    {
      if !IsValid(task) {
        return Abort;
      }
      var id := slots.pl.idle[0];
      IdleExclusive(taskTableNum, slots.pl, slots.lc, id);
      var t := task.(tableID := id as int8);
      var l := slots.lc[id].(valid := true, recvTime := now, preHwTime := task.insertTime);
      InvRecv(slots, t, l, cycle);
      slots := RecvNext(slots, t, l, cycle);
      r := Done(id);
    }

    /**
     * The dispatch branch of the auxiliary stage: the head of the ingress
     * queue takes its table entry with the next task UID and moves on to
     * the transmit queue.  The new UID is above every UID in use.
     */
    method DispatchStep()
      requires Valid() && slots.pl.comeIn != []
      modifies this`slots
      ensures Valid()
      ensures
        var id := old(slots.pl.comeIn[0].tableID) as int;
        && 0 <= id < taskTableNum
        && slots == DispatchNext(old(slots))
        && forall j :: 0 <= j < taskTableNum && j != id && slots.table[j].valid ==>
             slots.table[j].taskUID < slots.table[id].taskUID
    {
      InvDispatch(slots);
      slots := DispatchNext(slots);
    }

    /**
     * The packets after task `h` was submitted, and what was written to
     * the device: slot 0 of the request packet holds the task's control
     * fields, with the batch of one and the valid mark cleared again; a
     * data task's payload is in the data packet; a write task sends the
     * request packet's image, a data task that does not read sends the
     * data packet's buffer.
     */
    ghost predicate Loaded(h: PCIeTask, sent: DevWrite)
      requires WellFormed(h)
      reads osdReqPkt, osdReqPkt.tasks, osdDataPkt, osdDataPkt.data
    {
      && osdReqPkt.tasks.Length > 0 && osdReqPkt.tasks[0] == ToCtrlTask(h)
      && osdReqPkt.valid == 0 && osdReqPkt.batch == 1
      && (!IsWrite(h) ==>
            && osdDataPkt.startAddr == h.addr && osdDataPkt.totalSize == h.size
            && osdDataPkt.data.Length >= TASK_DATA_SIZE && osdDataPkt.data[..TASK_DATA_SIZE] == h.content)
      && sent == if IsWrite(h) then ReqWrite(ReqImage(1, 1, [ToCtrlTask(h)], 1))
                 else if Awaits(h) then NoWrite
                 else DataWrite(h.addr, h.size, osdDataPkt.data[..])
    }

    /**
     * The packet side of a submit: the task is put in slot 0 of the
     * request packet (a data task first in the data packet), the packet
     * is marked valid with a batch of one while the bytes to write to the
     * device are taken (the request packet's image for a write task, the
     * data packet's buffer for a data task that does not also read), and
     * is marked invalid again once the write is done.
     */
    method LoadRequest(h: PCIeTask) returns (sent: DevWrite)
      requires Valid() && WellFormed(h) && !Unsubmittable(h)
      modifies osdReqPkt, osdReqPkt.tasks, osdDataPkt, osdDataPkt.data
      ensures Valid()
      ensures osdReqPkt.tasks[..] == old(osdReqPkt.tasks[..])[0 := ToCtrlTask(h)]
      ensures IsWrite(h) ==> unchanged(osdDataPkt, osdDataPkt.data)
      ensures Loaded(h, sent)
    {
      if !IsWrite(h) {
        var filled := osdDataPkt.FillTask(0, h);
      }
      osdReqPkt.FillTask(0, h);
      osdReqPkt.valid := 1;
      osdReqPkt.batch := 1;
      sent := NoWrite;
      if IsWrite(h) {
        var first := osdReqPkt.tasks[..1];
        assert first == [ToCtrlTask(h)];
        sent := ReqWrite(ReqImage(osdReqPkt.valid, osdReqPkt.batch, first, 1));
      } else if !Awaits(h) {
        sent := DataWrite(osdDataPkt.startAddr, osdDataPkt.totalSize, osdDataPkt.data[..]);
      }
      osdReqPkt.valid := 0;
    }

    /**
     * A submit whose head task waits for a response: the task goes to the
     * device and its slot joins the ids awaiting a response, with the
     * lifecycle record stamped by the write path.
     */
    method TransmitAwaiting(now1: uint64, now2: uint64) returns (sent: DevWrite)
      requires Valid() && slots.pl.transmit != []
      requires !Unsubmittable(slots.pl.transmit[0]) && Awaits(slots.pl.transmit[0])
      modifies this`slots, osdReqPkt, osdReqPkt.tasks, osdDataPkt, osdDataPkt.data
      ensures Valid()
      ensures
        var h := old(slots.pl.transmit[0]);
        var id := h.tableID as int;
        && 0 <= id < taskTableNum && old(slots.lc[id].valid) && WellFormed(h) && Loaded(h, sent)
        && slots == AwaitNext(old(slots), Transmitted(old(slots.lc[id]), h, now1, now2))
    {
      var h := slots.pl.transmit[0];
      TransmitHead(taskTableNum, slots.pl, slots.lc);
      var l := Transmitted(slots.lc[h.tableID as int], h, now1, now2);
      InvAwait(slots, l);
      slots := AwaitNext(slots, l);
      sent := LoadRequest(h);
    }

    /**
     * A submit whose head task waits for nothing: the task goes to the
     * device, its lifecycle is accounted and closed, the slot goes back
     * to the free list, the parent's retry callback is due if one was
     * requested (`retry`), the entry is released and a data packet is
     * counted as issued.
     */
    method TransmitReleasing(now1: uint64, now2: uint64) returns (retry: bool, sent: DevWrite)
      requires Valid() && slots.pl.transmit != []
      requires !Unsubmittable(slots.pl.transmit[0]) && !Awaits(slots.pl.transmit[0])
      modifies this`slots, this`stats, this`issuedDataPacket, osdReqPkt, osdReqPkt.tasks, osdDataPkt, osdDataPkt.data
      ensures Valid()
      ensures
        var h := old(slots.pl.transmit[0]);
        var id := h.tableID as int;
        && 0 <= id < taskTableNum && old(slots.lc[id].valid) && WellFormed(h) && Loaded(h, sent)
        && var l := Transmitted(old(slots.lc[id]), h, now1, now2);
        && slots == ReleaseNext(old(slots), l) && stats == Account(old(stats), l)
        && issuedDataPacket == old(issuedDataPacket) + (if IsWrite(h) then 0 else 1)
        && retry == parentRetry
    {
      var h := slots.pl.transmit[0];
      TransmitHead(taskTableNum, slots.pl, slots.lc);
      var l := Transmitted(slots.lc[h.tableID as int], h, now1, now2);
      InvRelease(slots, l);
      stats := Account(stats, l);
      slots := ReleaseNext(slots, l);
      retry := parentRetry;
      issuedDataPacket := issuedDataPacket + if IsWrite(h) then 0 else 1;
      sent := LoadRequest(h);
    }

    /**
     * One iteration of the submit stage.  With the transmit queue empty
     * and the stage told to stop, it exits.  Otherwise the head task is
     * loaded into the request packet and leaves the queue.  A write
     * task's request packet is written to the device between the two
     * submit-time readings `now1` and `now2`; a data task's data packet
     * is written unless the task also reads.  The slot then awaits a
     * response or is released.  A task of neither kind, and a due retry
     * for a parent other than the encoder, stop the run (`aborted`,
     * nothing changed).
     */
    method SubmitStep(now1: uint64, now2: uint64) returns (exit: bool, aborted: bool, retry: bool, sent: DevWrite)
      requires Valid() && (slots.pl.transmit != [] || writeDone)
      modifies this`slots, this`stats, this`issuedDataPacket,
               osdReqPkt, osdReqPkt.tasks, osdDataPkt, osdDataPkt.data
      ensures Valid()
      ensures exit <==> old(slots.pl.transmit) == []
      ensures !exit ==> var h := old(slots.pl.transmit[0]);
        aborted <==> Unsubmittable(h) || (!Awaits(h) && old(parentRetry) && old(parentName) != PARENT_MPEG2)
      ensures exit || aborted ==>
        && slots == old(slots) && stats == old(stats) && issuedDataPacket == old(issuedDataPacket)
        && !retry && sent == NoWrite
      ensures !exit && !aborted ==>
        var h := old(slots.pl.transmit[0]);
        var id := h.tableID as int;
        && 0 <= id < taskTableNum && old(slots.lc[id].valid)
        && WellFormed(h) && Loaded(h, sent)
        && var l := Transmitted(old(slots.lc[id]), h, now1, now2);
        && (Awaits(h) ==>
              && slots == AwaitNext(old(slots), l) && stats == old(stats)
              && issuedDataPacket == old(issuedDataPacket) && !retry)
        && (!Awaits(h) ==>
              && slots == ReleaseNext(old(slots), l) && stats == Account(old(stats), l)
              && issuedDataPacket == old(issuedDataPacket) + (if IsWrite(h) then 0 else 1)
              && retry == old(parentRetry))
    {
      exit, aborted, retry, sent := false, false, false, NoWrite;
      if slots.pl.transmit == [] {
        exit := true;
        return;
      }
      var h := slots.pl.transmit[0];
      if Unsubmittable(h) || (!Awaits(h) && parentRetry && parentName != PARENT_MPEG2) {
        aborted := true;
        return;
      }
      if Awaits(h) {
        sent := TransmitAwaiting(now1, now2);
      } else {
        retry, sent := TransmitReleasing(now1, now2);
      }
    }

    /**
     * One poll of the collect stage without the CDMA engine.  Once the
     * stage was told to stop it exits, and the run stops unless nothing
     * is outstanding (`aborted`).  Otherwise the image of the response
     * packet read from the device, between the readings `pre` and
     * `post`, replaces the outstanding response packet; the outstanding
     * counter drops by its batch, valid or not; a valid packet has the
     * collect times of its slots stamped and joins the response queue;
     * the packet is then marked invalid.  The batch of an invalid packet
     * is owed to no awaited slot, so it comes out of `credit`, and a
     * non-zero one makes the exit abort once every slot is back.
     */
    method CollectStep(image: seq<byte>, pre: uint64, post: uint64) returns (exit: bool, aborted: bool)
      requires Valid() && !cdmaEnable && (slots.osd > 0 || readDone)
      requires |image| == osdRespPkt.size
      requires HonestResponse(DecodeRespImage(image, 1, osdRespPkt), slots.pl.awaiting)
      modifies this`slots, this`osdRespPkt
      ensures Valid()
      ensures exit <==> old(readDone)
      ensures exit ==> (aborted <==> old(slots.osd) != 0) && slots == old(slots) && osdRespPkt == old(osdRespPkt)
      ensures exit && old(slots.validNum) == taskTableNum ==> (aborted <==> old(slots.credit) != 0)
      ensures !exit ==>
        var p := DecodeRespImage(image, 1, old(osdRespPkt));
        && !aborted && osdRespPkt == p.(valid := 0)
        && (p.valid == 1 ==> slots == CollectNext(old(slots), p, Collected(old(slots.lc), PktIds(p), pre, post)))
        && (p.valid != 1 ==> slots == old(slots).(osd := old(slots.osd) - p.batch as int, credit := old(slots.credit) - p.batch as int))
    {
      if readDone {
        exit := true;
        aborted := slots.osd != 0;
        if slots.validNum == taskTableNum {
          InvAllFree(slots);
        }
        return;
      }
      exit, aborted := false, false;
      var p := DecodeRespImage(image, 1, osdRespPkt);
      if p.valid == 1 {
        CollectKeepsInv(slots, p, pre, post);
        slots := CollectNext(slots, p, Collected(slots.lc, PktIds(p), pre, post));
      } else {
        InvCredit(slots, -(p.batch as int));
        slots := slots.(osd := slots.osd - p.batch as int, credit := slots.credit - p.batch as int);
      }
      osdRespPkt := p.(valid := 0);
    }

    /**
     * One poll of the collect stage with the CDMA engine.  Once the stage
     * was told to stop it exits.  While the engine is enabled this is one
     * iteration of its endless polling loop on the device's answer
     * `pkt`; the `disableCDMA` after it is never reached.  While it is
     * disabled the poll returns at once and `disableCDMA` finds the engine
     * disabled, which stops the run (`aborted`).
     */
    method CdmaCollectStep(pkt: RespPkt) returns (exit: bool, aborted: bool, pollAddr: uint64, overrun: bool)
      requires Valid() && cdmaEnable && (slots.osd > 0 || readDone)
      requires RespWellFormed(pkt) && pkt.batch as int <= MAX_BATCH_THRESHOLD
      modifies cdma`wptr, cdma.buffer
      ensures Valid()
      ensures exit <==> old(readDone)
      ensures aborted <==> !exit && !old(cdma.status)
      ensures exit || aborted ==> cdma.wptr == old(cdma.wptr) && cdma.buffer[..] == old(cdma.buffer[..])
      ensures !exit && !aborted ==>
        && pollAddr == (cdma.addr + old(cdma.wptr)) % TWO64
        && (overrun <==> pkt.valid % 2 == 1 && old(cdma.wptr) + RESULT_DATA_SIZE * pkt.batch as int > BUFFER_SIZE)
        && (pkt.valid % 2 != 1 || overrun ==> cdma.wptr == old(cdma.wptr) && cdma.buffer[..] == old(cdma.buffer[..]))
        && (pkt.valid % 2 == 1 && !overrun ==>
              && cdma.wptr == old(cdma.wptr) + RESULT_DATA_SIZE * pkt.batch as int
              && cdma.buffer[..] == old(cdma.buffer[..])[..old(cdma.wptr)] + Payload(pkt.results[..pkt.batch])
                                       + old(cdma.buffer[..])[cdma.wptr..])
    {
      exit, aborted, pollAddr, overrun := false, false, 0, false;
      if readDone {
        exit := true;
        return;
      }
      if !cdma.status {
        aborted := true;
        return;
      }
      var polled;
      polled, pollAddr, overrun := cdma.ExecuteStep(pkt);
    }

    /**
     * The response branch of the auxiliary stage, for the head packet of
     * the response queue.  Result by result, in batch order: the slot's
     * record gets the response time `now` and the result's execution
     * time, is accounted and closed, the slot goes back to the free
     * list, the parent's retry callback is due if one was requested
     * (`retry`), and the result is stored in the slot's entry, which is
     * marked complete.  The slots then join the completed list in batch
     * order, and the list is marked updated.  A due retry for a parent
     * other than the encoder stops the run (`aborted`, nothing changed).
     */
    method ResponseStep(now: uint64) returns (aborted: bool, retry: bool)
      requires Valid() && slots.pl.response != []
      modifies this`slots, this`stats, this`completeListUpdated
      ensures Valid()
      ensures PktOk(old(slots.pl.response[0]))
      ensures aborted <==> old(parentRetry) && old(parentName) != PARENT_MPEG2
      ensures aborted ==> slots == old(slots) && stats == old(stats) && !retry
      ensures !aborted ==>
        && (slots, stats) == Responded(old(slots), now, old(stats))
        && completeListUpdated && retry == old(parentRetry)
    {
      if parentRetry && parentName != PARENT_MPEG2 {
        assert PktOk(slots.pl.response[0]);
        return true, false;
      }
      aborted, retry := false, parentRetry;
      slots, stats := Respond(slots, now, stats);
      completeListUpdated := true;
    }

    /**
     * `fetchResp(id)`: when slot `id` is on the completed list, its result
     * and enqueue cycle are returned, the entry is released back to the
     * valid-slot counter and its first occurrence leaves the list.
     * Otherwise nothing is found and the caller waits for the list to be
     * updated.  Every element scanned clears the list's updated flag.
     */
    method FetchResp(id: int) returns (found: bool, result: Result, enqueueTime: uint64)
      requires Valid()
      modifies this`slots, this`completeListUpdated
      ensures Valid()
      ensures found <==> id in old(slots.complete)
      ensures completeListUpdated == (old(completeListUpdated) && old(slots.complete) == [])
      ensures found ==>
        && 0 <= id < taskTableNum
        && slots == FetchNext(old(slots), FirstIndex(old(slots.complete), id))
        && result == old(slots.table[id].result) && enqueueTime == old(slots.table[id].enqueueTime)
      ensures !found ==> slots == old(slots)
    {
      var k;
      k, completeListUpdated := ScanComplete(slots.complete, id, completeListUpdated);
      found := k >= 0;
      result, enqueueTime := ZeroResult(), 0;
      if found {
        InvFetch(slots, k);
        result, enqueueTime := slots.table[id].result, slots.table[id].enqueueTime;
        slots := FetchNext(slots, k);
      }
    }

    /**
     * `enableCDMA(addr, size)`: the engine is armed on the window and the
     * outstanding counter gains one, the engine's share, so the collect
     * stage starts polling.  Arming an armed engine stops the run.
     */
    method EnableCdma(addr: uint64, size: uint64) returns (aborted: bool)
      requires Valid()
      modifies this`slots, cdma
      ensures Valid()
      ensures aborted <==> old(cdma.status)
      ensures aborted ==> slots == old(slots) && unchanged(cdma)
      ensures !aborted ==>
        && cdma.status && cdma.addr == addr && cdma.size == size && cdma.wptr == 0 && cdma.rptr == 0
        && slots == old(slots).(osd := old(slots.osd) + 1, credit := old(slots.credit) + 1)
    {
      if cdma.status {
        return true;
      }
      aborted := false;
      cdma.Enable(addr, size);
      InvCredit(slots, 1);
      slots := slots.(osd := slots.osd + 1, credit := slots.credit + 1);
    }

    /**
     * `disableCDMA`: the engine's window and pointers are cleared and the
     * outstanding counter loses the batch of the last response packet
     * read.  Disabling a disabled engine stops the run.
     */
    method DisableCdma() returns (aborted: bool)
      requires Valid()
      modifies this`slots, cdma
      ensures Valid()
      ensures aborted <==> !old(cdma.status)
      ensures aborted ==> slots == old(slots) && unchanged(cdma)
      ensures !aborted ==>
        && !cdma.status && cdma.addr == 0 && cdma.size == 0 && cdma.wptr == 0 && cdma.rptr == 0
        && var b := osdRespPkt.batch as int;
           slots == old(slots).(osd := old(slots.osd) - b, credit := old(slots.credit) - b)
    {
      if !cdma.status {
        return true;
      }
      aborted := false;
      cdma.Disable();
      var b := osdRespPkt.batch as int;
      InvCredit(slots, -b);
      slots := slots.(osd := slots.osd - b, credit := slots.credit - b);
    }

    /** `CDMAStatus`: whether the CDMA engine is armed. */
    function CdmaStatus(): bool
      reads this, cdma
    {
      cdma.GetStatus()
    }

    /**
     * `CDMARemain`: the bytes buffered by the CDMA engine and not yet
     * fetched; never negative, as the source asserts, and never more than
     * the buffer holds.
     */
    function CdmaRemain(): (r: int)
      requires Valid()
      reads Repr()
      ensures r == cdma.wptr - cdma.rptr && 0 <= r <= BUFFER_SIZE
    {
      cdma.GetRemain()
    }

    /** `CDMAFetchData`: `n` bytes of the engine's stream, or `n` zeros when fewer are buffered. */
    method CdmaFetchData(n: uint64) returns (buf: seq<byte>)
      requires Valid()
      modifies cdma`rptr
      ensures Valid() && |buf| == n
      ensures n <= old(CdmaRemain()) ==>
                buf == cdma.buffer[old(cdma.rptr)..old(cdma.rptr) + n] && cdma.rptr == old(cdma.rptr) + n
      ensures n > old(CdmaRemain()) ==> buf == Zeros(n) && cdma.rptr == old(cdma.rptr)
    {
      buf := cdma.FetchData(n);
    }

    /** `simExit`: the auxiliary stage is told to shut down. */
    method SimExit()
      requires Valid()
      modifies this`auxDone
      ensures Valid() && auxDone
    {
      auxDone := true;
    }

    /**
     * The shutdown part of one auxiliary-stage iteration, as built with
     * the Chimera trace flag off.  Once told to shut down, it stops the
     * submit stage when the ingress queue is empty and the collect stage
     * when every entry is back; then every slot has been transmitted,
     * answered, handed back and fetched.  When it does not stop the
     * collect stage, it loops while the free list is non-empty; the
     * loop's only dequeue is an argument of a trace macro that is not
     * evaluated, so the stage never leaves it (`stalled`, see
     * `ShutdownHangs`).  `finished` tells whether all three stages are
     * told to stop, which ends the auxiliary stage.
     */
    method AuxShutdownStep() returns (finished: bool, stalled: bool)
      requires Valid()
      modifies this`writeDone, this`readDone
      ensures Valid()
      ensures stalled <==> ShutdownHangs(old(auxDone), old(readDone), slots.validNum, taskTableNum, |slots.pl.idle|)
      ensures !old(auxDone) ==> writeDone == old(writeDone) && readDone == old(readDone)
      ensures old(auxDone) ==>
        && writeDone == (old(writeDone) || slots.pl.comeIn == [])
        && readDone == (old(readDone) || slots.validNum == taskTableNum)
      ensures readDone && !old(readDone) ==>
        && slots.pl.transmit == [] && slots.pl.awaiting == multiset{} && slots.pl.response == []
        && slots.complete == [] && slots.osd == slots.credit
      ensures finished <==> !stalled && auxDone && writeDone && readDone
    {
      stalled := false;
      if auxDone {
        if !writeDone && slots.pl.comeIn == [] {
          writeDone := true;
        }
        if !readDone && slots.validNum == taskTableNum {
          InvAllFree(slots);
          readDone := true;
        } else {
          stalled := slots.pl.idle != [];
        }
      }
      finished := !stalled && readDone && writeDone && auxDone;
    }

    /**
     * The shutdown pass with the remaining free ids only traced, not
     * looped over: the auxiliary stage goes on polling, and it finishes
     * on the first pass that finds the ingress queue empty and every
     * entry back.
     */
    method IntendedAuxShutdownStep() returns (finished: bool)
      requires Valid()
      modifies this`writeDone, this`readDone
      ensures Valid()
      ensures !old(auxDone) ==> writeDone == old(writeDone) && readDone == old(readDone)
      ensures old(auxDone) ==>
        && writeDone == (old(writeDone) || slots.pl.comeIn == [])
        && readDone == (old(readDone) || slots.validNum == taskTableNum)
      ensures readDone && !old(readDone) ==>
        && slots.pl.transmit == [] && slots.pl.awaiting == multiset{} && slots.pl.response == []
        && slots.complete == [] && slots.osd == slots.credit
      ensures finished <==> auxDone && writeDone && readDone
      ensures old(auxDone) && slots.pl.comeIn == [] && slots.validNum == taskTableNum ==> finished
    {
      if auxDone {
        if !writeDone && slots.pl.comeIn == [] {
          writeDone := true;
        }
        if !readDone && slots.validNum == taskTableNum {
          InvAllFree(slots);
          readDone := true;
        }
      }
      finished := readDone && writeDone && auxDone;
    }
  }
}
