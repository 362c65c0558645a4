/**
 * Slot bookkeeping of the bridge, on values: where each of the N slot
 * ids of the task table currently is, and how every pipeline step moves
 * ids between the free list, the ingress queue, the transmit queue, the
 * set awaiting a response and the response queue.
 */
module Slots {
  import opened Wire

  /** The ids 0..n-1 in order. */
  function Range(n: nat): (s: seq<int>)
    ensures |s| == n && forall i :: 0 <= i < n ==> s[i] == i
  {
    seq(n, i => i)
  }

  /** Every slot id of an n-slot table, once. */
  function AllSlots(n: nat): multiset<int>
  {
    multiset(Range(n))
  }

  lemma {:induction false} AllSlotsCount(n: nat, x: int)
    ensures AllSlots(n)[x] == if 0 <= x < n then 1 else 0
  {
    if n > 0 {
      assert Range(n) == Range(n - 1) + [n - 1];
      AllSlotsCount(n - 1, x);
    }
  }

  lemma AllSlotsSize(n: nat)
    ensures |AllSlots(n)| == n
  {
  }

  /** Slot ids of queued tasks, in queue order. */
  function TaskIds(ts: seq<PCIeTask>): (ids: seq<int>)
    ensures |ids| == |ts| && forall i :: 0 <= i < |ts| ==> ids[i] == ts[i].tableID as int
  {
    seq(|ts|, i requires 0 <= i < |ts| => ts[i].tableID as int)
  }

  /** A response packet as the device may hand it over: 1 to 3 results. */
  predicate PktOk(p: RespPkt)
  {
    RespWellFormed(p) && 1 <= p.batch as int <= MAX_BATCH_THRESHOLD
  }

  /** Slot ids of the results a packet carries. */
  function PktIds(p: RespPkt): (ids: seq<int>)
    requires RespWellFormed(p) && p.batch as int <= MAX_BATCH_THRESHOLD
    ensures |ids| == p.batch as int
    ensures forall i :: 0 <= i < |ids| ==> ids[i] == p.results[i].tableID as int
  {
    seq(p.batch as int, i requires 0 <= i < p.batch as int => p.results[i].tableID as int)
  }

  /** Slot ids carried by all packets of the response queue. */
  function RespIds(ps: seq<RespPkt>): multiset<int>
    requires forall k :: 0 <= k < |ps| ==> PktOk(ps[k])
  {
    if ps == [] then multiset{} else assert PktOk(ps[0]); multiset(PktIds(ps[0])) + RespIds(ps[1..])
  }

  lemma {:induction false} RespIdsAppend(ps: seq<RespPkt>, p: RespPkt)
    requires forall k :: 0 <= k < |ps| ==> PktOk(ps[k])
    requires PktOk(p)
    ensures forall k :: 0 <= k < |ps + [p]| ==> PktOk((ps + [p])[k])
    ensures RespIds(ps + [p]) == RespIds(ps) + multiset(PktIds(p))
  {
    if ps != [] {
      assert (ps + [p])[1..] == ps[1..] + [p];
      RespIdsAppend(ps[1..], p);
    }
  }

  /** Every queued packet carries at least one id. */
  lemma {:induction false} RespIdsAtLeastOnePerPacket(ps: seq<RespPkt>)
    requires forall k :: 0 <= k < |ps| ==> PktOk(ps[k])
    ensures |RespIds(ps)| >= |ps|
  {
    if ps != [] {
      RespIdsAtLeastOnePerPacket(ps[1..]);
    }
  }

  /** `s` with the element at `k` taken out. */
  function RemoveAt<T>(s: seq<T>, k: nat): (r: seq<T>)
    requires k < |s|
    ensures |r| == |s| - 1
    ensures forall i :: 0 <= i < k ==> r[i] == s[i]
    ensures forall i :: k <= i < |r| ==> r[i] == s[i + 1]
  {
    s[..k] + s[k + 1..]
  }

  /** Position of the first occurrence of `x` in `s`, if any. */
  function FirstIndex(s: seq<int>, x: int): (k: int)
    ensures -1 <= k < |s|
    ensures k == -1 <==> x !in s
    ensures k >= 0 ==> s[k] == x && x !in s[..k]
  {
    if s == [] then -1
    else if s[0] == x then 0
    else
      var k := FirstIndex(s[1..], x);
      if k == -1 then -1 else assert s[..k + 1] == [s[0]] + s[1..][..k]; k + 1
  }


  /** No id occurs twice. */
  predicate Distinct(s: seq<int>)
  {
    forall i, j :: 0 <= i < j < |s| ==> s[i] != s[j]
  }

  /**
   * The places a slot id can be: the free list, the ingress queue, the
   * transmit queue, the ids awaiting a response, and the response queue.
   */
  datatype Places = Places(
    idle: seq<int>,
    comeIn: seq<PCIeTask>,
    transmit: seq<PCIeTask>,
    awaiting: multiset<int>,
    response: seq<RespPkt>)

  predicate PlacesOk(pl: Places)
  {
    forall k :: 0 <= k < |pl.response| ==> PktOk(pl.response[k])
  }

  /** All ids held by the places together. */
  function Held(pl: Places): multiset<int>
    requires PlacesOk(pl)
  {
    multiset(pl.idle) + multiset(TaskIds(pl.comeIn)) + multiset(TaskIds(pl.transmit))
      + pl.awaiting + RespIds(pl.response)
  }

  /**
   * Every slot id of an n-slot table is held exactly once, and a slot's
   * lifecycle record is valid exactly when the slot is off the free list.
   */
  predicate Ownership(n: nat, pl: Places, lc: seq<LifeCycle>)
  {
    && PlacesOk(pl)
    && Held(pl) == AllSlots(n)
    && |lc| == n
    && (forall i :: 0 <= i < n ==> (lc[i].valid <==> i !in pl.idle))
  }

  /** A held id is a slot id and is held by one place only. */
  lemma HeldOnce(n: nat, pl: Places, lc: seq<LifeCycle>, x: int)
    requires Ownership(n, pl, lc) && x in Held(pl)
    ensures 0 <= x < n && Held(pl)[x] == 1
  {
    AllSlotsCount(n, x);
  }

  /** The places together hold exactly n ids. */
  lemma HeldSize(n: nat, pl: Places, lc: seq<LifeCycle>)
    requires Ownership(n, pl, lc)
    ensures |pl.idle| + |pl.comeIn| + |pl.transmit| + |pl.awaiting| + |RespIds(pl.response)| == n
  {
    AllSlotsSize(n);
  }

  /** No id of the free list is held anywhere else, and its record is invalid. */
  lemma IdleExclusive(n: nat, pl: Places, lc: seq<LifeCycle>, x: int)
    requires Ownership(n, pl, lc) && x in pl.idle
    ensures 0 <= x < n && !lc[x].valid && multiset(pl.idle)[x] == 1
    ensures x !in TaskIds(pl.comeIn) && x !in TaskIds(pl.transmit)
    ensures x !in pl.awaiting && x !in RespIds(pl.response)
  {
    HeldOnce(n, pl, lc, x);
  }

  /** The first free id is a free slot only, and moving it to the ingress queue keeps the ids held. */
  lemma RecvHeld(n: nat, pl: Places, lc: seq<LifeCycle>, task: PCIeTask)
    requires Ownership(n, pl, lc) && pl.idle != [] && task.tableID as int == pl.idle[0]
    ensures 0 <= pl.idle[0] < n && !lc[pl.idle[0]].valid && |pl.comeIn| < n && pl.idle[0] !in pl.idle[1..]
    ensures PlacesOk(pl.(idle := pl.idle[1..], comeIn := pl.comeIn + [task]))
    ensures Held(pl.(idle := pl.idle[1..], comeIn := pl.comeIn + [task])) == Held(pl)
  {
    var id := pl.idle[0];
    assert 0 <= id < n && !lc[id].valid && |pl.comeIn| < n && id !in pl.idle[1..] by {
      IdleExclusive(n, pl, lc, id);
      HeldSize(n, pl, lc);
      assert multiset(pl.idle) == multiset{id} + multiset(pl.idle[1..]) by {
        assert pl.idle == [id] + pl.idle[1..];
      }
    }
    assert multiset(pl.idle) == multiset{id} + multiset(pl.idle[1..]) by {
      assert pl.idle == [id] + pl.idle[1..];
    }
    assert TaskIds(pl.comeIn + [task]) == TaskIds(pl.comeIn) + [id];
  }

  /** `recvTask`: the first free id goes, with the task, to the ingress queue. */
  lemma RecvMoves(n: nat, pl: Places, lc: seq<LifeCycle>, task: PCIeTask, l: LifeCycle)
    requires Ownership(n, pl, lc) && pl.idle != []
    requires task.tableID as int == pl.idle[0] && l.valid
    ensures 0 <= pl.idle[0] < n && !lc[pl.idle[0]].valid && |pl.comeIn| < n
    ensures Ownership(n, pl.(idle := pl.idle[1..], comeIn := pl.comeIn + [task]), lc[pl.idle[0] := l])
  {
    var id := pl.idle[0];
    RecvHeld(n, pl, lc, task);
    var pl' := pl.(idle := pl.idle[1..], comeIn := pl.comeIn + [task]);
    var lc' := lc[id := l];
    forall i | 0 <= i < n
      ensures lc'[i].valid <==> i !in pl'.idle
    {
      if i != id {
        assert (i in pl'.idle) == (i in pl.idle) by {
          assert pl.idle == [id] + pl.idle[1..];
        }
      }
    }
  }

  /** The dispatch step moves the head of the ingress queue to the transmit queue. */
  lemma DispatchMoves(n: nat, pl: Places, lc: seq<LifeCycle>)
    requires Ownership(n, pl, lc) && pl.comeIn != []
    ensures 0 <= pl.comeIn[0].tableID as int < n && |pl.transmit| < n
    ensures Ownership(n, pl.(comeIn := pl.comeIn[1..], transmit := pl.transmit + [pl.comeIn[0]]), lc)
  {
    var t := pl.comeIn[0];
    HeldSize(n, pl, lc);
    assert TaskIds(pl.comeIn) == [t.tableID as int] + TaskIds(pl.comeIn[1..]);
    assert TaskIds(pl.transmit + [t]) == TaskIds(pl.transmit) + [t.tableID as int];
    HeldOnce(n, pl, lc, t.tableID as int);
    var pl' := pl.(comeIn := pl.comeIn[1..], transmit := pl.transmit + [t]);
    assert Held(pl') == Held(pl);
  }

  /** The head of the transmit queue is a slot in use. */
  lemma TransmitHead(n: nat, pl: Places, lc: seq<LifeCycle>)
    requires Ownership(n, pl, lc) && pl.transmit != []
    ensures 0 <= pl.transmit[0].tableID as int < n && lc[pl.transmit[0].tableID as int].valid
  {
    var id := pl.transmit[0].tableID as int;
    assert TaskIds(pl.transmit)[0] == id;
    HeldOnce(n, pl, lc, id);
  }

  /** The id of a transmitted task is off the free list, and moving it there keeps the ids held. */
  lemma ReleaseHeld(n: nat, pl: Places, lc: seq<LifeCycle>)
    requires Ownership(n, pl, lc) && pl.transmit != []
    ensures var id := pl.transmit[0].tableID as int;
      && 0 <= id < n && lc[id].valid && |pl.idle| < n && id !in pl.idle
      && PlacesOk(pl.(idle := pl.idle + [id], transmit := pl.transmit[1..]))
      && Held(pl.(idle := pl.idle + [id], transmit := pl.transmit[1..])) == Held(pl)
  {
    var id := pl.transmit[0].tableID as int;
    var ts := multiset(TaskIds(pl.transmit[1..]));
    assert multiset(TaskIds(pl.transmit)) == multiset{id} + ts by {
      assert TaskIds(pl.transmit) == [id] + TaskIds(pl.transmit[1..]);
    }
    assert 0 <= id < n && lc[id].valid && |pl.idle| < n && id !in pl.idle by {
      HeldSize(n, pl, lc);
      HeldOnce(n, pl, lc, id);
      assert multiset(pl.idle)[id] == 0;
    }
    var pl' := pl.(idle := pl.idle + [id], transmit := pl.transmit[1..]);
    assert multiset(pl'.idle) == multiset(pl.idle) + multiset{id};
  }

  /** A transmitted task that needs no response gives its id back to the free list. */
  lemma ReleaseMoves(n: nat, pl: Places, lc: seq<LifeCycle>, l: LifeCycle)
    requires Ownership(n, pl, lc) && pl.transmit != [] && !l.valid
    ensures var id := pl.transmit[0].tableID as int;
      && 0 <= id < n && lc[id].valid && |pl.idle| < n
      && Ownership(n, pl.(idle := pl.idle + [id], transmit := pl.transmit[1..]), lc[id := l])
  {
    var id := pl.transmit[0].tableID as int;
    ReleaseHeld(n, pl, lc);
    var pl' := pl.(idle := pl.idle + [id], transmit := pl.transmit[1..]);
    var lc' := lc[id := l];
    forall i | 0 <= i < n
      ensures lc'[i].valid <==> i !in pl'.idle
    {
      if i != id {
        assert (i in pl'.idle) == (i in pl.idle);
      }
    }
  }

  /** A transmitted task that needs a response moves its id to the awaiting set. */
  lemma AwaitMoves(n: nat, pl: Places, lc: seq<LifeCycle>, l: LifeCycle)
    requires Ownership(n, pl, lc) && pl.transmit != [] && l.valid
    ensures var id := pl.transmit[0].tableID as int;
      && 0 <= id < n && lc[id].valid
      && Ownership(n, pl.(transmit := pl.transmit[1..], awaiting := pl.awaiting + multiset{id}), lc[id := l])
  {
    var id := pl.transmit[0].tableID as int;
    assert TaskIds(pl.transmit) == [id] + TaskIds(pl.transmit[1..]);
    HeldOnce(n, pl, lc, id);
    var pl' := pl.(transmit := pl.transmit[1..], awaiting := pl.awaiting + multiset{id});
    assert Held(pl') == Held(pl);
  }

  /** An id that occurs at two positions is counted twice. */
  lemma CountTwice(s: seq<int>, i: nat, j: nat)
    requires i < j < |s| && s[i] == s[j]
    ensures multiset(s)[s[i]] >= 2
  {
    assert s == s[..i] + [s[i]] + s[i + 1..j] + [s[j]] + s[j + 1..];
  }

  /** Ids drawn from the slot ids, none more often than it is there, are distinct slot ids. */
  lemma {:induction false} DistinctWithinSlots(s: seq<int>, n: nat)
    requires multiset(s) <= AllSlots(n)
    ensures Distinct(s)
    ensures forall i :: 0 <= i < |s| ==> 0 <= s[i] < n
  {
    forall i | 0 <= i < |s|
      ensures 0 <= s[i] < n
    {
      assert s[i] in multiset(s);
      AllSlotsCount(n, s[i]);
    }
    forall i, j | 0 <= i < j < |s|
      ensures s[i] != s[j]
    {
      if s[i] == s[j] {
        CountTwice(s, i, j);
        AllSlotsCount(n, s[i]);
      }
    }
  }

  /** A collected packet carries awaited ids: each a valid slot, none twice. */
  lemma CollectFacts(n: nat, pl: Places, lc: seq<LifeCycle>, p: RespPkt)
    requires Ownership(n, pl, lc) && PktOk(p) && multiset(PktIds(p)) <= pl.awaiting
    ensures |pl.response| < n && Distinct(PktIds(p))
    ensures forall i :: 0 <= i < |PktIds(p)| ==> 0 <= PktIds(p)[i] < n && lc[PktIds(p)[i]].valid
  {
    var ids := PktIds(p);
    assert |pl.response| < n by {
      HeldSize(n, pl, lc);
      RespIdsAtLeastOnePerPacket(pl.response);
      assert |multiset(ids)| <= |pl.awaiting| by {
        assert pl.awaiting == (pl.awaiting - multiset(ids)) + multiset(ids);
      }
    }
    DistinctWithinSlots(ids, n);
    forall i | 0 <= i < |ids|
      ensures lc[ids[i]].valid
    {
      assert ids[i] in pl.awaiting;
      HeldOnce(n, pl, lc, ids[i]);
    }
  }

  /** Collecting a packet moves its ids from the awaiting set to the response queue. */
  lemma CollectMoves(n: nat, pl: Places, lc: seq<LifeCycle>, p: RespPkt, lc2: seq<LifeCycle>)
    requires Ownership(n, pl, lc) && PktOk(p) && multiset(PktIds(p)) <= pl.awaiting
    requires |lc2| == n && forall i :: 0 <= i < n ==> lc2[i].valid == lc[i].valid
    ensures Ownership(n, pl.(response := pl.response + [p], awaiting := pl.awaiting - multiset(PktIds(p))), lc2)
  {
    RespIdsAppend(pl.response, p);
    var pl' := pl.(response := pl.response + [p], awaiting := pl.awaiting - multiset(PktIds(p)));
    assert pl.awaiting == pl'.awaiting + multiset(PktIds(p));
    assert Held(pl') == Held(pl);
  }

  /** The ids of the packet at the head of the response queue, before they are freed. */
  lemma RespondFacts(n: nat, pl: Places, lc: seq<LifeCycle>)
    requires Ownership(n, pl, lc) && pl.response != []
    ensures var ids := PktIds(pl.response[0]);
      && Distinct(ids) && |pl.idle| + |ids| <= n
      && |RespIds(pl.response[1..])| + |ids| == |RespIds(pl.response)|
      && forall i :: 0 <= i < |ids| ==> 0 <= ids[i] < n && lc[ids[i]].valid && ids[i] !in pl.idle
  {
    var ids := PktIds(pl.response[0]);
    assert PktOk(pl.response[0]);
    HeldSize(n, pl, lc);
    assert RespIds(pl.response) == multiset(ids) + RespIds(pl.response[1..]);
    DistinctWithinSlots(ids, n);
    forall i | 0 <= i < |ids|
      ensures lc[ids[i]].valid && ids[i] !in pl.idle
    {
      assert ids[i] in multiset(ids);
      HeldOnce(n, pl, lc, ids[i]);
    }
  }

  /** The response step gives the ids of the head packet back to the free list. */
  lemma RespondMoves(n: nat, pl: Places, lc: seq<LifeCycle>, lc2: seq<LifeCycle>)
    requires Ownership(n, pl, lc) && pl.response != []
    requires |lc2| == n
    requires forall i :: 0 <= i < n ==> lc2[i].valid == (lc[i].valid && i !in PktIds(pl.response[0]))
    ensures Ownership(n, pl.(idle := pl.idle + PktIds(pl.response[0]), response := pl.response[1..]), lc2)
  {
    var ids := PktIds(pl.response[0]);
    assert PktOk(pl.response[0]);
    assert RespIds(pl.response) == multiset(ids) + RespIds(pl.response[1..]);
    var pl' := pl.(idle := pl.idle + ids, response := pl.response[1..]);
    assert Held(pl') == Held(pl);
    forall i | 0 <= i < n
      ensures lc2[i].valid <==> i !in pl'.idle
    {
      if i in ids {
        assert i in multiset(ids);
        HeldOnce(n, pl, lc, i);
      }
    }
  }

  /**
   * Table entries not yet given back to the valid-slot counter: queued
   * for transmission, awaiting a response, inside a queued response, or
   * completed and not yet fetched.
   */
  function Outstanding(pl: Places, complete: seq<int>): (k: nat)
    requires PlacesOk(pl)
  {
    |pl.transmit| + |pl.awaiting| + |RespIds(pl.response)| + |complete|
  }

  /** Nothing is outstanding exactly when all four places are empty. */
  lemma NothingOutstanding(pl: Places, complete: seq<int>)
    requires PlacesOk(pl)
    ensures Outstanding(pl, complete) == 0 <==>
              pl.transmit == [] && pl.awaiting == multiset{} && pl.response == [] && complete == []
  {
    RespIdsAtLeastOnePerPacket(pl.response);
  }

  /** Each entry carries its own id, and a valid entry has a task UID already handed out. */
  predicate TableOk(n: nat, table: seq<TableEntry>, total: nat)
  {
    && |table| == n
    && (forall i :: 0 <= i < n ==> table[i].tableID as int == i && (table[i].valid ==> table[i].taskUID < total))
    && (forall i, j :: 0 <= i < j < n && table[i].valid && table[j].valid ==> table[i].taskUID != table[j].taskUID)
  }

  /** Taking slot `id` with the next task UID keeps the UIDs of valid entries below the counter and distinct. */
  lemma TableTake(n: nat, table: seq<TableEntry>, total: nat, id: int, t: PCIeTask)
    requires TableOk(n, table, total) && 0 <= id < n
    ensures TableOk(n, table[id := table[id].(valid := true, taskUID := total, task := t)], total + 1)
    ensures forall j :: 0 <= j < n && j != id && table[j].valid ==> table[j].taskUID < total
  {
    var table' := table[id := table[id].(valid := true, taskUID := total, task := t)];
    forall i, j | 0 <= i < j < n && table'[i].valid && table'[j].valid
      ensures table'[i].taskUID != table'[j].taskUID
    {
      if i != id && j != id {
        assert table'[i] == table[i] && table'[j] == table[j];
      }
    }
  }


  /** Table `t2` keeps the ids of `t1`, and every entry valid in `t2` was valid in `t1` with the same UID. */
  predicate TableWeaker(t1: seq<TableEntry>, t2: seq<TableEntry>)
  {
    && |t1| == |t2|
    && forall i :: 0 <= i < |t1| ==>
         t2[i].tableID == t1[i].tableID && (t2[i].valid ==> t1[i].valid && t2[i].taskUID == t1[i].taskUID)
  }

  lemma TableKeep(n: nat, t1: seq<TableEntry>, t2: seq<TableEntry>, total: nat)
    requires TableOk(n, t1, total) && TableWeaker(t1, t2)
    ensures TableOk(n, t2, total)
  {
    forall i, j | 0 <= i < j < n && t2[i].valid && t2[j].valid
      ensures t2[i].taskUID != t2[j].taskUID
    {
      assert t1[i].valid && t1[j].valid;
    }
  }

  /**
   * The bridge's bookkeeping as one value: slot count, the places of
   * the slot ids, the lifecycle records, the valid-slot counter, the
   * completed ids, the slot table, the task UID counter, and the
   * outstanding-response counter with `credit`, the part of it owed to
   * no awaited slot: one per CDMA enable, less the batch of each CDMA
   * disable and of each invalid collected answer.
   */
  datatype State = State(
    n: nat,
    pl: Places,
    lc: seq<LifeCycle>,
    validNum: int,
    complete: seq<int>,
    table: seq<TableEntry>,
    total: nat,
    osd: int,
    credit: int)

  /** The bookkeeping invariant. */
  predicate Inv(s: State)
  {
    && Ownership(s.n, s.pl, s.lc)
    && (forall k :: 0 <= k < |s.pl.comeIn| ==> WellFormed(s.pl.comeIn[k]))
    && (forall k :: 0 <= k < |s.pl.transmit| ==> WellFormed(s.pl.transmit[k]))
    // the valid-slot counter accounts for every entry not yet given back
    && s.validNum + Outstanding(s.pl, s.complete) == s.n
    && (forall k :: 0 <= k < |s.complete| ==> 0 <= s.complete[k] < s.n)
    && TableOk(s.n, s.table, s.total)
    // the outstanding-response counter counts the awaited slots, plus the CDMA engine's share
    && s.osd == |s.pl.awaiting| + s.credit
  }

  /** `recvTask`'s move: the first free id, its task to the ingress queue, its record opened. */
  function RecvNext(s: State, t: PCIeTask, l: LifeCycle, cycle: uint64): State
    requires s.pl.idle != [] && 0 <= s.pl.idle[0] < |s.lc| && s.pl.idle[0] < |s.table|
  {
    var id := s.pl.idle[0];
    s.(pl := s.pl.(idle := s.pl.idle[1..], comeIn := s.pl.comeIn + [t]),
       lc := s.lc[id := l],
       table := s.table[id := s.table[id].(enqueueTime := cycle)])
  }

  lemma InvRecv(s: State, t: PCIeTask, l: LifeCycle, cycle: uint64)
    requires Inv(s) && s.pl.idle != [] && WellFormed(t)
    requires t.tableID as int == s.pl.idle[0] && l.valid
    ensures 0 <= s.pl.idle[0] < s.n && !s.lc[s.pl.idle[0]].valid && |s.pl.comeIn| < s.n
    ensures Inv(RecvNext(s, t, l, cycle))
  {
    RecvMoves(s.n, s.pl, s.lc, t, l);
    var id := s.pl.idle[0];
    TableKeep(s.n, s.table, s.table[id := s.table[id].(enqueueTime := cycle)], s.total);
  }

  /** The dispatch move: the ingress head takes its entry with the next UID and joins the transmit queue. */
  function DispatchNext(s: State): State
    requires s.pl.comeIn != [] && 0 <= s.pl.comeIn[0].tableID as int < |s.table|
  {
    var t := s.pl.comeIn[0];
    var id := t.tableID as int;
    s.(pl := s.pl.(comeIn := s.pl.comeIn[1..], transmit := s.pl.transmit + [t]),
       table := s.table[id := s.table[id].(valid := true, taskUID := s.total, task := t)],
       total := s.total + 1,
       validNum := s.validNum - 1)
  }

  lemma InvDispatch(s: State)
    requires Inv(s) && s.pl.comeIn != []
    ensures 0 <= s.pl.comeIn[0].tableID as int < s.n && |s.pl.transmit| < s.n
    ensures forall j :: 0 <= j < s.n && j != s.pl.comeIn[0].tableID as int && s.table[j].valid ==> s.table[j].taskUID < s.total
    ensures Inv(DispatchNext(s))
  {
    DispatchMoves(s.n, s.pl, s.lc);
    TableTake(s.n, s.table, s.total, s.pl.comeIn[0].tableID as int, s.pl.comeIn[0]);
  }

  /** A transmitted slot that waits for nothing: back to the free list, its entry released. */
  function ReleaseNext(s: State, l: LifeCycle): State
    requires s.pl.transmit != [] && 0 <= s.pl.transmit[0].tableID as int < |s.lc|
    requires s.pl.transmit[0].tableID as int < |s.table|
  {
    var id := s.pl.transmit[0].tableID as int;
    s.(pl := s.pl.(idle := s.pl.idle + [id], transmit := s.pl.transmit[1..]),
       lc := s.lc[id := l],
       table := s.table[id := s.table[id].(valid := false)],
       validNum := s.validNum + 1)
  }

  lemma InvRelease(s: State, l: LifeCycle)
    requires Inv(s) && s.pl.transmit != [] && !l.valid
    ensures 0 <= s.pl.transmit[0].tableID as int < s.n && |s.pl.idle| < s.n
    ensures Inv(ReleaseNext(s, l))
  {
    ReleaseMoves(s.n, s.pl, s.lc, l);
    var id := s.pl.transmit[0].tableID as int;
    TableKeep(s.n, s.table, s.table[id := s.table[id].(valid := false)], s.total);
  }

  /** A transmitted slot that waits for a response: to the awaiting set, counted as outstanding. */
  function AwaitNext(s: State, l: LifeCycle): State
    requires s.pl.transmit != [] && 0 <= s.pl.transmit[0].tableID as int < |s.lc|
  {
    var id := s.pl.transmit[0].tableID as int;
    s.(pl := s.pl.(transmit := s.pl.transmit[1..], awaiting := s.pl.awaiting + multiset{id}),
       lc := s.lc[id := l],
       osd := s.osd + 1)
  }

  lemma InvAwait(s: State, l: LifeCycle)
    requires Inv(s) && s.pl.transmit != [] && l.valid
    ensures 0 <= s.pl.transmit[0].tableID as int < s.n
    ensures Inv(AwaitNext(s, l))
  {
    AwaitMoves(s.n, s.pl, s.lc, l);
  }

  /** A collected valid packet: its ids leave the awaiting set with it into the response queue. */
  function CollectNext(s: State, p: RespPkt, lc2: seq<LifeCycle>): State
    requires RespWellFormed(p) && p.batch as int <= MAX_BATCH_THRESHOLD
  {
    s.(pl := s.pl.(response := s.pl.response + [p], awaiting := s.pl.awaiting - multiset(PktIds(p))),
       lc := lc2,
       osd := s.osd - p.batch as int)
  }

  lemma InvCollect(s: State, p: RespPkt, lc2: seq<LifeCycle>)
    requires Inv(s) && PktOk(p) && multiset(PktIds(p)) <= s.pl.awaiting
    requires |lc2| == s.n && forall i :: 0 <= i < s.n ==> lc2[i].valid == s.lc[i].valid
    ensures |s.pl.response| < s.n && Distinct(PktIds(p))
    ensures forall i :: 0 <= i < |PktIds(p)| ==> 0 <= PktIds(p)[i] < s.n && s.lc[PktIds(p)[i]].valid
    ensures Inv(CollectNext(s, p, lc2))
  {
    CollectFacts(s.n, s.pl, s.lc, p);
    CollectMoves(s.n, s.pl, s.lc, p, lc2);
    var ids := PktIds(p);
    assert |s.pl.awaiting - multiset(ids)| + |ids| == |s.pl.awaiting| by {
      assert s.pl.awaiting == (s.pl.awaiting - multiset(ids)) + multiset(ids);
    }
    RespIdsAppend(s.pl.response, p);
  }

  /** The response move for the head packet: its ids freed and completed, records and entries given. */
  function RespondNext(s: State, lc2: seq<LifeCycle>, table2: seq<TableEntry>): State
    requires s.pl.response != [] && PktOk(s.pl.response[0])
  {
    var ids := PktIds(s.pl.response[0]);
    s.(pl := s.pl.(idle := s.pl.idle + ids, response := s.pl.response[1..]),
       lc := lc2,
       table := table2,
       complete := s.complete + ids)
  }

  lemma InvRespond(s: State, lc2: seq<LifeCycle>, table2: seq<TableEntry>)
    requires Inv(s) && s.pl.response != []
    requires |lc2| == s.n
    requires forall i :: 0 <= i < s.n ==> lc2[i].valid == (s.lc[i].valid && i !in PktIds(s.pl.response[0]))
    requires TableWeaker(s.table, table2)
    ensures PktOk(s.pl.response[0])
    ensures var ids := PktIds(s.pl.response[0]);
      && Distinct(ids) && |s.pl.idle| + |ids| <= s.n
      && forall i :: 0 <= i < |ids| ==> 0 <= ids[i] < s.n && s.lc[ids[i]].valid && ids[i] !in s.pl.idle
    ensures Inv(RespondNext(s, lc2, table2))
  {
    assert PktOk(s.pl.response[0]);
    RespondFacts(s.n, s.pl, s.lc);
    RespondMoves(s.n, s.pl, s.lc, lc2);
    TableKeep(s.n, s.table, table2, s.total);
  }

  /** `fetchResp` finding its id at position k of the completed list: the entry is released. */
  function FetchNext(s: State, k: nat): State
    requires k < |s.complete| && 0 <= s.complete[k] < |s.table|
  {
    var id := s.complete[k];
    s.(complete := RemoveAt(s.complete, k),
       table := s.table[id := s.table[id].(valid := false)],
       validNum := s.validNum + 1)
  }

  lemma InvFetch(s: State, k: nat)
    requires Inv(s) && k < |s.complete|
    ensures 0 <= s.complete[k] < s.n
    ensures Inv(FetchNext(s, k))
  {
    var id := s.complete[k];
    TableKeep(s.n, s.table, s.table[id := s.table[id].(valid := false)], s.total);
    var c := RemoveAt(s.complete, k);
    forall j | 0 <= j < |c|
      ensures 0 <= c[j] < s.n
    {
      if j < k {
        assert c[j] == s.complete[j];
      } else {
        assert c[j] == s.complete[j + 1];
      }
    }
  }

  /** The CDMA engine's share of the outstanding counter moves by `delta`. */
  lemma InvCredit(s: State, delta: int)
    requires Inv(s)
    ensures Inv(s.(osd := s.osd + delta, credit := s.credit + delta))
  {
  }

  /** With every slot given back, no id is queued, awaited, pending or unfetched. */
  lemma InvAllFree(s: State)
    requires Inv(s) && s.validNum == s.n
    ensures s.pl.transmit == [] && s.pl.awaiting == multiset{} && s.pl.response == [] && s.complete == []
    ensures s.osd == s.credit
  {
    NothingOutstanding(s.pl, s.complete);
  }
}
