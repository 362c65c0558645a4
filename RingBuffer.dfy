/**
 * The bounded FIFO used for the free-slot list and for the three
 * inter-stage queues of the bridge.  It keeps `depth` items in
 * `depth + 1` index positions (one position always stays empty, so the
 * producer and consumer indices alone tell "full" from "empty").
 */
module Ring {

  /** Successor of index `i` on a ring of `m` positions. */
  function Next(i: int, m: int): (j: int)
    requires m > 0 && 0 <= i < m
    ensures 0 <= j < m
    ensures j == (i + 1) % m
    ensures j == if i + 1 == m then 0 else i + 1
  {
    if i + 1 == m then 0 else i + 1
  }

  /**
   * Number of occupied positions from consumer index `head` up to
   * producer index `tail` on a ring of `m` positions (the source's `size`).
   */
  function Occupancy(head: int, tail: int, m: int): (n: int)
    requires m > 0 && 0 <= head < m && 0 <= tail < m
    ensures 0 <= n < m
    ensures n == 0 <==> head == tail
    ensures (head + n) % m == tail
  {
    if tail - head >= 0 then tail - head else tail - head + m
  }

  /** The full test on indices agrees with occupancy reaching `m - 1`. */
  lemma FullIffOccupancy(head: int, tail: int, m: int)
    requires m > 0 && 0 <= head < m && 0 <= tail < m
    ensures (tail + 1) % m == head <==> Occupancy(head, tail, m) == m - 1
  {
    assert Next(tail, m) == (tail + 1) % m;
  }

  /** Advancing the producer index adds one to the occupancy unless full. */
  lemma OccupancyAfterProduce(head: int, tail: int, m: int)
    requires m > 0 && 0 <= head < m && 0 <= tail < m
    requires Occupancy(head, tail, m) < m - 1
    ensures Occupancy(head, Next(tail, m), m) == Occupancy(head, tail, m) + 1
  {
  }

  class RingBuffer<T(0)> {
    /** Capacity requested by the caller. */
    const depth: nat
    /** Index modulus, `depth + 1` (the source's `m_depth`). */
    const modulus: nat
    /** Storage, `modulus + 1` slots as the source allocates it. */
    const queue: array<T>

    var consHead: int
    var consTail: int
    var prodHead: int
    var prodTail: int

    /** Indices in range and every operation complete (head equals tail). */
    ghost predicate Valid()
      reads this
    {
      && modulus == depth + 1
      && queue.Length == modulus + 1
      && 0 <= consHead < modulus
      && 0 <= prodHead < modulus
      && consTail == consHead
      && prodTail == prodHead
    }

    /** The items held, oldest first. */
    ghost function Contents(): (s: seq<T>)
      requires Valid()
      reads this, queue
      ensures |s| == Occupancy(consHead, prodTail, modulus)
    {
      if consHead <= prodTail then queue[consHead..prodTail]
      else queue[consHead..modulus] + queue[..prodTail]
    }

    constructor (depth: nat)
      ensures Valid() && fresh(queue)
      ensures this.depth == depth && modulus == depth + 1
      ensures consHead == 0 && prodHead == 0
      ensures Contents() == []
    {
      this.depth := depth;
      modulus := depth + 1;
      queue := new T[depth + 2];
      consHead, consTail, prodHead, prodTail := 0, 0, 0, 0;
    }

    method IsFull() returns (full: bool)
      requires Valid()
      ensures full <==> |Contents()| == depth
    {
      full := (prodHead + 1) % modulus == consTail;
      FullIffOccupancy(consHead, prodTail, modulus);
    }

    method IsEmpty() returns (empty: bool)
      requires Valid()
      ensures empty <==> Contents() == []
    {
      empty := consHead == prodTail;
    }

    method Size() returns (n: int)
      requires Valid()
      ensures n == |Contents()|
      ensures 0 <= n <= depth
    {
      n := if prodTail - consHead >= 0 then prodTail - consHead else prodTail - consHead + modulus;
    }

    method Enqueue(x: T) returns (ok: bool)
      requires Valid()
      modifies this, queue
      ensures Valid()
      ensures ok <==> |old(Contents())| < depth
      ensures ok ==> Contents() == old(Contents()) + [x]
      ensures !ok ==> unchanged(this) && unchanged(queue)
    {
      var full := IsFull();
      if !full {
        ghost var before := Contents();
        var localProdHead := prodHead;
        var localProdNext := Next(localProdHead, modulus);
        prodHead := localProdNext;
        queue[localProdHead] := x;
        prodTail := prodHead;
        OccupancyAfterProduce(consHead, localProdHead, modulus);
        if consHead <= localProdHead {
          if localProdNext == 0 {
            assert localProdHead == modulus - 1;
            assert Contents() == queue[consHead..modulus] + queue[..0];
            assert queue[consHead..modulus] == before + [x];
          } else {
            assert Contents() == queue[consHead..localProdHead + 1];
            assert queue[consHead..localProdHead] == before;
          }
        } else {
          assert Contents() == queue[consHead..modulus] + queue[..localProdHead + 1];
          assert queue[..localProdHead + 1] == queue[..localProdHead] + [x];
        }
        ok := true;
      } else {
        ok := false;
      }
    }

    method Dequeue() returns (x: T)
      requires Valid() && |Contents()| > 0
      modifies this
      ensures Valid()
      ensures x == old(Contents())[0]
      ensures Contents() == old(Contents())[1..]
      ensures prodHead == old(prodHead) && prodTail == old(prodTail)
    {
      ghost var before := Contents();
      var localConsHead := consHead;
      var localConsNext := Next(localConsHead, modulus);
      consHead := localConsNext;
      x := queue[localConsHead];
      consTail := consHead;
      if localConsHead <= prodTail {
        assert Contents() == before[1..];
      } else if localConsNext == 0 {
        assert before == queue[localConsHead..modulus] + queue[..prodTail];
        assert Contents() == queue[..prodTail];
      } else {
        assert Contents() == before[1..];
      }
    }

    method Peek() returns (x: T)
      requires Valid() && |Contents()| > 0
      ensures x == Contents()[0]
    {
      x := queue[consHead];
    }
  }
}
