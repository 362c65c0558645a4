/**
 * The bulk-DMA side channel: an engine that, while enabled, polls the
 * device for response-shaped packets and appends the payload of every
 * valid one to a local stream buffer, from which the front-end fetches
 * bytes with a null-fill-on-underrun policy.
 */
module Cdma {
  import opened Wire

  /** Bytes of the local stream buffer. */
  const BUFFER_SIZE: nat := 0x200000

  /** Two's-complement reading of a 64-bit pattern, as a cast to `int64_t` does. */
  function ToInt64(x: uint64): (r: int)
    ensures -0x8000_0000_0000_0000 <= r < 0x8000_0000_0000_0000
    ensures x < 0x8000_0000_0000_0000 ==> r == x
    ensures (r - x) % TWO64 == 0
  {
    if x < 0x8000_0000_0000_0000 then x else x - TWO64
  }

  /** The content bytes of consecutive results, in order. */
  function Payload(rs: seq<Result>): seq<byte>
  {
    if rs == [] then [] else Payload(rs[..|rs| - 1]) + rs[|rs| - 1].content
  }

  lemma {:induction false} PayloadLength(rs: seq<Result>)
    requires forall i :: 0 <= i < |rs| ==> ResultWellFormed(rs[i])
    ensures |Payload(rs)| == RESULT_DATA_SIZE * |rs|
  {
    if rs != [] {
      PayloadLength(rs[..|rs| - 1]);
    }
  }

  /** The payload of one more result is that result's content appended. */
  lemma PayloadSnoc(rs: seq<Result>, i: nat)
    requires i < |rs|
    ensures Payload(rs[..i + 1]) == Payload(rs[..i]) + rs[i].content
  {
    assert rs[..i + 1][..i] == rs[..i];
  }

  /** Writing `c` right after the filled prefix extends the prefix by `c`. */
  lemma SpliceStep(orig: seq<byte>, buf: seq<byte>, next: seq<byte>, start: nat, done: seq<byte>, c: seq<byte>)
    requires start + |done| + |c| <= |orig| == |buf|
    requires buf == orig[..start] + done + orig[start + |done|..]
    requires next == buf[..start + |done|] + c + buf[start + |done| + |c|..]
    ensures next == orig[..start] + (done + c) + orig[start + |done| + |c|..]
  {
    var w := start + |done|;
    assert buf[..w] == orig[..start] + done;
    assert buf[w + |c|..] == orig[w + |c|..];
  }

  class CDMA {
    var addr: uint64
    var size: uint64
    const buffer: array<byte>
    var wptr: uint64
    var rptr: uint64
    var status: bool
    /** Transfer size of the response packet the engine polls with. */
    const respSize: nat

    ghost predicate Valid()
      reads this
    {
      buffer.Length == BUFFER_SIZE && rptr <= wptr <= BUFFER_SIZE
    }

    function GetWPtr(): uint64 reads this { wptr }
    function GetRPtr(): uint64 reads this { rptr }
    function GetSize(): uint64 reads this { size }
    function GetAddr(): uint64 reads this { addr }
    function GetStatus(): bool reads this { status }

    /** `getRemain`: the unsigned pointer difference read as a signed value. */
    function GetRemain(): (r: int)
      reads this
      ensures rptr <= wptr <= BUFFER_SIZE ==> r == wptr - rptr
      ensures -0x8000_0000_0000_0000 <= r < 0x8000_0000_0000_0000
    {
      ToInt64(Sub64(wptr, rptr))
    }

    constructor (limitBatchSize: nat)
      ensures Valid() && fresh(buffer)
      ensures !GetStatus() && GetAddr() == 0 && GetSize() == 0 && GetWPtr() == 0 && GetRPtr() == 0
      ensures respSize == RespPktSize(limitBatchSize)
    {
      addr := 0;
      size := 0;
      buffer := new byte[BUFFER_SIZE];
      wptr := 0;
      rptr := 0;
      status := false;
      respSize := RespPktSize(limitBatchSize);
    }

    /** Arms the window; only callable while disabled. */
    method Enable(a: uint64, s: uint64)
      requires Valid() && !status
      modifies this
      ensures Valid()
      ensures GetStatus() && GetAddr() == a && GetSize() == s && GetWPtr() == 0 && GetRPtr() == 0
    {
      addr := a;
      size := s;
      wptr := 0;
      rptr := 0;
      status := true;
    }

    /** Clears the window and both pointers; only callable while enabled. */
    method Disable()
      requires Valid() && status
      modifies this
      ensures Valid()
      ensures !GetStatus() && GetAddr() == 0 && GetSize() == 0 && GetWPtr() == 0 && GetRPtr() == 0
    {
      addr := 0;
      size := 0;
      wptr := 0;
      rptr := 0;
      status := false;
    }

    /**
     * `fetchData(buf, n)`: `n` buffered bytes from the read pointer when
     * that many are available, otherwise `n` zero bytes and no change.
     */
    method FetchData(n: uint64) returns (buf: seq<byte>)
      requires Valid()
      modifies this`rptr
      ensures Valid() && |buf| == n
      ensures n <= old(GetRemain()) ==>
                buf == buffer[old(rptr)..old(rptr) + n] && rptr == old(rptr) + n
      ensures n > old(GetRemain()) ==> buf == Zeros(n) && rptr == old(rptr)
    {
      if n <= GetRemain() {
        buf := buffer[rptr..rptr + n];
        rptr := rptr + n;
      } else {
        buf := Zeros(n);
      }
    }

    /** `memcpy` of one result's payload into the stream buffer at `at`. */
    method CopyPayload(content: seq<byte>, at: nat)
      requires Valid() && |content| == RESULT_DATA_SIZE && at + RESULT_DATA_SIZE <= BUFFER_SIZE
      modifies buffer
      ensures buffer[..] == old(buffer[..])[..at] + content + old(buffer[..])[at + RESULT_DATA_SIZE..]
    {
      forall k | 0 <= k < RESULT_DATA_SIZE {
        buffer[at + k] := content[k];
      }
      assert buffer[..] == old(buffer[..])[..at] + content + old(buffer[..])[at + RESULT_DATA_SIZE..];
    }

    /** The copy loop of `execute`: the first `batch` payloads of `rs` appended at the write pointer. */
    method AppendPayload(rs: seq<Result>, batch: nat)
      requires Valid() && batch <= |rs|
      requires forall i :: 0 <= i < |rs| ==> ResultWellFormed(rs[i])
      requires wptr + RESULT_DATA_SIZE * batch <= BUFFER_SIZE
      modifies this`wptr, buffer
      ensures Valid()
      ensures wptr == old(wptr) + RESULT_DATA_SIZE * batch
      ensures buffer[..] == old(buffer[..])[..old(wptr)] + Payload(rs[..batch]) + old(buffer[..])[wptr..]
    {
      var i := 0;
      ghost var start := wptr;
      ghost var orig := buffer[..];
      while i < batch
        invariant 0 <= i <= batch
        invariant wptr == start + RESULT_DATA_SIZE * i
        invariant buffer[..] == orig[..start] + Payload(rs[..i]) + orig[wptr..]
      {
        ghost var before := buffer[..];
        CopyPayload(rs[i].content, wptr);
        PayloadLength(rs[..i]);
        SpliceStep(orig, before, buffer[..], start, Payload(rs[..i]), rs[i].content);
        PayloadSnoc(rs, i);
        wptr := wptr + RESULT_DATA_SIZE;
        i := i + 1;
      }
    }

    /**
     * One iteration of `execute`.  While enabled, the engine reads one
     * packet (`pkt`, the device's answer) from `addr + wptr`; a packet
     * whose valid bit is set has the payload of its first `batch`
     * results appended at `wptr`.  `polled` tells whether a read was
     * issued and `pollAddr` where.  A payload that would run past the end
     * of the stream buffer is reported as `overrun` and not copied.
     */
    method ExecuteStep(pkt: RespPkt) returns (polled: bool, pollAddr: uint64, overrun: bool)
      requires Valid() && RespWellFormed(pkt) && pkt.batch as int <= MAX_BATCH_THRESHOLD
      modifies this`wptr, buffer
      ensures Valid()
      ensures polled == status
      ensures polled ==> pollAddr == (addr + old(wptr)) % TWO64
      ensures overrun <==> polled && pkt.valid % 2 == 1 && old(wptr) + RESULT_DATA_SIZE * pkt.batch as int > BUFFER_SIZE
      ensures !(polled && pkt.valid % 2 == 1) || overrun ==> wptr == old(wptr) && buffer[..] == old(buffer[..])
      ensures polled && pkt.valid % 2 == 1 && !overrun ==>
                && wptr == old(wptr) + RESULT_DATA_SIZE * pkt.batch as int
                && buffer[..] == old(buffer[..])[..old(wptr)] + Payload(pkt.results[..pkt.batch])
                                   + old(buffer[..])[wptr..]
    {
      polled := status;
      pollAddr := 0;
      overrun := false;
      if status {
        pollAddr := (addr + wptr) % TWO64;
        if pkt.valid % 2 == 1 {
          if wptr + RESULT_DATA_SIZE * pkt.batch as int > BUFFER_SIZE {
            overrun := true;
          } else {
            AppendPayload(pkt.results, pkt.batch as int);
          }
        }
      }
    }
  }
}
