/** The response writer and the send loop of main.c, run by one task. */
module Responses {
  import opened Basics
  import opened Framing

  /** What mn_sendto can answer. */
  datatype SendResult = Sent | Again | Failed

  /** Answers of successive calls in one run of the loop; past the end the socket accepts. */
  function ResultAt(results: seq<SendResult>, i: nat): SendResult {
    if i < |results| then results[i] else Sent
  }

  /** How many of the packets i..n are accepted one after the other, before another answer comes. */
  function Burst(results: seq<SendResult>, i: nat, n: nat): (k: nat)
    requires i <= n
    ensures i + k <= n
    ensures forall j :: i <= j < i + k ==> ResultAt(results, j).Sent?
    ensures i + k < n ==> !ResultAt(results, i + k).Sent?
    decreases n - i
  {
    if i < n && ResultAt(results, i).Sent? then 1 + Burst(results, i + 1, n) else 0
  }

  /** The three places where building a packet can run out of memory. */
  datatype Memory = Memory(header: bool, extend: bool, append: bool) {
    predicate Suffices() {
      header && extend && append
    }
  }

  /** The two length bytes and the text are the frame. */
  lemma Built(text: Bytes, rsplen: nat, om: Bytes)
    requires |text| <= MAX_MSG_SZ && rsplen == |text| % 0x10000 && om == [] + [rsplen / 256, rsplen % 256] + text
    ensures om == Frame(text)
    ensures |om| == 2 + |text| && om[0] as int * 256 + om[1] as int == |text| && om[2..] == text
  {
    assert rsplen == |text|;
    FrameBytes(text);
  }

  class ResponseQueue {
    var mq: seq<Bytes>              // blehostd_rsp_mq
    ghost var sent: seq<Bytes>      // packets the socket has accepted
    ghost var accepted: seq<Bytes>  // texts the writer has accepted

    /** Everything accepted is on the wire or in the queue: once, in order, framed. */
    ghost predicate Valid()
      reads this
    {
      && |sent| + |mq| == |accepted|
      && Framable(accepted)
      && forall i :: 0 <= i < |accepted| ==> (sent + mq)[i] == Frame(accepted[i])
    }

    constructor ()
      ensures Valid() && mq == [] && sent == [] && accepted == []
    {
      mq, sent, accepted := [], [], [];
    }

    method EnqueueRsp(text: Bytes, mem: Memory) returns (rc: Result<()>)
      requires Valid()
      modifies this
      ensures Valid()
      ensures rc == if |text| > MAX_MSG_SZ then Err(SysEinval)
                    else if !mem.Suffices() then Err(SysEnomem)
                    else Ok(())
      ensures sent == old(sent)
      ensures accepted == old(accepted) + if rc.Ok? then [text] else []
      ensures mq == old(mq) + if rc.Ok? then [Frame(text)] else []
      ensures rc.Ok? ==>
                var om := mq[|mq| - 1]; |om| == 2 + |text| && om[0] as int * 256 + om[1] as int == |text| && om[2..] == text
    {
      var len := |text|;
      if len > MAX_MSG_SZ {
        return Err(SysEinval);
      }
      var om: Bytes := [];
      if !mem.header {
        return Err(SysEnomem);
      }
      if !mem.extend {
        return Err(SysEnomem);
      }
      var rsplen: nat := len % 0x10000;
      om := om + [rsplen / 256, rsplen % 256];
      if !mem.append {
        return Err(SysEnomem);
      }
      om := om + text;
      Built(text, rsplen, om);
      mq := mq + [om];
      assert mq[|mq| - 1] == om;
      accepted := accepted + [text];
      return Ok(());
    }

    /**
     One run of the send loop. A packet the socket cannot take goes back to the head of the
     queue; any other failure stops the daemon, and the packet in hand is the one lost.
     */
    method ProcessRspMq(results: seq<SendResult>) returns (aborted: bool)
      requires Valid()
      modifies this
      ensures !aborted ==> Valid()
      ensures accepted == old(accepted)
      ensures var k := Burst(results, 0, |old(mq)|);
              && sent == old(sent) + old(mq)[..k]
              && (aborted <==> k < |old(mq)| && ResultAt(results, k).Failed?)
              && mq == old(mq)[if aborted then k + 1 else k..]
    {
      ghost var was, n := mq, |mq|;
      var i := 0;
      aborted := false;
      while |mq| > 0
        invariant i <= n && mq == was[i..] && sent == old(sent) + was[..i]
        invariant accepted == old(accepted) && Valid() && !aborted
        invariant Burst(results, 0, n) == i + Burst(results, i, n)
        decreases |mq|
      {
        var om := mq[0];
        mq := mq[1..];
        var rc := ResultAt(results, i);
        if rc.Again? {
          mq := [om] + mq;
          break;
        } else if rc.Failed? {
          aborted := true;
          break;
        }
        sent := sent + [om];
        assert was[..i + 1] == was[..i] + [om];
        assert sent + mq == old(sent) + was;
        i := i + 1;
      }
      assert !aborted ==> sent + mq == old(sent) + was;
    }
  }
}
