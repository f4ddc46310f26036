/** The reader of main.c as it is written: two static variables and a request queue. */
module SocketReader {
  import opened Basics
  import opened Framing
  import opened Reader
  import opened ReaderProofs
  import opened AllocFailures

  lemma DrainUnfolds(st: State, alloc: seq<bool>, i: nat, before: seq<Bytes>)
    requires st.Valid()
    ensures var r, d := Step(st, AllocAt(alloc, i)), Drain(st, alloc, i);
            if r.out == [] then d == r
            else var rest := Drain(r.next, alloc, i + 1);
                 d.next == rest.next && before + d.out == before + r.out + rest.out
  {
    var r := Step(st, AllocAt(alloc, i));
    if r.out != [] {
      var rest := Drain(r.next, alloc, i + 1);
      assert before + (r.out + rest.out) == before + r.out + rest.out;
    }
  }

  class FrameReader {
    var packet: Option<Bytes>
    var packetLen: nat
    var requests: seq<Bytes>   // every message put on blehostd_req_mq, oldest first

    ghost function St(): State
      reads this
    {
      State(packet, packetLen)
    }

    ghost predicate Valid()
      reads this
    {
      St().Valid()
    }

    constructor ()
      ensures St() == EMPTY && requests == []
    {
      packet, packetLen, requests := None, 0, [];
    }

    /** Takes one message out of the buffer, if a whole one is there and memory allows. */
    method EnqueueOne(allocOk: bool) returns (enqueued: bool)
      requires Valid()
      modifies this
      ensures var r := Step(old(St()), allocOk);
              St() == r.next && requests == old(requests) + r.out && enqueued == (r.out != [])
      ensures old(St()).Fits() ==>
                var s := old(St()).Rest();
                requests == old(requests) + OneDelivered(s, allocOk) && St().Rest() == OneRetained(s, allocOk)
    {
      if St().Fits() {
        StepExact(St(), allocOk);
      }
      if packetLen == 0 {
        if packet.Some? && |packet.value| >= 2 {
          packetLen := HeaderLen(packet.value);
          if packetLen > MAX_MSG_SZ {
            packetLen := PktLen(packet.value);
          } else {
            packet := Some(packet.value[2..]);
          }
        }
      }

      if packetLen == 0 || PktLen(packet.value) < packetLen {
        return false;
      }

      var om;
      if PktLen(packet.value) == packetLen {
        om := packet.value;
        packet := None;
        packetLen := 0;
      } else {
        if !allocOk {
          return false;
        }
        om := packet.value[..packetLen];
        packet := Some(packet.value[packetLen..]);
        packetLen := 0;
      }
      requests := requests + [om];
      return true;
    }

    /**
     One callback, and what it delivers and retains of the stream. The last clause is the safety
     property: what has been enqueued, followed by what the batch parser would still find, is what
     it finds in all bytes so far.
     */
    method SocketReadable(rd: Read)
      requires Valid()
      modifies this
      ensures var r := Receive(old(St()), rd);
              St() == r.next && requests == old(requests) + r.out
      ensures Valid()
      ensures rd.NoData? ==> St() == old(St()) && requests == old(requests)
      ensures rd.Got? && Append(old(St()), rd.chunk).Fits() ==>
                var s := old(St()).Rest() + rd.chunk;
                requests == old(requests) + Delivered(s, rd.alloc, 0) && St().Rest() == Retained(s, rd.alloc, 0)
      ensures old(St()).Fits() && Append(old(St()), ChunkOf(rd)).Fits() && Clean(old(St()).Rest() + ChunkOf(rd)) ==>
                requests + Parse(St().Rest()) == old(requests) + Parse(old(St()).Rest() + ChunkOf(rd))
    {
      ghost var st, before := St(), requests;
      match rd {
        case NoData =>
        case Got(chunk, alloc) =>
          if packet.None? {
            packet := Some(chunk);
          } else {
            packet := Some(packet.value + chunk);
          }
          assert [] + chunk == chunk;
          ghost var full := St();
          assert full == Append(st, chunk);
          var i := 0;
          while true
            invariant Valid()
            invariant before + Drain(full, alloc, 0).out == requests + Drain(St(), alloc, i).out
            invariant Drain(full, alloc, 0).next == Drain(St(), alloc, i).next
            decreases St().Weight()
          {
            DrainUnfolds(St(), alloc, i, requests);
            var enqueued := EnqueueOne(AllocAt(alloc, i));
            if !enqueued {
              break;
            }
            i := i + 1;
          }
      }
      if Append(st, ChunkOf(rd)).Fits() {
        ReceiveExact(st, rd);
      }
      if st.Fits() && Append(st, ChunkOf(rd)).Fits() && Clean(st.Rest() + ChunkOf(rd)) {
        ReceiveSafe(st, rd, before);
      }
    }
  }
}
