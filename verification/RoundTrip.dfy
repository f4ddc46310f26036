/** Writer, send queue and reader together: what one side accepts is what the other side delivers. */
module RoundTrip {
  import opened Basics
  import opened Framing
  import opened Reader
  import opened ReaderProofs
  import opened ChunkInvariance
  import opened Responses

  function Concat(packets: seq<Bytes>): Bytes {
    if packets == [] then [] else packets[0] + Concat(packets[1..])
  }

  lemma {:induction false} ConcatFrames(packets: seq<Bytes>, texts: seq<Bytes>)
    requires Framable(texts) && |packets| == |texts|
    requires forall i :: 0 <= i < |texts| ==> packets[i] == Frame(texts[i])
    ensures Concat(packets) == Frames(texts)
  {
    if texts != [] {
      assert packets[0] == Frame(texts[0]);
      assert forall i :: 0 <= i < |texts[1..]| ==> packets[1..][i] == packets[i + 1] && texts[1..][i] == texts[i + 1];
      ConcatFrames(packets[1..], texts[1..]);
    }
  }

  lemma {:induction false} FramesClean(texts: seq<Bytes>)
    requires Framable(texts)
    ensures Clean(Frames(texts)) && Tail(Frames(texts)) == []
    ensures NoEmptyFrame(Frames(texts)) <==> AllNonEmpty(texts)
  {
    if texts != [] {
      FramesClean(texts[1..]);
      ParseFront(texts[0], Frames(texts[1..]));
      assert AllNonEmpty(texts) <==> texts[0] != [] && AllNonEmpty(texts[1..]) by {
        assert forall i :: 0 <= i < |texts[1..]| ==> texts[1..][i] == texts[i + 1];
        assert forall i :: 1 <= i < |texts| ==> texts[i] == texts[1..][i - 1];
      }
    }
  }

  /**
   Whatever the response queue has sent, cut into chunks in any way: the texts it has accepted
   come out in order, and all that are on the wire do, if and only if none of them is empty.
   */
  lemma WireRoundTrip(q: ResponseQueue, history: seq<Read>)
    requires q.Valid()
    requires Sound(history) && RunFits(EMPTY, history)
    requires Received(history) == Concat(q.sent)
    ensures Run(EMPTY, history).out == q.accepted[..|q.sent|] <==> AllNonEmpty(q.accepted[..|q.sent|])
    ensures AllNonEmpty(q.accepted[..|q.sent|]) ==> Run(EMPTY, history).next == EMPTY
  {
    var texts := q.accepted[..|q.sent|];
    assert forall i :: 0 <= i < |texts| ==> q.sent[i] == (q.sent + q.mq)[i];
    ConcatFrames(q.sent, texts);
    FramesClean(texts);
    var r := Run(EMPTY, history);
    if AllNonEmpty(texts) {
      RunCatchesUp(history);
      ParseFrames(texts, []);
      assert Frames(texts) + [] == Frames(texts) && texts + Parse([]) == texts;
      assert r.next.Rest() == [];
    } else {
      RunFromEmpty(history, []);
      assert Received(history) + [] == Received(history);
      ParsedAreNonEmpty(Received(history));
      assert AllNonEmpty(r.out) by {
        var rest := Parse(r.next.Rest() + []);
        assert forall i :: 0 <= i < |r.out| ==> r.out[i] == (r.out + rest)[i];
      }
    }
  }

  /** While packets are still in transit, with any allocation failures, the texts read so far lead the accepted ones. */
  lemma TransitKeepsOrder(texts: seq<Bytes>, history: seq<Read>, pending: Bytes)
    requires Framable(texts) && AllNonEmpty(texts)
    requires RunFits(EMPTY, history)
    requires Received(history) + pending == Frames(texts)
    ensures Run(EMPTY, history).out <= texts
  {
    FramesClean(texts);
    CleanPrefix(Received(history), pending);
    RunFromEmpty(history, pending);
    ParseFrames(texts, []);
    assert Frames(texts) + [] == Frames(texts) && texts + Parse([]) == texts;
  }

  /** The writer's bound is exactly what keeps its packets off the reader's bypass. */
  lemma WriterBoundIsExact(text: Bytes, t: Bytes)
    requires |text| < 0x10000
    ensures |text| <= MAX_MSG_SZ <==> !OversizeHeader(Frame(text) + t)
  {
    assert Frame(text) + t == Header(|text|) + (text + t);
    HeaderRoundTrip(|text|, text + t);
  }
}
