/**
 When the delivered messages do not depend on how the stream was cut into chunks: always, if
 no header announces more than the maximum; and otherwise only if the stream ends right there.
 */
module ChunkInvariance {
  import opened Basics
  import opened Framing
  import opened Reader
  import opened ReaderProofs

  // ----- the buffer stays small

  lemma StepShrinks(st: State, allocOk: bool)
    requires st.Valid()
    ensures |Step(st, allocOk).next.Buffered()| <= |st.Buffered()|
  {
  }

  lemma {:induction false} DrainShrinks(st: State, alloc: seq<bool>, i: nat)
    requires st.Valid()
    ensures |Drain(st, alloc, i).next.Buffered()| <= |st.Buffered()|
    decreases st.Weight()
  {
    var r := Step(st, AllocAt(alloc, i));
    StepShrinks(st, AllocAt(alloc, i));
    if r.out != [] {
      DrainShrinks(r.next, alloc, i + 1);
    }
  }

  /** Any stream shorter than 64 KiB fits, whatever it holds and whatever fails. */
  lemma {:induction false} ShortStreamFits(history: seq<Read>)
    requires |Received(history)| < 0x10000
    ensures RunFits(EMPTY, history)
    ensures |Run(EMPTY, history).next.Buffered()| <= |Received(history)|
  {
    if history != [] {
      var front, last := history[..|history| - 1], history[|history| - 1];
      ShortStreamFits(front);
      if last.Got? {
        DrainShrinks(Append(Run(EMPTY, front).next, last.chunk), last.alloc, 0);
      }
    }
  }

  /** What a settled reader holds back leaves this much room for the next chunk. */
  const MAX_CHUNK: nat := 0xffff - (MAX_MSG_SZ - 1)

  predicate ChunksBounded(history: seq<Read>) {
    forall i :: 0 <= i < |history| ==> |ChunkOf(history[i])| <= MAX_CHUNK
  }

  // ----- reading a stream without oversize headers

  predicate Sound(history: seq<Read>) {
    NonEmptyChunks(history) && NoFailures(history)
  }

  lemma SoundFront(history: seq<Read>)
    requires history != [] && Sound(history)
    ensures Sound(history[..|history| - 1])
  {
  }

  lemma {:induction false} RunCatchesUp(history: seq<Read>)
    requires Sound(history) && RunFits(EMPTY, history)
    requires Clean(Received(history)) && NoEmptyFrame(Received(history))
    ensures var r := Run(EMPTY, history); CaughtUp(Received(history), r.out, r.next)
  {
    if history != [] {
      var front, last := history[..|history| - 1], history[|history| - 1];
      assert history == front + [last];
      SoundFront(history);
      RunSnoc(EMPTY, front, last);
      match last
      case NoData =>
        assert Received(history) == Received(front);
        RunCatchesUp(front);
        assert Run(EMPTY, history).out == Run(EMPTY, front).out;
      case Got(chunk, alloc) =>
        CatchUp(front, chunk, alloc);
    }
  }

  /** With chunks of bounded size the 16-bit packet length is never exceeded, however long the stream. */
  lemma {:induction false} BoundedChunksFit(history: seq<Read>)
    requires Sound(history) && ChunksBounded(history)
    requires Clean(Received(history)) && NoEmptyFrame(Received(history))
    ensures RunFits(EMPTY, history)
  {
    if history != [] {
      var front, last := history[..|history| - 1], history[|history| - 1];
      assert history == front + [last];
      SoundFront(history);
      CleanPrefix(Received(front), ChunkOf(last));
      BoundedChunksFit(front);
      RunCatchesUp(front);
      assert |Run(EMPTY, front).next.Buffered()| < MAX_MSG_SZ;
    }
  }

  /**
   Chunk invariance: for every list of messages of 1..10240 bytes and every way to cut their
   frames into chunks, exactly those messages are delivered and the reader ends up empty.
   */
  lemma ChunkInvariant(msgs: seq<Bytes>, history: seq<Read>)
    requires Framable(msgs) && AllNonEmpty(msgs)
    requires Sound(history) && RunFits(EMPTY, history)
    requires Received(history) == Frames(msgs)
    ensures Run(EMPTY, history) == Outcome(EMPTY, msgs)
  {
    FramesRead(msgs);
    RunCatchesUp(history);
    assert Run(EMPTY, history).next.Rest() == [];
  }

  lemma FramesRead(msgs: seq<Bytes>)
    requires Framable(msgs) && AllNonEmpty(msgs)
    ensures var s := Frames(msgs); Parse(s) == msgs && Tail(s) == [] && Clean(s) && NoEmptyFrame(s)
  {
    ParseFrames(msgs, []);
    assert Frames(msgs) + [] == Frames(msgs) && msgs + Parse([]) == msgs;
  }

  /** Bounding the chunks is one way to stay below the 16-bit length; then nothing else is needed. */
  lemma BoundedChunkInvariant(msgs: seq<Bytes>, history: seq<Read>)
    requires Framable(msgs) && AllNonEmpty(msgs)
    requires Sound(history) && ChunksBounded(history)
    requires Received(history) == Frames(msgs)
    ensures RunFits(EMPTY, history)
    ensures Run(EMPTY, history) == Outcome(EMPTY, msgs)
  {
    FramesRead(msgs);
    BoundedChunksFit(history);
    ChunkInvariant(msgs, history);
  }

  // ----- the bypass: an oversize header turns the rest of the chunk into one message

  /** An oversize header in front, nothing else pending: the whole buffer is enqueued as it is. */
  lemma BypassStep(st: State, allocOk: bool)
    requires st.Valid() && st.Fits() && OversizeHeader(st.Rest())
    ensures Step(st, allocOk) == Outcome(EMPTY, [st.Rest()])
  {
    if st.len > 0 {
      HeaderRoundTrip(st.len, st.Buffered());
      assert false;
    }
    assert st.Rest() == st.packet.value;
  }

  lemma {:induction false} DrainBypass(st: State, alloc: seq<bool>, i: nat)
    requires st.Valid() && st.Fits() && st.Tidy() && AllSucceed(alloc)
    requires !Clean(st.Rest()) && NoEmptyFrame(st.Rest())
    ensures Drain(st, alloc, i) == Outcome(EMPTY, Parse(st.Rest()) + [Tail(st.Rest())])
    decreases st.Weight()
  {
    assert AllocAt(alloc, i);
    var r := Step(st, true);
    if HasFrame(st.Rest()) {
      FrameIsTaken(st);
      StepAccountsNow(st, true);
      LoadAccounts(st, []);
      StepShape(st, true);
      DrainBypass(r.next, alloc, i + 1);
      Assoc(r.out, Parse(r.next.Rest()), [Tail(st.Rest())]);
    } else {
      BypassStep(st, true);
      assert Step(EMPTY, AllocAt(alloc, i + 1)) == Outcome(EMPTY, []);
      assert Drain(EMPTY, alloc, i + 1) == Outcome(EMPTY, []);
    }
  }

  lemma FrameIsTaken(st: State)
    requires st.Valid() && st.Fits() && st.Tidy()
    requires HasFrame(st.Rest()) && NoEmptyFrame(st.Rest())
    ensures Step(st, true).out != []
  {
    if st.len > 0 {
      HeaderRoundTrip(st.len, st.Buffered());
    } else {
      FrontNotEmpty(st.Rest());
    }
  }

  /** `history` delivers the stream `s` in non-empty chunks, and no allocation fails. */
  predicate Carries(history: seq<Read>, s: Bytes) {
    Sound(history) && Received(history) == s
  }

  /** The deliveries of any two ways to cut `s` agree. */
  ghost predicate ChunkIndependent(s: Bytes) {
    forall h, h' :: Carries(h, s) && Carries(h', s) ==> Run(EMPTY, h).out == Run(EMPTY, h').out
  }

  /** The reader is up to date with `s` and then receives the chunk that completes an oversize header. */
  lemma ReceiveBypass(st: State, chunk: Bytes, alloc: seq<bool>, s: Bytes, out: seq<Bytes>)
    requires st.Valid() && Append(st, chunk).Fits() && chunk != [] && AllSucceed(alloc)
    requires Accounts(s, out, st.Rest() + chunk) && !Clean(s) && NoEmptyFrame(s)
    ensures var r := Receive(st, Got(chunk, alloc));
            r.next == EMPTY && out + r.out == Parse(s) + [Tail(s)]
  {
    var full := Append(st, chunk);
    assert full.Rest() == st.Rest() + chunk;
    DrainBypass(full, alloc, 0);
    Assoc(out, Parse(full.Rest()), [Tail(s)]);
  }

  /** If the chunk that completes the oversize header is the last one, it decides what is delivered. */
  lemma BypassAtEnd(front: seq<Read>, chunk: Bytes, alloc: seq<bool>)
    requires Sound(front) && chunk != [] && AllSucceed(alloc)
    requires |Received(front) + chunk| < 0x10000
    requires Clean(Received(front))
    requires !Clean(Received(front) + chunk) && NoEmptyFrame(Received(front) + chunk)
    ensures Run(EMPTY, front + [Got(chunk, alloc)])
         == Outcome(EMPTY, Parse(Received(front) + chunk) + [Tail(Received(front) + chunk)])
  {
    var s, before := Received(front) + chunk, Run(EMPTY, front);
    RunSnoc(EMPTY, front, Got(chunk, alloc));
    ShortStreamFits(front);
    RunFromEmpty(front, chunk);
    ReceiveBypass(before.next, chunk, alloc, s, before.out);
  }

  /** A stream that ends with the oversize header itself: every cut delivers the same. */
  lemma {:induction false} BypassHeaderLast(history: seq<Read>)
    requires Sound(history)
    requires |Received(history)| < 0x10000
    requires !Clean(Received(history)) && NoEmptyFrame(Received(history)) && |Tail(Received(history))| == 2
    ensures Run(EMPTY, history).out == Parse(Received(history)) + [Tail(Received(history))]
  {
    if history != [] {
      var front, last := history[..|history| - 1], history[|history| - 1];
      assert history == front + [last];
      SoundFront(history);
      RunSnoc(EMPTY, front, last);
      match last
      case NoData =>
        assert Received(history) == Received(front);
        BypassHeaderLast(front);
      case Got(chunk, alloc) =>
        ProperPrefixClean(Received(front), chunk);
        BypassAtEnd(front, chunk, alloc);
    }
  }

  lemma {:induction false} ProperPrefixClean(a: Bytes, b: Bytes)
    requires b != [] && |Tail(a + b)| == 2
    ensures Clean(a)
    decreases |a|
  {
    if HasFrame(a) {
      ExtendFront(a, b);
      ProperPrefixClean(AfterFrame(a), b);
    } else if |a| >= 2 {
      assert HeaderLen(a + b) == HeaderLen(a);
    }
  }

  /** Stopping once inside the tail, behind an oversize header, gives a different delivery. */
  lemma CutDiffers(a: Bytes, b: Bytes)
    requires |a + b| < 0x10000 && b != []
    requires !Clean(a) && !Clean(a + b) && NoEmptyFrame(a) && NoEmptyFrame(a + b)
    requires Parse(a) == Parse(a + b) && Tail(a) != Tail(a + b)
    ensures !ChunkIndependent(a + b)
  {
    var whole := OneChunk(a + b);
    var first := OneChunk(a);
    OneMore(first, a, b);
    DifferAt(Parse(a), Tail(a + b), Tail(a), Run(EMPTY, whole).out, Run(EMPTY, first + [Got(b, [])]).out);
  }

  lemma SameHeader(t: Bytes)
    requires |t| >= 2
    ensures HeaderLen(t[..2]) == HeaderLen(t)
  {
  }

  /** Cutting right behind an oversize header that is not the end delivers something else. */
  lemma BypassDepends(s: Bytes)
    requires |s| < 0x10000 && NoEmptyFrame(s)
    requires !Clean(s) && |Tail(s)| > 2
    ensures !ChunkIndependent(s)
  {
    TailHasNoFrame(s);
    var k := |s| - |Tail(s)| + 2;
    CutTail(s, 2);
    SameHeader(Tail(s));
    SplitAt(s, k);
    CutDiffers(s[..k], s[k..]);
  }

  lemma DifferAt(front: seq<Bytes>, x: Bytes, y: Bytes, out: seq<Bytes>, out': seq<Bytes>)
    requires x != y && front + [x] <= out && front + [y] <= out'
    ensures out != out'
  {
    assert out[|front|] == x && out'[|front|] == y;
  }

  /** One callback for a whole stream whose tail starts with an oversize header. */
  lemma OneChunk(s: Bytes) returns (h: seq<Read>)
    requires |s| < 0x10000 && !Clean(s) && NoEmptyFrame(s)
    ensures Carries(h, s)
    ensures Run(EMPTY, h).out == Parse(s) + [Tail(s)]
  {
    var none: seq<Read> := [];
    h := none + [Got(s, [])];
    assert Received(none) + s == s;
    RunSnoc(EMPTY, none, Got(s, []));
    BypassAtEnd(none, s, []);
  }

  lemma CarriesMore(history: seq<Read>, a: Bytes, b: Bytes)
    requires Carries(history, a) && b != []
    ensures Carries(history + [Got(b, [])], a + b)
  {
    RunSnoc(EMPTY, history, Got(b, []));
  }

  lemma OneMore(history: seq<Read>, a: Bytes, b: Bytes)
    requires Carries(history, a) && b != []
    ensures Carries(history + [Got(b, [])], a + b)
    ensures Run(EMPTY, history).out <= Run(EMPTY, history + [Got(b, [])]).out
  {
    CarriesMore(history, a, b);
    RunSnoc(EMPTY, history, Got(b, []));
  }

  /** Streams without empty frames: an oversize header matters unless the stream ends with it. */
  lemma IndependentIfNoEmptyFrame(s: Bytes)
    requires |s| < 0x10000 && NoEmptyFrame(s)
    ensures ChunkIndependent(s) <==> Clean(s) || |Tail(s)| == 2
  {
    if Clean(s) {
      forall h | Carries(h, s)
        ensures Run(EMPTY, h).out == Parse(s)
      {
        ShortStreamFits(h);
        RunCatchesUp(h);
      }
    } else if |Tail(s)| == 2 {
      forall h | Carries(h, s)
        ensures Run(EMPTY, h).out == Parse(s) + [Tail(s)]
      {
        BypassHeaderLast(h);
      }
    } else {
      BypassDepends(s);
    }
  }

  /** An empty frame in front stalls the drain loop: the message behind it waits for the next callback. */
  lemma EmptyFrameStalls(m: Bytes, alloc: seq<bool>)
    requires 0 < |m| <= MAX_MSG_SZ
    ensures Receive(EMPTY, Got(Frame([]) + Frame(m), alloc)) == Outcome(State(Some(Frame(m)), 0), [])
    ensures Parse(Frame([]) + Frame(m)) == [m]
  {
    var s := Frame([]) + Frame(m);
    assert [] + s == s;
    assert s[2..] == Frame(m);
    ParseFront([], Frame(m));
    ParseFront(m, []);
    assert Frame(m) + [] == Frame(m) && Listed([]) + Parse(Frame(m)) == Parse(Frame(m));
  }
}
