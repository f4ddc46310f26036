/**
 Streams that may contain empty frames. The drain loop stops at one, so that what stands behind it
 is delivered by a later callback, if there is one.
 */
module EmptyFrames {
  import opened Basics
  import opened Framing
  import opened Reader
  import opened ReaderProofs
  import opened ChunkInvariance
  import opened AllocFailures

  lemma {:induction false} LeadingIsLess(s: Bytes)
    ensures |Leading(s)| <= |Parse(s)|
    ensures !EmptyLast(s) ==> |Leading(s)| < |Parse(s)|
    ensures NoEmptyFrame(s) ==> EmptyLast(s)
    decreases |s|
  {
    if HasFrame(s) {
      LeadingIsLess(AfterFrame(s));
    }
  }

  // ----- no message behind an empty frame: every cut delivers all of them

  /** What a call that takes nothing leaves behind holds no message, at most empty frames. */
  lemma StepLeavesNone(st: State)
    requires st.Valid() && st.Fits() && !OversizeHeader(st.Rest()) && EmptyLast(st.Rest())
    requires Step(st, true).out == []
    ensures Parse(Step(st, true).next.Rest()) == []
  {
    StepExact(st, true);
  }

  lemma {:induction false} DrainLeavesNone(st: State, alloc: seq<bool>, i: nat)
    requires st.Valid() && st.Fits() && Clean(st.Rest()) && EmptyLast(st.Rest()) && AllSucceed(alloc)
    ensures Parse(Drain(st, alloc, i).next.Rest()) == []
    decreases st.Weight()
  {
    assert AllocAt(alloc, i);
    var r := Step(st, true);
    CleanFront(st.Rest());
    if r.out == [] {
      StepLeavesNone(st);
    } else {
      StepAccountsNow(st, true);
      DrainLeavesNone(r.next, alloc, i + 1);
    }
  }

  lemma AllLeavesNone(full: State, alloc: seq<bool>, s: Bytes, out: seq<Bytes>)
    requires full.Valid() && full.Fits() && AllSucceed(alloc)
    requires Accounts(s, out, full.Rest()) && Clean(s) && EmptyLast(s)
    ensures Parse(Drain(full, alloc, 0).next.Rest()) == []
  {
    AccountsClean(s, out, full.Rest());
    DrainLeavesNone(full, alloc, 0);
  }

  lemma AppendRest(st: State, chunk: Bytes)
    requires st.Valid()
    ensures Append(st, chunk).Valid() && Append(st, chunk).Rest() == st.Rest() + chunk
  {
  }

  lemma ReceiveLeavesNone(st: State, chunk: Bytes, alloc: seq<bool>, s: Bytes, out: seq<Bytes>)
    requires st.Valid() && Append(st, chunk).Fits() && AllSucceed(alloc)
    requires Accounts(s, out, st.Rest() + chunk) && Clean(s) && EmptyLast(s)
    ensures Parse(Receive(st, Got(chunk, alloc)).next.Rest()) == []
  {
    AppendRest(st, chunk);
    AllLeavesNone(Append(st, chunk), alloc, s, out);
  }

  lemma {:induction false} RunLeavesNone(history: seq<Read>)
    requires Sound(history) && RunFits(EMPTY, history)
    requires Clean(Received(history)) && EmptyLast(Received(history))
    ensures Parse(Run(EMPTY, history).next.Rest()) == []
  {
    if history != [] {
      var front, last := history[..|history| - 1], history[|history| - 1];
      assert history == front + [last];
      SoundFront(history);
      RunSnoc(EMPTY, front, last);
      var s, st := Received(front), Run(EMPTY, front).next;
      match last
      case NoData =>
        assert Received(history) == s;
        RunLeavesNone(front);
      case Got(chunk, alloc) =>
        CleanPrefix(s, chunk);
        RunFromEmpty(front, chunk);
        ReceiveLeavesNone(st, chunk, alloc, s + chunk, Run(EMPTY, front).out);
    }
  }

  /** The weakest condition on a stream without oversize headers: then every cut delivers every message. */
  lemma RunDeliversAll(history: seq<Read>)
    requires Sound(history) && |Received(history)| < 0x10000
    requires Clean(Received(history)) && EmptyLast(Received(history))
    ensures Run(EMPTY, history).out == Parse(Received(history))
  {
    ShortStreamFits(history);
    RunLeavesNone(history);
    RunFromEmpty(history, []);
    NothingMore(Received(history));
    NothingMore(Run(EMPTY, history).next.Rest());
  }

  // ----- one callback for everything: only what precedes the first empty frame

  lemma {:induction false} DrainStopsAtEmpty(st: State, alloc: seq<bool>, i: nat)
    requires st.Valid() && st.Fits() && !NoEmptyFrame(st.Rest()) && AllSucceed(alloc)
    ensures Drain(st, alloc, i).out == Leading(st.Rest())
    decreases st.Weight()
  {
    assert AllocAt(alloc, i);
    var r := Step(st, true);
    assert HasFrame(st.Rest());
    if Body(st.Rest()) == [] {
      EmptyFrame(st, true);
    } else {
      FullFrame(st, true);
      DrainStopsAtEmpty(r.next, alloc, i + 1);
    }
  }

  lemma WholeAtOnce(s: Bytes) returns (h: seq<Read>)
    requires |s| < 0x10000 && !NoEmptyFrame(s)
    ensures Carries(h, s)
    ensures Run(EMPTY, h).out == Leading(s)
  {
    var none: seq<Read> := [];
    h := none + [Got(s, [])];
    NothingBefore(s);
    CarriesMore(none, [], s);
    RunSnoc(EMPTY, none, Got(s, []));
    DrainStopsAtEmpty(Append(EMPTY, s), [], 0);
  }

  lemma NothingBefore(s: Bytes)
    ensures [] + s == s && Append(EMPTY, s).Rest() == s
  {
  }

  // ----- one byte at a time: everything, always

  function OneByOne(s: Bytes): seq<Read> {
    if s == [] then [] else OneByOne(s[..|s| - 1]) + [Got([s[|s| - 1]], [])]
  }

  /** One more byte completes at most one frame, and then nothing follows it. */
  lemma OneByteMore(st: State, b: Byte)
    requires st.Valid() && !HasFrame(st.Rest())
    requires Append(st, [b]).Fits() && !OversizeHeader(st.Rest() + [b])
    ensures !HasFrame(Receive(st, Got([b], [])).next.Rest())
  {
    var full := Append(st, [b]);
    var s := st.Rest() + [b];
    assert full.Rest() == s;
    assert AllocAt([], 0) && AllocAt([], 1);
    if !HasFrame(s) {
      NoFrame(full, true);
    } else {
      LastOfFrame(st.Rest(), b);
      if Body(s) == [] {
        EmptyFrame(full, true);
        assert |s| == 2;
      } else {
        FullFrame(full, true);
        NothingToTake(Step(full, true).next);
      }
    }
  }

  lemma ByteOf(s: Bytes, out: seq<Bytes>, st: State, b: Byte)
    requires st.Valid() && !HasFrame(st.Rest()) && Append(st, [b]).Fits()
    requires Accounts(s, out, st.Rest() + [b]) && Clean(s)
    ensures !HasFrame(Receive(st, Got([b], [])).next.Rest())
  {
    OneByteMore(st, b);
  }

  lemma LastOfFrame(s: Bytes, b: Byte)
    requires !HasFrame(s) && HasFrame(s + [b])
    ensures AfterFrame(s + [b]) == []
  {
    if |s| >= 2 {
      assert HeaderLen(s + [b]) == HeaderLen(s);
    }
  }

  lemma NothingToTake(st: State)
    requires st.Valid() && st.Rest() == []
    ensures Drain(st, [], 1) == Outcome(st, [])
  {
  }

  lemma OneByOneDelivers(s: Bytes)
    requires |s| < 0x10000 && Clean(s)
    ensures Carries(OneByOne(s), s)
    ensures Run(EMPTY, OneByOne(s)).out == Parse(s)
    ensures Run(EMPTY, OneByOne(s)).next.Rest() == Tail(s)
  {
    OneByOneCarries(s);
    OneByOneSettles(s);
    ShortStreamFits(OneByOne(s));
    RunFromEmpty(OneByOne(s), []);
    NothingMore(s);
    NothingMore(Run(EMPTY, OneByOne(s)).next.Rest());
  }

  lemma {:induction false} OneByOneCarries(s: Bytes)
    ensures Carries(OneByOne(s), s)
  {
    if s != [] {
      var front, b := s[..|s| - 1], s[|s| - 1];
      OneByOneCarries(front);
      CarriesMore(OneByOne(front), front, [b]);
      assert front + [b] == s;
    }
  }

  lemma {:induction false} OneByOneSettles(s: Bytes)
    requires |s| < 0x10000 && Clean(s)
    ensures !HasFrame(Run(EMPTY, OneByOne(s)).next.Rest())
  {
    if s != [] {
      var front, b := s[..|s| - 1], s[|s| - 1];
      assert s == front + [b];
      CleanPrefix(front, [b]);
      OneByOneSettles(front);
      OneByOneCarries(front);
      ByteMore(OneByOne(front), front, b);
    }
  }

  lemma ByteMore(history: seq<Read>, s: Bytes, b: Byte)
    requires Carries(history, s) && |s + [b]| < 0x10000 && Clean(s) && Clean(s + [b])
    requires !HasFrame(Run(EMPTY, history).next.Rest())
    ensures !HasFrame(Run(EMPTY, history + [Got([b], [])]).next.Rest())
  {
    ShortStreamFits(history);
    RunFromEmpty(history, [b]);
    RunSnoc(EMPTY, history, Got([b], []));
    ByteOf(s + [b], Run(EMPTY, history).out, Run(EMPTY, history).next, b);
  }

  // ----- empty frames and an oversize header

  lemma TailParts(s: Bytes)
    requires 2 <= |Tail(s)| <= |s| && s[|s| - |Tail(s)|..] == Tail(s)
    ensures var b := Tail(s)[1];
            && Tail(s)[..1] + [b] == Tail(s)[..2]
            && s == CutAt(s, 1) + [b] + Tail(s)[2..]
  {
    var k := |s| - |Tail(s)|;
    assert s == s[..k] + Tail(s);
    assert CutAt(s, 1) == s[..k] + Tail(s)[..1];
  }

  /** Byte by byte up to the oversize header, everything in front of it is delivered and then the header. */
  lemma HeaderAfterAll(s: Bytes, front: Bytes, b: Byte) returns (h: seq<Read>)
    requires |s| < 0x10000 && !Clean(s) && |Tail(s)| <= |s|
    requires front == CutAt(s, 1) && |front + [b]| <= |s|
    requires Tail(s)[..1] + [b] == Tail(s)[..2]
    ensures Carries(h, front + [b])
    ensures |Run(EMPTY, h).out| > |Parse(s)|
  {
    CutTail(s, 1);
    OneByOneDelivers(front);
    HeaderNext(OneByOne(front), front, b, Tail(s));
    h := OneByOne(front) + [Got([b], [])];
  }

  lemma HeaderNext(history: seq<Read>, front: Bytes, b: Byte, t: Bytes)
    requires Carries(history, front) && OversizeHeader(t) && Run(EMPTY, history).next.Rest() + [b] == t[..2]
    ensures Carries(history + [Got([b], [])], front + [b])
    ensures |Run(EMPTY, history + [Got([b], [])]).out| == |Run(EMPTY, history).out| + 1
  {
    HeaderPassed(Run(EMPTY, history).next, b, t);
    RunSnoc(EMPTY, history, Got([b], []));
  }

  lemma BypassAfterAll(s: Bytes) returns (h: seq<Read>)
    requires |s| < 0x10000 && !Clean(s)
    ensures Carries(h, s)
    ensures |Run(EMPTY, h).out| > |Parse(s)|
  {
    TailHasNoFrame(s);
    TailParts(s);
    var front, b, t := CutAt(s, 1), Tail(s)[1], Tail(s)[2..];
    h := HeaderAfterAll(s, front, b);
    if t == [] {
      NothingMore(front + [b]);
    } else {
      OneMore(h, front + [b], t);
      h := h + [Got(t, [])];
    }
  }

  lemma HeaderPassed(st: State, b: Byte, t: Bytes)
    requires st.Valid() && OversizeHeader(t) && st.Rest() + [b] == t[..2]
    ensures |Receive(st, Got([b], [])).out| == 1
  {
    var full := Append(st, [b]);
    SameHeader(t);
    assert full.Rest() == st.Rest() + [b];
    DrainBypass(full, [], 0);
  }

  // ----- exactly when the chunks make no difference

  /**
   For every stream below 64 KiB: the deliveries do not depend on how it is cut if and only if
   no message stands behind an empty frame or, where an oversize header is met, there is no empty
   frame at all and the stream ends with that header.
   */
  lemma ChunkIndependentIff(s: Bytes)
    requires |s| < 0x10000
    ensures ChunkIndependent(s) <==> if Clean(s) then EmptyLast(s) else NoEmptyFrame(s) && |Tail(s)| == 2
  {
    LeadingIsLess(s);
    if NoEmptyFrame(s) {
      IndependentIfNoEmptyFrame(s);
    } else if !Clean(s) {
      var whole := WholeAtOnce(s);
      var h := BypassAfterAll(s);
    } else if EmptyLast(s) {
      forall h | Carries(h, s)
        ensures Run(EMPTY, h).out == Parse(s)
      {
        RunDeliversAll(h);
      }
    } else {
      var whole := WholeAtOnce(s);
      OneByOneDelivers(s);
    }
  }
}
