/**
 What the reader does when memory is short, read off the stream alone. Only a message with more
 bytes behind it needs a new mbuf; the last one in the buffer is handed over as it is.
 */
module AllocFailures {
  import opened Basics
  import opened Framing
  import opened Reader
  import opened ReaderProofs
  import opened ChunkInvariance

  /** What one call delivers when the stream in hand is `s`. */
  function OneDelivered(s: Bytes, allocOk: bool): seq<Bytes> {
    if OversizeHeader(s) then [s]
    else if HasFrame(s) && Body(s) != [] && (allocOk || AfterFrame(s) == []) then [Body(s)]
    else []
  }

  /** What it leaves; an empty frame is taken off without a message. */
  function OneRetained(s: Bytes, allocOk: bool): Bytes {
    if OversizeHeader(s) then []
    else if HasFrame(s) && (allocOk || AfterFrame(s) == [] || Body(s) == []) then AfterFrame(s)
    else s
  }

  /** One call, for either outcome of the allocation and any buffer. */
  lemma StepExact(st: State, allocOk: bool)
    requires st.Valid() && st.Fits()
    ensures var s, r := st.Rest(), Step(st, allocOk);
            && r.out == OneDelivered(s, allocOk) && r.next.Rest() == OneRetained(s, allocOk) && r.next.Fits()
            && (r.out != [] && r.next.Rest() == [] && !allocOk ==> r.next == EMPTY)
  {
    var s := st.Rest();
    if OversizeHeader(s) {
      BypassStep(st, allocOk);
    } else if !HasFrame(s) {
      NoFrame(st, allocOk);
    } else if Body(s) == [] {
      EmptyFrame(st, allocOk);
    } else {
      FullFrame(st, allocOk);
    }
  }

  /** An incomplete frame stays. */
  lemma NoFrame(st: State, allocOk: bool)
    requires st.Valid() && st.Fits() && !HasFrame(st.Rest()) && !OversizeHeader(st.Rest())
    ensures var r := Step(st, allocOk); r.out == [] && r.next.Rest() == st.Rest() && r.next.Fits()
  {
    if st.len > 0 {
      HeaderRoundTrip(st.len, st.Buffered());
    } else if |st.Buffered()| >= 2 {
      HeaderOfLen(st.Buffered());
    }
  }

  /** An empty frame in front is taken off, and the call reports nothing. */
  lemma EmptyFrame(st: State, allocOk: bool)
    requires st.Valid() && st.Fits() && HasFrame(st.Rest()) && Body(st.Rest()) == []
    ensures var r := Step(st, allocOk); r.out == [] && r.next.Rest() == AfterFrame(st.Rest()) && r.next.Fits()
  {
    if st.len > 0 {
      HeaderRoundTrip(st.len, st.Buffered());
    } else {
      assert HeaderLen(st.Buffered()) == 0;
    }
  }

  /** With the header loaded, the message is the first `len` bytes of the buffer. */
  lemma Loaded(st: State)
    requires st.Valid() && st.Fits() && HasFrame(st.Rest()) && Body(st.Rest()) != []
    ensures var q, s := Load(st), st.Rest();
            && q.Valid() && q.Fits() && q.Rest() == s && q.packet.Some? && q.len == |Body(s)| <= |q.packet.value|
            && Body(s) == q.packet.value[..q.len] && AfterFrame(s) == q.packet.value[q.len..]
  {
    var q, s := Load(st), st.Rest();
    LoadAccounts(st, []);
    if st.len > 0 {
      HeaderRoundTrip(st.len, st.Buffered());
    } else {
      HeaderOfLen(st.Buffered());
    }
    assert q.len == HeaderLen(s);
    assert s == Header(q.len) + q.packet.value;
  }

  /** A complete message in front: taken if it is all there is, or if it can be copied. */
  lemma FullFrame(st: State, allocOk: bool)
    requires st.Valid() && st.Fits() && HasFrame(st.Rest()) && Body(st.Rest()) != []
    ensures var s, r := st.Rest(), Step(st, allocOk);
            && r.next.Fits()
            && (if AfterFrame(s) == [] then r == Outcome(EMPTY, [Body(s)])
                else if allocOk then r.out == [Body(s)] && r.next.Rest() == AfterFrame(s)
                else r.out == [] && r.next.Rest() == s)
  {
    Loaded(st);
    StepFromLoaded(st, allocOk, Load(st).packet.value, Load(st).len);
  }

  lemma StepFromLoaded(st: State, allocOk: bool, p: Bytes, n: nat)
    requires st.Valid() && Load(st) == State(Some(p), n) && 0 < n <= |p| < 0x10000
    ensures var r := Step(st, allocOk);
            if p[n..] == [] then r == Outcome(EMPTY, [p[..n]])
            else if allocOk then r == Outcome(State(Some(p[n..]), 0), [p[..n]])
            else r == Outcome(Load(st), [])
  {
    assert |p| == n ==> p[..n] == p;
    assert |p[n..]| == |p| - n;
  }

  // ----- one callback

  /** The messages that a drain loop delivers, when its i-th call comes next. */
  function Delivered(s: Bytes, alloc: seq<bool>, i: nat): seq<Bytes>
    decreases |s|
  {
    var out := OneDelivered(s, AllocAt(alloc, i));
    if out == [] then [] else out + Delivered(OneRetained(s, AllocAt(alloc, i)), alloc, i + 1)
  }

  /** The stream that it leaves for the next callback. */
  function Retained(s: Bytes, alloc: seq<bool>, i: nat): Bytes
    decreases |s|
  {
    var next := OneRetained(s, AllocAt(alloc, i));
    if OneDelivered(s, AllocAt(alloc, i)) == [] then next else Retained(next, alloc, i + 1)
  }

  /** The drain loop delivers and leaves exactly that, whatever the buffer and the allocations. */
  lemma {:induction false} DrainExact(st: State, alloc: seq<bool>, i: nat)
    requires st.Valid() && st.Fits()
    ensures var d := Drain(st, alloc, i);
            d.out == Delivered(st.Rest(), alloc, i) && d.next.Rest() == Retained(st.Rest(), alloc, i) && d.next.Fits()
    decreases st.Weight()
  {
    var r := Step(st, AllocAt(alloc, i));
    StepExact(st, AllocAt(alloc, i));
    if r.out != [] {
      DrainExact(r.next, alloc, i + 1);
    }
  }

  /** A failed read changes nothing; a chunk is drained together with what was held back. */
  lemma ReceiveExact(st: State, rd: Read)
    requires st.Valid() && Append(st, ChunkOf(rd)).Fits()
    ensures rd.NoData? ==> Receive(st, rd) == Outcome(st, [])
    ensures rd.Got? ==>
              var s := st.Rest() + rd.chunk;
              && Receive(st, rd).out == Delivered(s, rd.alloc, 0)
              && Receive(st, rd).next.Rest() == Retained(s, rd.alloc, 0)
  {
    if rd.Got? {
      assert Append(st, rd.chunk).Rest() == st.Rest() + rd.chunk;
      DrainExact(Append(st, rd.chunk), rd.alloc, 0);
    }
  }

  // ----- how far a callback gets

  /** The messages in front of the first empty frame. */
  function Leading(s: Bytes): seq<Bytes>
    decreases |s|
  {
    if HasFrame(s) && Body(s) != [] then [Body(s)] + Leading(AfterFrame(s)) else []
  }

  /** The stream behind the first j of them. */
  function Behind(s: Bytes, j: nat): Bytes
    requires j <= |Leading(s)|
    decreases j
  {
    if j == 0 then s else Behind(AfterFrame(s), j - 1)
  }

  /** Nothing stands in the way of the j-th of them: it can be copied, or need not be. */
  predicate Passes(s: Bytes, alloc: seq<bool>, i: nat, j: nat)
    requires j < |Leading(s)|
  {
    AllocAt(alloc, i + j) || Behind(s, j + 1) == []
  }

  predicate AllPass(s: Bytes, alloc: seq<bool>, i: nat, k: nat)
    requires k <= |Leading(s)|
  {
    forall j :: 0 <= j < k ==> Passes(s, alloc, i, j)
  }

  /** What follows once all of them are delivered: an oversize header makes a message of the rest. */
  function Bypassed(s: Bytes): seq<Bytes> {
    if OversizeHeader(s) then [s] else []
  }

  /** What is left of it then: nothing after a bypass, and an empty frame is taken off. */
  function Left(s: Bytes): Bytes {
    if OversizeHeader(s) then [] else if HasFrame(s) then AfterFrame(s) else s
  }

  /** A callback delivers the first k messages, why it gets no further, and what it leaves. */
  predicate UntilFailure(s: Bytes, alloc: seq<bool>, i: nat, k: nat) {
    && k <= |Leading(s)| && AllPass(s, alloc, i, k)
    && (if k < |Leading(s)|
        then !Passes(s, alloc, i, k) && Delivered(s, alloc, i) == Leading(s)[..k] && Retained(s, alloc, i) == Behind(s, k)
        else Delivered(s, alloc, i) == Leading(s) + Bypassed(Behind(s, k))
             && Retained(s, alloc, i) == Left(Behind(s, k)))
  }

  /**
   Exactly which messages one callback delivers: all up to the first failing allocation that is
   needed, and none that is not.
   */
  lemma {:induction false} DeliveredUntilFailure(s: Bytes, alloc: seq<bool>, i: nat) returns (k: nat)
    ensures UntilFailure(s, alloc, i, k)
    decreases |s|
  {
    if !HasFrame(s) || Body(s) == [] {
      k := 0;
      NothingAfter(s, alloc, i);
    } else if AllocAt(alloc, i) || AfterFrame(s) == [] {
      k := DeliveredUntilFailure(AfterFrame(s), alloc, i + 1);
      FirstPasses(s, AfterFrame(s), alloc, i, k);
      k := k + 1;
    } else {
      k := 0;
      assert Behind(s, 1) == Behind(AfterFrame(s), 0);
    }
  }

  lemma NothingAfter(s: Bytes, alloc: seq<bool>, i: nat)
    requires !HasFrame(s) || Body(s) == []
    ensures Delivered(s, alloc, i) == Bypassed(s) && Retained(s, alloc, i) == Left(s)
  {
    if OversizeHeader(s) {
      assert Delivered([], alloc, i + 1) == [] && Retained([], alloc, i + 1) == [];
    }
  }

  /** One message that passes, in front of the others. */
  lemma FirstPasses(s: Bytes, rest: Bytes, alloc: seq<bool>, i: nat, k: nat)
    requires HasFrame(s) && Body(s) != [] && rest == AfterFrame(s) && (AllocAt(alloc, i) || rest == [])
    requires UntilFailure(rest, alloc, i + 1, k)
    ensures UntilFailure(s, alloc, i, k + 1)
  {
    PassesShift(s, rest, alloc, i, k);
    if k < |Leading(rest)| {
      ConsCut(Body(s), Leading(rest), k);
    } else {
      Assoc([Body(s)], Leading(rest), Bypassed(Behind(rest, k)));
    }
  }

  lemma PassesShift(s: Bytes, rest: Bytes, alloc: seq<bool>, i: nat, k: nat)
    requires HasFrame(s) && Body(s) != [] && rest == AfterFrame(s) && (AllocAt(alloc, i) || rest == [])
    requires k <= |Leading(rest)| && AllPass(rest, alloc, i + 1, k)
    ensures AllPass(s, alloc, i, k + 1) && Behind(s, k + 1) == Behind(rest, k)
    ensures k < |Leading(rest)| ==> (Passes(s, alloc, i, k + 1) <==> Passes(rest, alloc, i + 1, k))
  {
    forall j | 0 <= j < k + 1
      ensures Passes(s, alloc, i, j)
    {
      if j > 0 {
        assert Passes(rest, alloc, i + 1, j - 1);
        assert Behind(s, j + 1) == Behind(rest, j);
      } else {
        assert Behind(s, 1) == Behind(rest, 0);
      }
    }
  }

  lemma ConsCut<T>(x: T, a: seq<T>, k: nat)
    requires k <= |a|
    ensures ([x] + a)[..k + 1] == [x] + a[..k]
  {
  }
}
