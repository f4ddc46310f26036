/**
 The incremental reader against the batch parser: what it has delivered, followed by what the
 batch parser would still find in the bytes it holds back, is always what the batch parser finds
 in all bytes received.
 */
module ReaderProofs {
  import opened Basics
  import opened Framing
  import opened Reader

  /** Delivering `out` and going on with the stream `left` amounts to reading the stream `s`. */
  ghost predicate Accounts(s: Bytes, out: seq<Bytes>, left: Bytes) {
    && out + Parse(left) == Parse(s)
    && Tail(left) == Tail(s)
    && (NoEmptyFrame(s) ==> NoEmptyFrame(left))
    && (EmptyLast(s) ==> EmptyLast(left))
  }

  lemma AccountsTrans(s: Bytes, out1: seq<Bytes>, mid: Bytes, out2: seq<Bytes>, left: Bytes)
    requires Accounts(s, out1, mid) && Accounts(mid, out2, left)
    ensures Accounts(s, out1 + out2, left)
  {
    Assoc(out1, out2, Parse(left));
  }

  lemma AccountsClean(s: Bytes, out: seq<Bytes>, left: Bytes)
    requires Accounts(s, out, left) && Clean(s)
    ensures Clean(left)
  {
  }

  lemma LoadAccounts(st: State, t: Bytes)
    requires st.Valid() && st.Fits() && !OversizeHeader(st.Rest())
    ensures Load(st).Valid() && Load(st).Fits()
    ensures Accounts(st.Rest() + t, [], Load(st).Rest() + t)
  {
    var q := Load(st);
    if q != st {
      var p := st.packet.value;
      assert st.Rest() + t == p + t;
      assert HeaderLen(p + t) == HeaderLen(p);
      HeaderOfLen(p);
      if HeaderLen(p) == 0 {
        assert q.Rest() == p[2..];
        assert AfterFrame(p + t) == p[2..] + t;
        assert Body(p + t) == [];
      } else {
        assert q.Rest() == p;
      }
    }
  }

  lemma TakeFrame(q: State, m: Bytes, next: State, t: Bytes)
    requires q.Valid() && next.Valid() && 0 < |m| <= MAX_MSG_SZ
    requires q.Rest() == Frame(m) + next.Rest()
    ensures Accounts(q.Rest() + t, [m], next.Rest() + t)
  {
    FrontFrame(m, next.Rest() + t);
    assert q.Rest() + t == Frame(m) + (next.Rest() + t);
  }

  /** Once the header is loaded, a call takes off one whole frame or changes nothing. */
  lemma StepShape(st: State, allocOk: bool)
    requires st.Valid() && st.Fits() && Load(st).Valid() && Load(st).Fits()
    ensures var q, r := Load(st), Step(st, allocOk);
            if r.out == [] then r.next == q
            else |r.out| == 1 && 0 < |r.out[0]| <= MAX_MSG_SZ && r.next.Fits() && r.next.Tidy()
                 && q.Rest() == Frame(r.out[0]) + r.next.Rest()
  {
    var q, r := Load(st), Step(st, allocOk);
    if r.out != [] {
      var p := q.packet.value;
      assert r.out[0] == p[..q.len] && r.next.Rest() == p[q.len..];
      SplitAt(p, q.len);
      Assoc(Header(q.len), p[..q.len], p[q.len..]);
    }
  }

  /** One call of the reader with no oversize header in front; `t` is what may still arrive. */
  lemma StepAccounts(st: State, allocOk: bool, t: Bytes)
    requires st.Valid() && st.Fits() && !OversizeHeader(st.Rest())
    ensures var r := Step(st, allocOk);
            r.next.Fits() && Accounts(st.Rest() + t, r.out, r.next.Rest() + t)
  {
    var q, r := Load(st), Step(st, allocOk);
    LoadAccounts(st, t);
    StepShape(st, allocOk);
    if r.out != [] {
      TakeFrame(q, r.out[0], r.next, t);
      AccountsTrans(st.Rest() + t, [], q.Rest() + t, [r.out[0]], r.next.Rest() + t);
    }
  }

  lemma StepAccountsNow(st: State, allocOk: bool)
    requires st.Valid() && st.Fits() && !OversizeHeader(st.Rest())
    ensures var r := Step(st, allocOk);
            r.next.Fits() && Accounts(st.Rest(), r.out, r.next.Rest())
  {
    StepAccounts(st, allocOk, []);
    assert st.Rest() + [] == st.Rest();
    assert Step(st, allocOk).next.Rest() + [] == Step(st, allocOk).next.Rest();
  }

  lemma {:induction false} DrainAccounts(st: State, alloc: seq<bool>, i: nat, t: Bytes)
    requires st.Valid() && st.Fits() && Clean(st.Rest())
    ensures var d := Drain(st, alloc, i);
            d.next.Fits() && Accounts(st.Rest() + t, d.out, d.next.Rest() + t)
    decreases st.Weight()
  {
    var r := Step(st, AllocAt(alloc, i));
    CleanFront(st.Rest());
    StepAccounts(st, AllocAt(alloc, i), t);
    StepAccountsNow(st, AllocAt(alloc, i));
    if r.out != [] {
      var d := Drain(r.next, alloc, i + 1);
      DrainAccounts(r.next, alloc, i + 1, t);
      AccountsTrans(st.Rest() + t, r.out, r.next.Rest() + t, d.out, d.next.Rest() + t);
    }
  }

  lemma ReceiveAccounts(st: State, rd: Read, t: Bytes)
    requires st.Valid() && st.Fits() && Append(st, ChunkOf(rd)).Fits()
    requires Clean(st.Rest() + ChunkOf(rd))
    ensures var r := Receive(st, rd);
            r.next.Fits() && Accounts(st.Rest() + (ChunkOf(rd) + t), r.out, r.next.Rest() + t)
  {
    match rd
    case NoData =>
      assert ChunkOf(rd) + t == t;
      assert [] + Parse(st.Rest() + t) == Parse(st.Rest() + t);
    case Got(chunk, alloc) =>
      assert Append(st, chunk).Rest() == st.Rest() + chunk;
      assert Append(st, chunk).Rest() + t == st.Rest() + (chunk + t);
      DrainAccounts(Append(st, chunk), alloc, 0, t);
  }

  lemma NothingMore(s: Bytes)
    ensures s + [] == s
  {
  }

  /** One callback, seen against the stream received so far: `before` was delivered earlier. */
  lemma ReceiveSafe(st: State, rd: Read, before: seq<Bytes>)
    requires st.Valid() && st.Fits() && Append(st, ChunkOf(rd)).Fits()
    requires Clean(st.Rest() + ChunkOf(rd))
    ensures var r := Receive(st, rd);
            before + r.out + Parse(r.next.Rest()) == before + Parse(st.Rest() + ChunkOf(rd))
  {
    var r := Receive(st, rd);
    ReceiveAccounts(st, rd, []);
    NothingMore(ChunkOf(rd));
    NothingMore(r.next.Rest());
    Assoc(before, r.out, Parse(r.next.Rest()));
  }

  /**
   Reader safety: whatever the chunks, and whichever allocations fail, nothing is lost,
   duplicated or reordered. `t` is what the peer may still send.
   */
  lemma {:induction false} RunAccounts(st: State, history: seq<Read>, t: Bytes)
    requires st.Valid() && st.Fits() && RunFits(st, history)
    requires Clean(st.Rest() + Received(history))
    ensures var r := Run(st, history);
            r.next.Fits() && Accounts(st.Rest() + (Received(history) + t), r.out, r.next.Rest() + t)
  {
    if history == [] {
      assert Received(history) + t == t;
    } else {
      var front, last := history[..|history| - 1], history[|history| - 1];
      var before := Run(st, front);
      var u := ChunkOf(last) + t;
      Assoc(Received(front), ChunkOf(last), t);
      Assoc(st.Rest(), Received(front), ChunkOf(last));
      CleanPrefix(st.Rest() + Received(front), ChunkOf(last));
      RunAccounts(st, front, u);
      RunAccounts(st, front, ChunkOf(last));
      AccountsClean(st.Rest() + Received(history), before.out, before.next.Rest() + ChunkOf(last));
      ReceiveAccounts(before.next, last, t);
      var r := Receive(before.next, last);
      AccountsTrans(st.Rest() + (Received(front) + u), before.out, before.next.Rest() + u, r.out, r.next.Rest() + t);
    }
  }

  // ----- a drain loop without allocation failures reads everything there is

  lemma FrontNotEmpty(s: Bytes)
    requires |s| >= 2 && NoEmptyFrame(s)
    ensures HeaderLen(s) != 0
  {
    assert HasFrame(s) ==> Body(s) == s[2..2 + HeaderLen(s)];
  }

  /** The only reason to stop with a complete frame in the buffer is an empty frame before it. */
  lemma StepStops(st: State)
    requires st.Valid() && st.Fits() && Clean(st.Rest()) && NoEmptyFrame(st.Rest())
    requires st.Tidy() && Step(st, true).out == []
    ensures Step(st, true).next.Settled()
  {
    CleanFront(st.Rest());
    LoadAccounts(st, []);
    var q := Load(st);
    assert q.packet.Some? ==> PktLen(q.packet.value) == |q.packet.value|;
    if st.len == 0 && |st.Buffered()| >= 2 {
      var p := st.packet.value;
      assert st.Rest() == p;
      FrontNotEmpty(p);
    }
  }

  lemma SettledHasNoFrame(st: State)
    requires st.Valid() && st.Settled()
    ensures Parse(st.Rest()) == [] && Tail(st.Rest()) == st.Rest() && NoEmptyFrame(st.Rest())
  {
    if st.len > 0 {
      HeaderRoundTrip(st.len, st.packet.value);
    }
  }

  lemma {:induction false} DrainSettles(st: State, alloc: seq<bool>, i: nat)
    requires st.Valid() && st.Fits() && Clean(st.Rest()) && NoEmptyFrame(st.Rest())
    requires st.Tidy() && AllSucceed(alloc)
    ensures Drain(st, alloc, i).next.Settled()
    decreases st.Weight()
  {
    var r := Step(st, AllocAt(alloc, i));
    assert AllocAt(alloc, i);
    CleanFront(st.Rest());
    if r.out == [] {
      StepStops(st);
    } else {
      StepAccountsNow(st, true);
      LoadAccounts(st, []);
      StepShape(st, true);
      DrainSettles(r.next, alloc, i + 1);
    }
  }

  /** Delivered exactly the messages of `s`, and holding back exactly what follows them. */
  ghost predicate CaughtUp(s: Bytes, out: seq<Bytes>, next: State)
    requires next.Valid()
  {
    next.Settled() && out == Parse(s) && next.Rest() == Tail(s)
  }

  lemma RunFromEmpty(history: seq<Read>, t: Bytes)
    requires RunFits(EMPTY, history) && Clean(Received(history))
    ensures var r := Run(EMPTY, history);
            r.next.Fits() && Accounts(Received(history) + t, r.out, r.next.Rest() + t)
  {
    assert EMPTY.Rest() + Received(history) == Received(history);
    assert EMPTY.Rest() + (Received(history) + t) == Received(history) + t;
    RunAccounts(EMPTY, history, t);
  }

  lemma SettledIsCaughtUp(s: Bytes, out: seq<Bytes>, next: State)
    requires next.Valid() && next.Settled() && Accounts(s, out, next.Rest())
    ensures CaughtUp(s, out, next)
  {
    SettledHasNoFrame(next);
  }

  /** A drain loop without failures catches up with the whole stream the buffer stands for. */
  lemma DrainCatchesUp(st: State, alloc: seq<bool>)
    requires st.Valid() && st.Fits() && Clean(st.Rest()) && NoEmptyFrame(st.Rest())
    requires st.Tidy() && AllSucceed(alloc)
    ensures var d := Drain(st, alloc, 0);
            Accounts(st.Rest(), d.out, d.next.Rest()) && d.next.Settled()
  {
    DrainSettles(st, alloc, 0);
    var d := Drain(st, alloc, 0);
    assert st.Rest() + [] == st.Rest() && d.next.Rest() + [] == d.next.Rest();
    DrainAccounts(st, alloc, 0, []);
  }

  lemma RunSnoc(st: State, history: seq<Read>, rd: Read)
    requires st.Valid()
    ensures Received(history + [rd]) == Received(history) + ChunkOf(rd)
    ensures Run(st, history + [rd]).next == Receive(Run(st, history).next, rd).next
    ensures Run(st, history + [rd]).out == Run(st, history).out + Receive(Run(st, history).next, rd).out
    ensures RunFits(st, history + [rd]) <==> RunFits(st, history) && Append(Run(st, history).next, ChunkOf(rd)).Fits()
  {
    assert (history + [rd])[..|history|] == history;
  }

  lemma ReceiveCatchesUp(s: Bytes, out: seq<Bytes>, st: State, chunk: Bytes, alloc: seq<bool>)
    requires st.Valid() && Append(st, chunk).Fits() && chunk != [] && AllSucceed(alloc)
    requires Accounts(s, out, st.Rest() + chunk) && Clean(s) && NoEmptyFrame(s)
    ensures var r := Receive(st, Got(chunk, alloc));
            CaughtUp(s, out + r.out, r.next)
  {
    var full := Append(st, chunk);
    assert full.Rest() == st.Rest() + chunk;
    AccountsClean(s, out, full.Rest());
    DrainCatchesUp(full, alloc);
    var d := Drain(full, alloc, 0);
    AccountsTrans(s, out, full.Rest(), d.out, d.next.Rest());
    SettledIsCaughtUp(s, out + d.out, d.next);
  }

  /**
   A failed allocation only delays: after any history, with any failures, one more callback
   whose allocations succeed brings the reader up to date with everything received.
   */
  lemma CatchUp(history: seq<Read>, chunk: Bytes, alloc: seq<bool>)
    requires chunk != [] && AllSucceed(alloc)
    requires RunFits(EMPTY, history + [Got(chunk, alloc)])
    requires Clean(Received(history) + chunk) && NoEmptyFrame(Received(history) + chunk)
    ensures var r := Run(EMPTY, history + [Got(chunk, alloc)]);
            CaughtUp(Received(history) + chunk, r.out, r.next)
  {
    RunSnoc(EMPTY, history, Got(chunk, alloc));
    var before := Run(EMPTY, history);
    CleanPrefix(Received(history), chunk);
    RunFromEmpty(history, chunk);
    ReceiveCatchesUp(Received(history) + chunk, before.out, before.next, chunk, alloc);
  }
}
