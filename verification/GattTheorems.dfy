/** What holds of the registry over whole histories of add and clear requests. */
module GattTheorems {
  import opened Basics
  import opened Gatt
  import opened GattPools
  import opened GattLayout
  import opened GattWalk

  // ----- one add request

  /** An accepted batch is laid out from the old counters on and disturbs nothing before them. */
  lemma AddLayout(p: Pools, ss: seq<Svc>)
    requires p.Shape() && Verify(p.used, ss).Ok?
    ensures var q := Add(p, ss);
            && q.used == AfterBatch(p.used, ss) && q.used.Within()
            && Agree(p, q, p.used) && AgreePast(p, q, q.used) && SvcsAt(q, p.used, ss)
            && (Sealed(q, p.used, ss) <==> Sealed(p, p.used, ss))
            && q.svcs[q.used.ns - 1] == p.svcs[q.used.ns - 1]
  {
    VerifySound(p.used, ss);
    var f, q := SaveSvcs(p, ss), SaveBatch(p, ss);
    SaveSvcsLayout(p, ss);
    assert Agree(f, q, f.used) && Agree(q, f, f.used);
    SvcsFrame(f, q, p.used, ss);
    SvcsFrame(q, f, p.used, ss);
  }

  /**
   The exact condition for an accepted batch to be registered as requested: the slots and
   pointers it leaves as terminators, but does not write, are null beforehand. It covers pools
   with leftovers from before a clear.
   */
  lemma AddDecodesIff(p: Pools, ss: seq<Svc>)
    requires Live(p) && Verify(p.used, ss).Ok? && Typed(ss)
    ensures WalkSvcs(Add(p, ss), p.used.ns) == Some(ss) <==> Sealed(p, p.used, ss)
  {
    AddLayout(p, ss);
    AddLive(p, ss);
    BatchWalk(Add(p, ss), p.used, ss);
  }

  // ----- pools that are null past the counters

  ghost predicate NullPast(p: Pools) {
    && p.Shape()
    && (forall i :: p.used.ns <= i < MAX_SVCS ==> p.svcs[i] == NO_SVC)
    && (forall i :: p.used.nc <= i < MAX_CHRS ==> p.chrs[i] == NO_CHR)
    && (forall i :: p.used.nd <= i < MAX_DSCS ==> p.dscs[i] == NO_DSC)
  }

  lemma {:induction false} NullChrsSealed(p: Pools, k: Cursor, cs: seq<Chr>)
    requires NullPast(p) && p.used.AtMost(k) && AfterChrs(k, cs).Within()
    ensures ChrsSealed(p, k, cs)
  {
    if cs != [] {
      NullChrsSealed(p, k, cs[..|cs| - 1]);
    }
  }

  lemma {:induction false} NullSvcsSealed(p: Pools, k: Cursor, ss: seq<Svc>)
    requires NullPast(p) && p.used.AtMost(k) && AfterSvcs(k, ss).Within()
    ensures SvcsSealed(p, k, ss)
  {
    if ss != [] {
      NullSvcsSealed(p, k, ss[..|ss| - 1]);
      NullSvcSealed(p, AfterSvcs(k, ss[..|ss| - 1]), ss[|ss| - 1]);
    }
  }

  lemma NullSvcSealed(p: Pools, k: Cursor, s: Svc)
    requires NullPast(p) && p.used.AtMost(k) && AfterSvc(k, s).Within()
    ensures SvcSealed(p, k, s)
  {
    NullChrsSealed(p, InSvc(k), s.chrs);
  }

  /** A batch accepted into such pools is laid out and sealed. */
  lemma FreshAddSealed(p: Pools, ss: seq<Svc>)
    requires NullPast(p) && Verify(p.used, ss).Ok?
    ensures var q := Add(p, ss);
            && q.used == AfterBatch(p.used, ss) && SvcsAt(q, p.used, ss) && Sealed(q, p.used, ss)
            && q.svcs[q.used.ns - 1] == NO_SVC
  {
    VerifySound(p.used, ss);
    NullSvcsSealed(p, p.used, ss);
    AddLayout(p, ss);
  }

  /** Into pools that are null past the counters every accepted batch is registered as requested. */
  lemma FreshAddDecodes(p: Pools, ss: seq<Svc>)
    requires Live(p) && NullPast(p) && Verify(p.used, ss).Ok? && Typed(ss)
    ensures WalkSvcs(Add(p, ss), p.used.ns) == Some(ss)
  {
    VerifySound(p.used, ss);
    NullSvcsSealed(p, p.used, ss);
    AddDecodesIff(p, ss);
  }

  lemma AddNullPast(p: Pools, ss: seq<Svc>)
    requires NullPast(p)
    ensures NullPast(Add(p, ss))
  {
    if Verify(p.used, ss).Ok? {
      AddLayout(p, ss);
    }
  }

  // ----- histories without a clear

  predicate NoClear(es: seq<Event>) {
    forall i :: 0 <= i < |es| ==> !es[i].ClearSvcs?
  }

  lemma {:induction false} RunNullPast(p: Pools, es: seq<Event>)
    requires NullPast(p) && NoClear(es)
    ensures NullPast(Run(p, es))
  {
    if es != [] {
      RunNullPast(p, es[..|es| - 1]);
      if es[|es| - 1].AddSvcs? {
        AddNullPast(Run(p, es[..|es| - 1]), es[|es| - 1].svcs);
      }
    }
  }

  lemma StepAgrees(p: Pools, e: Event)
    requires p.Shape() && p.used.Within() && !e.ClearSvcs?
    ensures Agree(p, Apply(p, e), p.used) && p.used.AtMost(Apply(p, e).used) && Apply(p, e).used.Within()
  {
    if e.AddSvcs? && Verify(p.used, e.svcs).Ok? {
      AddLayout(p, e.svcs);
    }
  }

  /** Everything below the counters after i events is still there after all of them. */
  lemma {:induction false} RunAgrees(p: Pools, es: seq<Event>, i: nat)
    requires p.Shape() && p.used.Within() && NoClear(es) && i <= |es|
    ensures var mid, last := Run(p, es[..i]), Run(p, es);
            mid.used.Within() && mid.used.AtMost(last.used) && last.used.Within() && Agree(mid, last, mid.used)
    decreases |es|
  {
    if i == |es| {
      assert es[..i] == es;
      if es != [] {
        RunAgrees(p, es[..|es| - 1], |es| - 1);
        assert es[..|es| - 1][..|es| - 1] == es[..|es| - 1];
        StepAgrees(Run(p, es[..|es| - 1]), es[|es| - 1]);
      }
    } else {
      var front := es[..|es| - 1];
      assert front[..i] == es[..i];
      RunAgrees(p, front, i);
      StepAgrees(Run(p, front), es[|es| - 1]);
    }
  }

  /** A batch accepted at some point of a history is still laid out and sealed at its end. */
  lemma BatchAtEnd(p: Pools, es: seq<Event>, i: nat)
    requires NullPast(p) && p.used.Within() && NoClear(es) && i < |es| && es[i].AddSvcs?
    requires Verify(Run(p, es[..i]).used, es[i].svcs).Ok?
    ensures var k := Run(p, es[..i]).used;
            && AfterBatch(k, es[i].svcs).Within() && Run(p, es[..i + 1]).used == AfterBatch(k, es[i].svcs)
            && SvcsAt(Run(p, es), k, es[i].svcs) && Sealed(Run(p, es), k, es[i].svcs)
  {
    var before, after, last := Run(p, es[..i]), Run(p, es[..i + 1]), Run(p, es);
    var k, ss := before.used, es[i].svcs;
    assert es[..i + 1][..i] == es[..i];
    assert after == Add(before, ss);
    RunNullPast(p, es[..i]);
    FreshAddSealed(before, ss);
    RunAgrees(p, es, i + 1);
    BatchStays(after, last, k, ss);
  }

  /** A batch accepted at some point of a history still reads back as requested at its end. */
  lemma RunDecodes(p: Pools, es: seq<Event>, i: nat)
    requires Live(p) && NullPast(p) && p.used.Within() && NoClear(es)
    requires i < |es| && es[i].AddSvcs? && Typed(es[i].svcs)
    requires Verify(Run(p, es[..i]).used, es[i].svcs).Ok?
    ensures WalkSvcs(Run(p, es), Run(p, es[..i]).used.ns) == Some(es[i].svcs)
  {
    BatchAtEnd(p, es, i);
    RunLive(p, es);
    BatchWalk(Run(p, es), Run(p, es[..i]).used, es[i].svcs);
  }

  lemma BatchStays(p: Pools, q: Pools, k: Cursor, ss: seq<Svc>)
    requires Agree(p, q, AfterBatch(k, ss)) && SvcsAt(p, k, ss) && Sealed(p, k, ss)
    ensures SvcsAt(q, k, ss) && Sealed(q, k, ss)
  {
    assert Agree(p, q, AfterSvcs(k, ss));
    SvcsFrame(p, q, k, ss);
  }

  // ----- across a clear

  /** After a clear the terminators of the batch registered first are still where they were. */
  lemma ClearKeepsSealed(p: Pools, ss: seq<Svc>)
    requires NullPast(p) && p.used.ns == p.used.nc == p.used.nd == 0
    requires Verify(p.used, ss).Ok?
    ensures var q := Clear(Add(p, ss)); Sealed(q, q.used, ss)
  {
    FreshAddSealed(p, ss);
    SealedMoves(Add(p, ss), Clear(Add(p, ss)), p.used, Clear(Add(p, ss)).used, ss);
  }

  /** Registering the same batch again after a clear gives the same registry. */
  lemma ClearThenSame(p: Pools, ss: seq<Svc>)
    requires Live(p) && NullPast(p) && p.used.ns == p.used.nc == p.used.nd == p.used.nu == p.used.nv == 0
    requires Verify(p.used, ss).Ok? && Typed(ss)
    ensures WalkSvcs(Add(Clear(Add(p, ss)), ss), 0) == Some(ss)
  {
    ClearKeepsSealed(p, ss);
    AddLive(p, ss);
    VerifyMoves(p.used, Clear(Add(p, ss)).used, ss);
    ClearedDecodes(Add(p, ss), ss);
  }

  lemma VerifyMoves(k: Cursor, l: Cursor, ss: seq<Svc>)
    requires SamePlace(k, l) && k.nu == l.nu && k.nv == l.nv
    ensures Verify(k, ss) == Verify(l, ss)
  {
  }

  /** Add after a clear, over whatever is left in the pools. */
  lemma ClearedDecodes(p: Pools, ss: seq<Svc>)
    requires Live(p) && Typed(ss) && Verify(Clear(p).used, ss).Ok?
    ensures WalkSvcs(Add(Clear(p), ss), 0) == Some(ss) <==> Sealed(Clear(p), Clear(p).used, ss)
  {
    AddDecodesIff(Clear(p), ss);
  }

  /** Being sealed depends on the five counters only, not on the event sequence. */
  lemma SealedMoves(p: Pools, q: Pools, k: Cursor, l: Cursor, ss: seq<Svc>)
    requires p.svcs == q.svcs && p.chrs == q.chrs && p.dscs == q.dscs
    requires SamePlace(k, l)
    ensures Sealed(p, k, ss) <==> Sealed(q, l, ss)
  {
    SvcsSealedMoves(p, q, k, l, ss);
  }

  /** The counters of two cursors that decide where terminators lie are the same. */
  predicate SamePlace(k: Cursor, l: Cursor) {
    k.ns == l.ns && k.nc == l.nc && k.nd == l.nd
  }

  lemma ChrSealedMoves(p: Pools, q: Pools, k: Cursor, l: Cursor, c: Chr)
    requires p.chrs == q.chrs && p.dscs == q.dscs && SamePlace(k, l)
    ensures ChrSealed(p, k, c) <==> ChrSealed(q, l, c)
  {
  }

  lemma {:induction false} ChrsSealedMoves(p: Pools, q: Pools, k: Cursor, l: Cursor, cs: seq<Chr>)
    requires p.chrs == q.chrs && p.dscs == q.dscs && SamePlace(k, l)
    ensures ChrsSealed(p, k, cs) <==> ChrsSealed(q, l, cs)
  {
    if cs != [] {
      var front, last := cs[..|cs| - 1], cs[|cs| - 1];
      var k', l' := AfterChrs(k, front), AfterChrs(l, front);
      assert SamePlace(k', l');
      ChrsSealedMoves(p, q, k, l, front);
      ChrSealedMoves(p, q, k', l', last);
      assert ChrsSealed(p, k, cs) <==> ChrsSealed(p, k, front) && ChrSealed(p, k', last);
    }
  }

  lemma SvcSealedMoves(p: Pools, q: Pools, k: Cursor, l: Cursor, s: Svc)
    requires p.svcs == q.svcs && p.chrs == q.chrs && p.dscs == q.dscs && SamePlace(k, l)
    ensures SvcSealed(p, k, s) <==> SvcSealed(q, l, s)
  {
    ChrsSealedMoves(p, q, InSvc(k), InSvc(l), s.chrs);
  }

  lemma {:induction false} SvcsSealedMoves(p: Pools, q: Pools, k: Cursor, l: Cursor, ss: seq<Svc>)
    requires p.svcs == q.svcs && p.chrs == q.chrs && p.dscs == q.dscs && SamePlace(k, l)
    ensures SvcsSealed(p, k, ss) <==> SvcsSealed(q, l, ss)
  {
    if ss != [] {
      var front, last := ss[..|ss| - 1], ss[|ss| - 1];
      var k', l' := AfterSvcs(k, front), AfterSvcs(l, front);
      assert SamePlace(k', l');
      SvcsSealedMoves(p, q, k, l, front);
      SvcSealedMoves(p, q, k', l', last);
      assert SvcsSealed(p, k, ss) <==> SvcsSealed(p, k, front) && SvcSealed(p, k', last);
    }
  }
}
