/** Committing after a history of add requests. */
module GattCommitRuns {
  import opened Basics
  import opened Gatt
  import opened GattPools
  import opened GattWalk
  import opened GattTheorems
  import opened GattCommit

  /** Nothing registered, and null pools. */
  ghost predicate Fresh(p: Pools) {
    && NullPast(p) && Live(p)
    && p.used.ns == p.used.nc == p.used.nd == p.used.nu == p.used.nv == 0
  }

  lemma StartIsFresh(us: seq<Uuid>, seqNo: nat)
    requires |us| == MAX_UUIDS
    ensures Fresh(Initial(us, seqNo))
  {
  }

  /** The i-th event of the history is an add request that is not turned away. */
  predicate Accepted(p: Pools, es: seq<Event>, i: nat)
    requires p.Shape()
  {
    i < |es| && es[i].AddSvcs? && Verify(Run(p, es[..i]).used, es[i].svcs).Ok?
  }

  lemma RunTo(p: Pools, es: seq<Event>, i: nat)
    requires p.Shape() && i < |es|
    ensures Run(p, es[..i + 1]) == Apply(Run(p, es[..i]), es[i])
  {
    assert es[..i + 1][..i] == es[..i];
  }

  /** A stretch of a history in which no batch is accepted leaves the counters alone. */
  lemma {:induction false} Quiet(p: Pools, es: seq<Event>, i: nat, j: nat)
    requires p.Shape() && NoClear(es) && i <= j <= |es|
    requires forall m :: i <= m < j ==> !Accepted(p, es, m)
    ensures var a, b := Run(p, es[..i]).used, Run(p, es[..j]).used; a.ns == b.ns && a.nv == b.nv
  {
    if i < j {
      Quiet(p, es, i, j - 1);
      RunTo(p, es, j - 1);
      assert !Accepted(p, es, j - 1);
    }
  }

  lemma Whole(p: Pools, es: seq<Event>)
    requires p.Shape()
    ensures Run(p, es[..|es|]) == Run(p, es) && es[..0] == []
  {
    assert es[..|es|] == es;
  }

  /** The counters of a history that starts fresh stay in bounds. */
  lemma FreshRunWithin(p: Pools, es: seq<Event>)
    requires Fresh(p)
    ensures Run(p, es).used.Within()
  {
    RunBounded(p, es);
  }

  /** The slot that ends an accepted batch stays null. */
  lemma TerminatorStays(p: Pools, es: seq<Event>, i: nat)
    requires NullPast(p) && p.used.Within() && NoClear(es) && Accepted(p, es, i)
    ensures 0 < Run(p, es[..i + 1]).used.ns <= MAX_SVCS
    ensures Run(p, es).svcs[Run(p, es[..i + 1]).used.ns - 1] == NO_SVC
  {
    RunTo(p, es, i);
    RunNullPast(p, es[..i]);
    FreshAddSealed(Run(p, es[..i]), es[i].svcs);
    RunAgrees(p, es, i + 1);
  }

  /** If batches i and j are both accepted, the slot that ends batch i cannot be listed. */
  lemma TwoBatchesCommit(p: Pools, es: seq<Event>, vals: seq<nat>, i: nat, j: nat)
    requires Fresh(p) && NoClear(es) && i < j && Accepted(p, es, i) && Accepted(p, es, j)
    ensures Run(p, es).used.Within() && Commit(Run(p, es), vals).None?
  {
    FreshRunWithin(p, es);
    TerminatorStays(p, es, i);
    LaterBatch(p, es, i, j);
    TerminatorUnlisted(Run(p, es), vals, Run(p, es[..i + 1]).used.ns - 1);
  }

  lemma TerminatorUnlisted(p: Pools, vals: seq<nat>, slot: nat)
    requires p.Shape() && p.used.Within() && slot + 1 < p.used.ns && p.svcs[slot] == NO_SVC
    ensures Commit(p, vals).None?
  {
    BadSlotReport(p, vals, 0, p.used.ns - 1, slot);
  }

  /** The service counter after a events, after b events, and at the end. */
  lemma SvcsAscend(p: Pools, es: seq<Event>, a: nat, b: nat)
    requires p.Shape() && p.used.Within() && NoClear(es) && a <= b <= |es|
    ensures Run(p, es[..a]).used.ns <= Run(p, es[..b]).used.ns <= Run(p, es).used.ns
  {
    assert es[..b][..a] == es[..a];
    RunAgrees(p, es[..b], a);
    RunAgrees(p, es, b);
  }

  lemma AcceptedAscends(p: Pools, ss: seq<Svc>)
    requires p.Shape() && Verify(p.used, ss).Ok?
    ensures p.used.ns < Add(p, ss).used.ns
  {
    AddLayout(p, ss);
  }

  lemma LaterBatch(p: Pools, es: seq<Event>, i: nat, j: nat)
    requires p.Shape() && p.used.Within() && NoClear(es) && i < j && Accepted(p, es, j)
    ensures Run(p, es[..i + 1]).used.ns < Run(p, es).used.ns
  {
    SvcsAscend(p, es, i + 1, j);
    RunTo(p, es, j);
    AcceptedAscends(Run(p, es[..j]), es[j].svcs);
    SvcsAscend(p, es, j, j + 1);
  }

  lemma OneBatchRun(p: Pools, es: seq<Event>, vals: seq<nat>, i: nat)
    requires Fresh(p) && NoClear(es) && Accepted(p, es, i) && |vals| == MAX_VAL_HANDLES
    requires forall m :: 0 <= m < |es| && m != i ==> !Accepted(p, es, m)
    ensures Run(p, es).used.Within() && ChrCount(es[i].svcs) <= |vals|
    ensures Commit(Run(p, es), vals)
         == if AllHaveChrs(es[i].svcs) then Some(Expected(es[i].svcs, vals, 0)) else None
  {
    FreshRunWithin(p, es);
    var k, ss := Run(p, es[..i]).used, es[i].svcs;
    BatchAtEnd(p, es, i);
    Whole(p, es);
    Quiet(p, es, 0, i);
    Quiet(p, es, i + 1, |es|);
    assert k.ns == 0 && k.nv == 0;
    OneBatchCommit(Run(p, es), vals, k, ss);
  }

  /** The response to a commit that nothing goes wrong with: the batch, with the handles of its cells. */
  lemma OneBatchAnswered(p: Pools, es: seq<Event>, vals: seq<nat>, host: Host, mem: seq<bool>, i: nat)
    requires Fresh(p) && NoClear(es) && Accepted(p, es, i) && |vals| == MAX_VAL_HANDLES
    requires forall m :: 0 <= m < |es| && m != i ==> !Accepted(p, es, m)
    requires AllHaveChrs(es[i].svcs) && host.Succeeds() && AllSucceed(mem)
    ensures Run(p, es).used.Within() && ChrCount(es[i].svcs) <= |vals|
    ensures Answer(Run(p, es), vals, host, mem) == Some(Listing(Expected(es[i].svcs, vals, 0)))
  {
    OneBatchRun(p, es, vals, i);
    SvcsAscend(p, es, i, i + 1);
    RunTo(p, es, i);
    AcceptedAscends(Run(p, es[..i]), es[i].svcs);
    CommitAnswers(Run(p, es), vals, host, mem);
  }

  /**
   When committing follows no null or stray pointer, for any history without a clear and any
   handles: exactly if at most one batch was accepted and every service in it has a characteristic.
   */
  lemma CommitRunIff(p: Pools, es: seq<Event>, vals: seq<nat>)
    requires Fresh(p) && NoClear(es) && |vals| == MAX_VAL_HANDLES
    ensures Run(p, es).used.Within()
    ensures Commit(Run(p, es), vals).Some? <==>
              && (forall i, j :: 0 <= i < |es| && 0 <= j < |es| && Accepted(p, es, i) && Accepted(p, es, j) ==> i == j)
              && (forall i :: 0 <= i < |es| && Accepted(p, es, i) ==> AllHaveChrs(es[i].svcs))
  {
    FreshRunWithin(p, es);
    if i :| 0 <= i < |es| && Accepted(p, es, i) {
      if j :| 0 <= j < |es| && j != i && Accepted(p, es, j) {
        TwoBatchesCommit(p, es, vals, if i < j then i else j, if i < j then j else i);
      } else {
        OneBatchRun(p, es, vals, i);
      }
    } else {
      Whole(p, es);
      Quiet(p, es, 0, |es|);
      assert Run(p, es).used.ns == 0;
    }
  }
}
