/**
 The request tree of an add-services request, the size of the five pools, and how far each
 pool's counter moves when a part of the tree is saved.
 */
module Gatt {
  import opened Basics
  import opened EventSeq

  const MAX_SVCS: nat := 32
  const MAX_CHRS: nat := 512
  const MAX_DSCS: nat := 2048
  const MAX_UUIDS: nat := MAX_SVCS + MAX_CHRS + MAX_DSCS
  const MAX_VAL_HANDLES: nat := MAX_CHRS

  datatype Dsc = Dsc(uuid: Uuid, attFlags: Byte, minKeySize: Byte)
  datatype Chr = Chr(uuid: Uuid, flags: nat, minKeySize: Byte, dscs: seq<Dsc>)
  datatype Svc = Svc(stype: Byte, uuid: Uuid, chrs: seq<Chr>)

  /** The five counters, and the event sequence counter that saving also advances. */
  datatype Cursor = Cursor(ns: nat, nc: nat, nd: nat, nu: nat, nv: nat, seqNo: nat) {
    predicate Within() {
      ns <= MAX_SVCS && nc <= MAX_CHRS && nd <= MAX_DSCS && nu <= MAX_UUIDS && nv <= MAX_VAL_HANDLES
    }

    /** Every stored UUID belongs to an entry, and every value handle to a characteristic. */
    predicate Bounded() {
      nu <= ns + nc + nd && nv <= nc
    }

    predicate AtMost(k: Cursor) {
      ns <= k.ns && nc <= k.nc && nd <= k.nd && nu <= k.nu && nv <= k.nv
    }
  }

  // ----- what a tree needs

  /** One slot more than there are children, unless there are none. */
  function WithTerminator(n: nat): nat {
    if n > 0 then n + 1 else 0
  }

  function DscCount(cs: seq<Chr>): nat {
    if cs == [] then 0 else DscCount(cs[..|cs| - 1]) + |cs[|cs| - 1].dscs|
  }

  function DscSlots(cs: seq<Chr>): nat {
    if cs == [] then 0 else DscSlots(cs[..|cs| - 1]) + WithTerminator(|cs[|cs| - 1].dscs|)
  }

  function ChrCount(ss: seq<Svc>): nat {
    if ss == [] then 0 else ChrCount(ss[..|ss| - 1]) + |ss[|ss| - 1].chrs|
  }

  function ChrSlots(ss: seq<Svc>): nat {
    if ss == [] then 0 else ChrSlots(ss[..|ss| - 1]) + WithTerminator(|ss[|ss| - 1].chrs|)
  }

  function AllDscCount(ss: seq<Svc>): nat {
    if ss == [] then 0 else AllDscCount(ss[..|ss| - 1]) + DscCount(ss[|ss| - 1].chrs)
  }

  function AllDscSlots(ss: seq<Svc>): nat {
    if ss == [] then 0 else AllDscSlots(ss[..|ss| - 1]) + DscSlots(ss[|ss| - 1].chrs)
  }

  // ----- how saving moves the counters

  function AfterDscs(k: Cursor, n: nat): (r: Cursor)
    ensures r.ns == k.ns && r.nc == k.nc && r.nd == k.nd + n && r.nu == k.nu + n && r.nv == k.nv
  {
    if n == 0 then k
    else
      var f := AfterDscs(k, n - 1);
      f.(nd := f.nd + 1, nu := f.nu + 1, seqNo := NextSeq(f.seqNo))
  }

  /** The counters when a characteristic's own fields are saved and its descriptors come next. */
  function InChr(k: Cursor): Cursor {
    k.(nu := k.nu + 1, nv := k.nv + 1, seqNo := NextSeq(k.seqNo))
  }

  function AfterChr(k: Cursor, c: Chr): Cursor {
    var d := AfterDscs(InChr(k), |c.dscs|);
    d.(nc := d.nc + 1, nd := if c.dscs == [] then d.nd else d.nd + 1)
  }

  function AfterChrs(k: Cursor, cs: seq<Chr>): (r: Cursor)
    ensures r.ns == k.ns && r.nc == k.nc + |cs| && r.nd == k.nd + DscSlots(cs)
    ensures r.nu == k.nu + |cs| + DscCount(cs) && r.nv == k.nv + |cs|
  {
    if cs == [] then k else AfterChr(AfterChrs(k, cs[..|cs| - 1]), cs[|cs| - 1])
  }

  /** The counters when a service's own fields are saved and its characteristics come next. */
  function InSvc(k: Cursor): Cursor {
    k.(nu := k.nu + 1)
  }

  function AfterSvc(k: Cursor, s: Svc): Cursor {
    var c := AfterChrs(InSvc(k), s.chrs);
    c.(ns := c.ns + 1, nc := if s.chrs == [] then c.nc else c.nc + 1)
  }

  function AfterSvcs(k: Cursor, ss: seq<Svc>): (r: Cursor)
    ensures r.ns == k.ns + |ss| && r.nc == k.nc + ChrSlots(ss) && r.nd == k.nd + AllDscSlots(ss)
    ensures r.nu == k.nu + |ss| + ChrCount(ss) + AllDscCount(ss) && r.nv == k.nv + ChrCount(ss)
  {
    if ss == [] then k else AfterSvc(AfterSvcs(k, ss[..|ss| - 1]), ss[|ss| - 1])
  }

  /** A batch ends with one service slot for its terminator. */
  function AfterBatch(k: Cursor, ss: seq<Svc>): Cursor {
    var c := AfterSvcs(k, ss);
    c.(ns := c.ns + 1)
  }

  lemma {:induction false} ChrsPrefix(k: Cursor, cs: seq<Chr>, i: nat)
    requires i <= |cs|
    ensures AfterChrs(k, cs[..i]).AtMost(AfterChrs(k, cs))
  {
    if i == |cs| {
      assert cs[..i] == cs;
    } else {
      ChrsPrefix(k, cs[..|cs| - 1], i);
      assert cs[..|cs| - 1][..i] == cs[..i];
    }
  }

  lemma {:induction false} SvcsPrefix(k: Cursor, ss: seq<Svc>, i: nat)
    requires i <= |ss|
    ensures AfterSvcs(k, ss[..i]).AtMost(AfterSvcs(k, ss))
  {
    if i == |ss| {
      assert ss[..i] == ss;
    } else {
      SvcsPrefix(k, ss[..|ss| - 1], i);
      assert ss[..|ss| - 1][..i] == ss[..i];
    }
  }

  // ----- the estimate made up front

  /**
   The counted characteristic slots. A terminator is added when the running total is positive,
   not when the service at hand has characteristics.
   */
  function CountedChrs(ss: seq<Svc>): nat {
    if ss == [] then 0
    else WithTerminator(CountedChrs(ss[..|ss| - 1]) + |ss[|ss| - 1].chrs|)
  }

  function CountedUuids(ss: seq<Svc>): nat {
    |ss| + 1 + CountedChrs(ss) + AllDscSlots(ss)
  }

  /** Services without characteristics that come after a service with some. */
  function LateBareSvcs(ss: seq<Svc>): nat {
    if ss == [] then 0
    else
      var front, last := ss[..|ss| - 1], ss[|ss| - 1];
      LateBareSvcs(front) + if last.chrs == [] && ChrCount(front) > 0 then 1 else 0
  }

  /** The estimate exceeds the slots really used by exactly one for each such service. */
  lemma {:induction false} EstimateSlack(ss: seq<Svc>)
    ensures CountedChrs(ss) == ChrSlots(ss) + LateBareSvcs(ss)
    ensures CountedChrs(ss) > 0 <==> ChrCount(ss) > 0
    ensures ChrCount(ss) <= ChrSlots(ss)
  {
    if ss != [] {
      EstimateSlack(ss[..|ss| - 1]);
    }
  }

  lemma {:induction false} DscsWithinSlots(cs: seq<Chr>)
    ensures DscCount(cs) <= DscSlots(cs)
  {
    if cs != [] {
      DscsWithinSlots(cs[..|cs| - 1]);
    }
  }

  lemma {:induction false} AllDscsWithinSlots(ss: seq<Svc>)
    ensures AllDscCount(ss) <= AllDscSlots(ss)
  {
    if ss != [] {
      AllDscsWithinSlots(ss[..|ss| - 1]);
      DscsWithinSlots(ss[|ss| - 1].chrs);
    }
  }

  /** Exactly how much more the estimate asks for than a batch uses, pool by pool. */
  lemma EstimateExact(k: Cursor, ss: seq<Svc>)
    ensures var r := AfterBatch(k, ss);
            && |ss| + 1 == r.ns - k.ns
            && CountedChrs(ss) == r.nc - k.nc + LateBareSvcs(ss)
            && AllDscSlots(ss) == r.nd - k.nd
            && ChrCount(ss) == r.nv - k.nv
            && CountedUuids(ss) > r.nu - k.nu
  {
    EstimateSlack(ss);
    AllDscsWithinSlots(ss);
  }

  /** The checks, in their order; each failure has the same code. */
  function Verify(k: Cursor, ss: seq<Svc>): (r: Result<()>)
    ensures r.Err? ==> r.error == HsEnomem
  {
    if k.ns + |ss| + 1 > MAX_SVCS then Err(HsEnomem)
    else if k.nc + CountedChrs(ss) > MAX_CHRS then Err(HsEnomem)
    else if k.nd + AllDscSlots(ss) > MAX_DSCS then Err(HsEnomem)
    else if k.nu + CountedUuids(ss) > MAX_UUIDS then Err(HsEnomem)
    else if k.nv + ChrCount(ss) > MAX_VAL_HANDLES then Err(HsEnomem)
    else Ok(())
  }

  /** Count soundness: a batch that passes fits, in all five pools, terminators included. */
  lemma VerifySound(k: Cursor, ss: seq<Svc>)
    requires Verify(k, ss).Ok?
    ensures AfterBatch(k, ss).Within()
  {
    EstimateExact(k, ss);
  }

  /** The checks on UUIDs and value handles never decide: the first three imply them. */
  lemma LastChecksRedundant(k: Cursor, ss: seq<Svc>)
    requires k.Bounded()
    ensures Verify(k, ss).Ok? <==>
              && k.ns + |ss| + 1 <= MAX_SVCS
              && k.nc + CountedChrs(ss) <= MAX_CHRS
              && k.nd + AllDscSlots(ss) <= MAX_DSCS
    ensures AfterBatch(k, ss).Bounded()
  {
    EstimateExact(k, ss);
    EstimateSlack(ss);
    AllDscsWithinSlots(ss);
  }

  /**
   A batch that would fit is turned away exactly when the characteristic estimate is over
   while the real need is not, so only for services without characteristics.
   */
  lemma RejectedThoughFits(k: Cursor, ss: seq<Svc>)
    requires k.Bounded() && AfterBatch(k, ss).Within()
    ensures Verify(k, ss).Err? <==> MAX_CHRS - LateBareSvcs(ss) < AfterBatch(k, ss).nc
  {
    EstimateExact(k, ss);
    LastChecksRedundant(k, ss);
  }

  /**
   It does happen: 509 characteristics first, then a service with one characteristic and a service
   with none. The second batch needs the last two slots, is counted as three, and is refused.
   */
  lemma RefusedWitness(k: Cursor, s: Svc, c: Chr) returns (first: seq<Svc>, second: seq<Svc>)
    requires k.ns == k.nc == k.nd == k.nu == k.nv == 0 && c.dscs == []
    ensures Verify(k, first).Ok? && AfterBatch(k, first).Bounded()
    ensures Verify(AfterBatch(k, first), second).Err? && AfterBatch(AfterBatch(k, first), second).Within()
  {
    var bare := s.(chrs := []);
    var big, small := s.(chrs := seq(MAX_CHRS - 3, _ => c)), s.(chrs := [c]);
    first, second := [big], [small, bare];
    NoDscs(big.chrs);
    NoDscs(small.chrs);
    NoDscs(bare.chrs);
    OneSvc(big);
    OneSvc(small);
    TwoSvcs(small, bare);
    LastChecksRedundant(k, first);
    EstimateExact(k, first);
    var l := AfterBatch(k, first);
    LastChecksRedundant(l, second);
    EstimateExact(l, second);
  }

  lemma {:induction false} NoDscs(cs: seq<Chr>)
    requires forall i :: 0 <= i < |cs| ==> cs[i].dscs == []
    ensures DscSlots(cs) == 0 == DscCount(cs)
  {
    if cs != [] {
      NoDscs(cs[..|cs| - 1]);
    }
  }

  lemma OneSvc(s: Svc)
    ensures CountedChrs([s]) == WithTerminator(|s.chrs|) && LateBareSvcs([s]) == 0
    ensures ChrCount([s]) == |s.chrs| && AllDscSlots([s]) == DscSlots(s.chrs)
  {
    assert [s][..0] == [];
  }

  lemma TwoSvcs(s: Svc, t: Svc)
    ensures CountedChrs([s, t]) == WithTerminator(CountedChrs([s]) + |t.chrs|)
    ensures LateBareSvcs([s, t]) == if t.chrs == [] && s.chrs != [] then 1 else 0
    ensures ChrCount([s, t]) == |s.chrs| + |t.chrs|
    ensures AllDscSlots([s, t]) == DscSlots(s.chrs) + DscSlots(t.chrs)
  {
    OneSvc(s);
    assert [s, t][..1] == [s];
  }
}
