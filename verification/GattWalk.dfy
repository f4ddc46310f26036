/**
 Reading the pools back the way the host stack does: from an entry, follow its pointer and go on
 to the terminator. `AddDecodesIff` says when that gives the request that was added.
 */
module GattWalk {
  import opened Basics
  import opened Gatt
  import opened GattPools
  import opened GattLayout
  import opened Slices

  // ----- the walk; None means that a pointer leads out of its pool

  function ReadDsc(p: Pools, e: DscDef): Option<Dsc> {
    if e.uuid.Null? || e.uuid.i >= |p.uuids| then None
    else Some(Dsc(p.uuids[e.uuid.i], e.attFlags, e.minKeySize))
  }

  predicate EndsDscs(e: DscDef) {
    e.uuid.Null?
  }

  function DscReader(p: Pools): DscDef -> Option<Dsc> {
    e => ReadDsc(p, e)
  }

  function WalkDscs(p: Pools, i: nat): Option<seq<Dsc>> {
    Walk(p.dscs, i, EndsDscs, DscReader(p))
  }

  function DscsOf(p: Pools, e: ChrDef): Option<seq<Dsc>> {
    if e.dscs.Null? then Some([]) else WalkDscs(p, e.dscs.i)
  }

  function ReadChr(p: Pools, e: ChrDef): Option<Chr> {
    if e.uuid.Null? || e.uuid.i >= |p.uuids| || DscsOf(p, e).None? then None
    else Some(Chr(p.uuids[e.uuid.i], e.flags, e.minKeySize, DscsOf(p, e).value))
  }

  predicate EndsChrs(e: ChrDef) {
    e.uuid.Null?
  }

  function ChrReader(p: Pools): ChrDef -> Option<Chr> {
    e => ReadChr(p, e)
  }

  function WalkChrs(p: Pools, i: nat): Option<seq<Chr>> {
    Walk(p.chrs, i, EndsChrs, ChrReader(p))
  }

  function ChrsOf(p: Pools, e: SvcDef): Option<seq<Chr>> {
    if e.chrs.Null? then Some([]) else WalkChrs(p, e.chrs.i)
  }

  function ReadSvc(p: Pools, e: SvcDef): Option<Svc> {
    if e.uuid.Null? || e.uuid.i >= |p.uuids| || ChrsOf(p, e).None? then None
    else Some(Svc(e.stype, p.uuids[e.uuid.i], ChrsOf(p, e).value))
  }

  predicate EndsSvcs(e: SvcDef) {
    e.stype == 0
  }

  function SvcReader(p: Pools): SvcDef -> Option<Svc> {
    e => ReadSvc(p, e)
  }

  /** The host stack's reading of the service table from slot i on; a service type of 0 ends it. */
  function WalkSvcs(p: Pools, i: nat): Option<seq<Svc>> {
    Walk(p.svcs, i, EndsSvcs, SvcReader(p))
  }

  // ----- a child pointer, once set, leads to an entry that was written

  ghost predicate LiveChrs(p: Pools) {
    p.Shape() && forall i :: 0 <= i < MAX_CHRS && p.chrs[i].dscs.At? ==>
                   p.chrs[i].dscs.i < MAX_DSCS && p.dscs[p.chrs[i].dscs.i].uuid.At?
  }

  ghost predicate LiveSvcs(p: Pools) {
    p.Shape() && forall i :: 0 <= i < MAX_SVCS && p.svcs[i].chrs.At? ==>
                   p.svcs[i].chrs.i < MAX_CHRS && p.chrs[p.svcs[i].chrs.i].uuid.At?
  }

  ghost predicate Live(p: Pools) {
    LiveChrs(p) && LiveSvcs(p)
  }

  /** No entry ever becomes null again. */
  ghost predicate Grows(p: Pools, q: Pools) {
    && p.Shape() && q.Shape()
    && (forall i :: 0 <= i < MAX_DSCS && p.dscs[i].uuid.At? ==> q.dscs[i].uuid.At?)
    && (forall i :: 0 <= i < MAX_CHRS && p.chrs[i].uuid.At? ==> q.chrs[i].uuid.At?)
  }

  lemma {:induction false} SaveDscsGrows(p: Pools, ds: seq<Dsc>)
    requires p.Shape() && AfterDscs(p.used, |ds|).Within()
    ensures var q := SaveDscs(p, ds);
            && Grows(p, q) && q.chrs == p.chrs && q.svcs == p.svcs
            && (ds != [] ==> q.dscs[p.used.nd].uuid.At?)
  {
    if ds != [] {
      SaveDscsGrows(p, ds[..|ds| - 1]);
    }
  }

  lemma SaveChrLive(p: Pools, c: Chr)
    requires AfterChr(p.used, c).Within() && LiveChrs(p)
    ensures var q := SaveChr(p, c);
            Grows(p, q) && LiveChrs(q) && q.svcs == p.svcs && q.chrs[p.used.nc].uuid.At?
  {
    SaveDscsGrows(SaveChrFields(p, c), c.dscs);
  }

  lemma {:induction false} SaveChrsLive(p: Pools, cs: seq<Chr>)
    requires AfterChrs(p.used, cs).Within() && LiveChrs(p)
    ensures var q := SaveChrs(p, cs);
            && Grows(p, q) && LiveChrs(q) && q.svcs == p.svcs
            && (cs != [] ==> q.chrs[p.used.nc].uuid.At?)
  {
    if cs != [] {
      SaveChrsLive(p, cs[..|cs| - 1]);
      SaveChrLive(SaveChrs(p, cs[..|cs| - 1]), cs[|cs| - 1]);
    }
  }

  lemma SaveSvcLive(p: Pools, s: Svc)
    requires AfterSvc(p.used, s).Within() && Live(p)
    ensures Live(SaveSvc(p, s))
  {
    var h := SaveSvcFields(p, s);
    SaveChrsLive(h, s.chrs);
  }

  lemma {:induction false} SaveSvcsLive(p: Pools, ss: seq<Svc>)
    requires AfterSvcs(p.used, ss).Within() && Live(p)
    ensures Live(SaveSvcs(p, ss))
  {
    if ss != [] {
      SaveSvcsLive(p, ss[..|ss| - 1]);
      SaveSvcLive(SaveSvcs(p, ss[..|ss| - 1]), ss[|ss| - 1]);
    }
  }

  lemma AddLive(p: Pools, ss: seq<Svc>)
    requires Live(p)
    ensures Live(Add(p, ss))
  {
    if Verify(p.used, ss).Ok? {
      VerifySound(p.used, ss);
      SaveSvcsLive(p, ss);
    }
  }

  /** In every run of adds and clears. */
  lemma {:induction false} RunLive(p: Pools, es: seq<Event>)
    requires Live(p)
    ensures Live(Run(p, es))
  {
    if es != [] {
      RunLive(p, es[..|es| - 1]);
      if es[|es| - 1].AddSvcs? {
        AddLive(Run(p, es[..|es| - 1]), es[|es| - 1].svcs);
      }
    }
  }

  // ----- the walk over a layout

  lemma DscReadsAt(p: Pools, k: Cursor, ds: seq<Dsc>, i: nat)
    requires DscsAt(p, k, ds) && i < |ds|
    ensures SlotReads(p.dscs, k.nd, EndsDscs, DscReader(p), ds, i)
  {
    DscsAtIndex(p, k, ds, i);
  }

  /** Descriptors that were laid out read back exactly if a null slot follows them. */
  lemma DscsWalk(p: Pools, k: Cursor, ds: seq<Dsc>)
    requires DscsAt(p, k, ds)
    ensures WalkDscs(p, k.nd) == Some(ds) <==> k.nd + |ds| < |p.dscs| && p.dscs[k.nd + |ds|].uuid.Null?
  {
    if k.nd + |ds| < |p.dscs| && p.dscs[k.nd + |ds|].uuid.Null? {
      forall i | 0 <= i < |ds|
        ensures SlotReads(p.dscs, k.nd, EndsDscs, DscReader(p), ds, i)
      {
        DscReadsAt(p, k, ds, i);
      }
      WalkYes(p.dscs, k.nd, EndsDscs, DscReader(p), ds);
    } else {
      WalkNoEnd(p.dscs, k.nd, EndsDscs, DscReader(p), ds);
    }
  }

  /** A pointer into the descriptors that leads to an entry never reads as an empty list. */
  lemma LiveNotEmpty(p: Pools, i: nat)
    requires i < |p.dscs| && p.dscs[i].uuid.At?
    ensures WalkDscs(p, i) != Some([])
  {
    WalkNoEnd(p.dscs, i, EndsDscs, DscReader(p), []);
  }

  /** A characteristic that was laid out reads back as it was given exactly if it is sealed. */
  lemma ChrReads(p: Pools, k: Cursor, c: Chr)
    requires ChrAt(p, k, c) && LiveChrs(p)
    ensures ReadChr(p, p.chrs[k.nc]) == Some(c) <==> ChrSealed(p, k, c)
  {
    if c.dscs != [] {
      DscsWalk(p, InChr(k), c.dscs);
    } else if p.chrs[k.nc].dscs.At? {
      LiveNotEmpty(p, p.chrs[k.nc].dscs.i);
    }
  }

  lemma ChrSlotOf(p: Pools, first: nat, n: Cursor, cs: seq<Chr>, i: nat)
    requires i < |cs| && n.nc == first + i < |p.chrs| && p.chrs[n.nc].uuid.At?
    ensures SlotReads(p.chrs, first, EndsChrs, ChrReader(p), cs, i) <==> ReadChr(p, p.chrs[n.nc]) == Some(cs[i])
  {
  }

  lemma ChrReadsAt(p: Pools, k: Cursor, cs: seq<Chr>, i: nat)
    requires ChrsAt(p, k, cs) && LiveChrs(p) && i < |cs|
    ensures SlotReads(p.chrs, k.nc, EndsChrs, ChrReader(p), cs, i) <==> ChrSealed(p, AfterChrs(k, cs[..i]), cs[i])
  {
    var n := AfterChrs(k, cs[..i]);
    ChrPart(p, k, cs, i);
    ChrReads(p, n, cs[i]);
    ChrSlotOf(p, k.nc, n, cs, i);
  }

  lemma ChrsWalk(p: Pools, k: Cursor, cs: seq<Chr>)
    requires ChrsAt(p, k, cs) && LiveChrs(p)
    ensures WalkChrs(p, k.nc) == Some(cs) <==>
              ChrsSealed(p, k, cs) && k.nc + |cs| < |p.chrs| && p.chrs[k.nc + |cs|].uuid.Null?
  {
    if !ChrsSealed(p, k, cs) {
      var i := ChrUnsealed(p, k, cs);
      ChrReadsAt(p, k, cs, i);
      WalkNo(p.chrs, k.nc, EndsChrs, ChrReader(p), cs, i);
    } else if k.nc + |cs| < |p.chrs| && p.chrs[k.nc + |cs|].uuid.Null? {
      forall i | 0 <= i < |cs|
        ensures SlotReads(p.chrs, k.nc, EndsChrs, ChrReader(p), cs, i)
      {
        ChrsSealedAt(p, k, cs, i);
        ChrReadsAt(p, k, cs, i);
      }
      WalkYes(p.chrs, k.nc, EndsChrs, ChrReader(p), cs);
    } else {
      WalkNoEnd(p.chrs, k.nc, EndsChrs, ChrReader(p), cs);
    }
  }

  lemma LiveChrsNotEmpty(p: Pools, i: nat)
    requires i < |p.chrs| && p.chrs[i].uuid.At?
    ensures WalkChrs(p, i) != Some([])
  {
    WalkNoEnd(p.chrs, i, EndsChrs, ChrReader(p), []);
  }

  lemma SvcReads(p: Pools, k: Cursor, s: Svc)
    requires SvcAt(p, k, s) && Live(p)
    ensures ReadSvc(p, p.svcs[k.ns]) == Some(s) <==> SvcSealed(p, k, s)
  {
    if s.chrs != [] {
      ChrsWalk(p, InSvc(k), s.chrs);
    } else if p.svcs[k.ns].chrs.At? {
      LiveChrsNotEmpty(p, p.svcs[k.ns].chrs.i);
    }
  }

  lemma SvcSlotOf(p: Pools, i: nat, n: Cursor, ss: seq<Svc>, a: nat)
    requires a < |ss| && n.ns == i + a < |p.svcs| && p.svcs[n.ns].stype != 0
    ensures SlotReads(p.svcs, i, EndsSvcs, SvcReader(p), ss, a) <==> ReadSvc(p, p.svcs[n.ns]) == Some(ss[a])
  {
  }

  lemma SvcReadsAt(p: Pools, k: Cursor, ss: seq<Svc>, a: nat)
    requires SvcsAt(p, k, ss) && Live(p) && a < |ss| && ss[a].stype != 0
    ensures SlotReads(p.svcs, k.ns, EndsSvcs, SvcReader(p), ss, a) <==> SvcSealed(p, AfterSvcs(k, ss[..a]), ss[a])
  {
    var n := AfterSvcs(k, ss[..a]);
    SvcPlace(p, k, ss, a);
    SvcReads(p, n, ss[a]);
    SvcSlotOf(p, k.ns, n, ss, a);
  }

  /** Service types are primary (1) or secondary (2); 0 is the terminator. */
  predicate Typed(ss: seq<Svc>) {
    forall i :: 0 <= i < |ss| ==> ss[i].stype != 0
  }

  lemma SealedReads(p: Pools, k: Cursor, ss: seq<Svc>)
    requires SvcsAt(p, k, ss) && Live(p) && Typed(ss) && SvcsSealed(p, k, ss)
    ensures forall a :: 0 <= a < |ss| ==> SlotReads(p.svcs, k.ns, EndsSvcs, SvcReader(p), ss, a)
  {
    forall a | 0 <= a < |ss|
      ensures SlotReads(p.svcs, k.ns, EndsSvcs, SvcReader(p), ss, a)
    {
      SvcsSealedAt(p, k, ss, a);
      SvcReadsAt(p, k, ss, a);
    }
  }

  lemma UnsealedReads(p: Pools, k: Cursor, ss: seq<Svc>)
    requires SvcsAt(p, k, ss) && Live(p) && Typed(ss) && !SvcsSealed(p, k, ss)
    ensures exists a :: 0 <= a < |ss| && !SlotReads(p.svcs, k.ns, EndsSvcs, SvcReader(p), ss, a)
  {
    var a := SvcUnsealed(p, k, ss);
    SvcReadsAt(p, k, ss, a);
  }

  lemma SealedWalks(p: Pools, k: Cursor, ss: seq<Svc>)
    requires SvcsAt(p, k, ss) && Live(p) && Typed(ss) && Sealed(p, k, ss)
    ensures WalkSvcs(p, k.ns) == Some(ss)
  {
    SealedReads(p, k, ss);
    WalkYes(p.svcs, k.ns, EndsSvcs, SvcReader(p), ss);
  }

  lemma UnsealedWalks(p: Pools, k: Cursor, ss: seq<Svc>)
    requires SvcsAt(p, k, ss) && Live(p) && Typed(ss) && !SvcsSealed(p, k, ss)
    ensures WalkSvcs(p, k.ns) != Some(ss)
  {
    UnsealedReads(p, k, ss);
    var a :| 0 <= a < |ss| && !SlotReads(p.svcs, k.ns, EndsSvcs, SvcReader(p), ss, a);
    WalkNo(p.svcs, k.ns, EndsSvcs, SvcReader(p), ss, a);
  }

  lemma UnendedWalks(p: Pools, k: Cursor, ss: seq<Svc>)
    requires k.ns + |ss| >= |p.svcs| || p.svcs[k.ns + |ss|].stype != 0
    ensures WalkSvcs(p, k.ns) != Some(ss)
  {
    WalkNoEnd(p.svcs, k.ns, EndsSvcs, SvcReader(p), ss);
  }

  /** A batch that was laid out reads back exactly if everything it needs to be null is null. */
  lemma BatchWalk(p: Pools, k: Cursor, ss: seq<Svc>)
    requires SvcsAt(p, k, ss) && Live(p) && Typed(ss)
    ensures WalkSvcs(p, k.ns) == Some(ss) <==> Sealed(p, k, ss)
  {
    if Sealed(p, k, ss) {
      SealedWalks(p, k, ss);
    } else if SvcsSealed(p, k, ss) {
      UnendedWalks(p, k, ss);
    } else {
      UnsealedWalks(p, k, ss);
    }
  }
}
