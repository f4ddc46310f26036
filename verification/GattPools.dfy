/** The contents of the pools as values, and what saving each part of a request does to them. */
module GattPools {
  import opened Basics
  import opened EventSeq
  import opened Gatt

  /** A pointer into one of the pools, as an index. */
  datatype Ptr = Null | At(i: nat)

  datatype DscDef = DscDef(uuid: Ptr, attFlags: Byte, minKeySize: Byte, arg: nat)
  datatype ChrDef = ChrDef(uuid: Ptr, flags: nat, minKeySize: Byte, arg: nat, valHandle: Ptr, dscs: Ptr)
  datatype SvcDef = SvcDef(stype: Byte, uuid: Ptr, chrs: Ptr)

  /** The contents of static storage before anything is written. */
  const NO_DSC := DscDef(Null, 0, 0, 0)
  const NO_CHR := ChrDef(Null, 0, 0, 0, Null, Null)
  const NO_SVC := SvcDef(0, Null, Null)

  datatype Pools = Pools(svcs: seq<SvcDef>, chrs: seq<ChrDef>, dscs: seq<DscDef>, uuids: seq<Uuid>, used: Cursor) {
    predicate Shape() {
      |svcs| == MAX_SVCS && |chrs| == MAX_CHRS && |dscs| == MAX_DSCS && |uuids| == MAX_UUIDS
    }
  }

  function SaveUuid(p: Pools, u: Uuid): (r: Pools)
    requires p.Shape() && p.used.nu < MAX_UUIDS
    ensures r.Shape()
  {
    p.(uuids := p.uuids[p.used.nu := u], used := p.used.(nu := p.used.nu + 1))
  }

  function SaveDsc(p: Pools, d: Dsc): (r: Pools)
    requires p.Shape() && p.used.nd < MAX_DSCS && p.used.nu < MAX_UUIDS
    ensures r.Shape() && r.used == AfterDscs(p.used, 1)
  {
    var k := p.used;
    var q := SaveUuid(p, d.uuid);
    assert AfterDscs(k, 0) == k;
    q.(dscs := q.dscs[k.nd := DscDef(At(k.nu), d.attFlags, d.minKeySize, k.seqNo)],
       used := q.used.(nd := k.nd + 1, seqNo := NextSeq(k.seqNo)))
  }

  function SaveDscs(p: Pools, ds: seq<Dsc>): (r: Pools)
    requires p.Shape() && AfterDscs(p.used, |ds|).Within()
    ensures r.Shape() && r.used == AfterDscs(p.used, |ds|)
  {
    if ds == [] then p else SaveDsc(SaveDscs(p, ds[..|ds| - 1]), ds[|ds| - 1])
  }

  lemma SaveDscsStep(p: Pools, ds: seq<Dsc>, i: nat)
    requires p.Shape() && AfterDscs(p.used, |ds|).Within() && i < |ds|
    ensures SaveDscs(p, ds[..i + 1]) == SaveDsc(SaveDscs(p, ds[..i]), ds[i])
  {
    assert ds[..i + 1][..i] == ds[..i];
  }

  /** A characteristic's own fields; the descriptor pointer is written only if there are descriptors. */
  function SaveChrFields(p: Pools, c: Chr): (r: Pools)
    requires p.Shape() && p.used.nc < MAX_CHRS && p.used.nu < MAX_UUIDS
    ensures r.Shape() && r.used == InChr(p.used)
  {
    var k := p.used;
    var q := SaveUuid(p, c.uuid);
    var was := p.chrs[k.nc];
    q.(chrs := q.chrs[k.nc := ChrDef(At(k.nu), c.flags, c.minKeySize, k.seqNo, At(k.nv),
                                     if c.dscs == [] then was.dscs else At(k.nd))],
       used := q.used.(nv := k.nv + 1, seqNo := NextSeq(k.seqNo)))
  }

  function SaveChr(p: Pools, c: Chr): (r: Pools)
    requires p.Shape() && AfterChr(p.used, c).Within()
    ensures r.Shape() && r.used == AfterChr(p.used, c)
  {
    var q := SaveDscs(SaveChrFields(p, c), c.dscs);
    q.(used := q.used.(nc := q.used.nc + 1, nd := if c.dscs == [] then q.used.nd else q.used.nd + 1))
  }

  function SaveChrs(p: Pools, cs: seq<Chr>): (r: Pools)
    requires p.Shape() && AfterChrs(p.used, cs).Within()
    ensures r.Shape() && r.used == AfterChrs(p.used, cs)
  {
    if cs == [] then p else SaveChr(SaveChrs(p, cs[..|cs| - 1]), cs[|cs| - 1])
  }

  /** One more turn of the loop over a service's characteristics. */
  lemma SaveChrsStep(p: Pools, cs: seq<Chr>, i: nat)
    requires p.Shape() && AfterChrs(p.used, cs).Within() && i < |cs|
    ensures AfterChrs(p.used, cs[..i]).Within() && AfterChrs(p.used, cs[..i + 1]).Within()
    ensures AfterChr(AfterChrs(p.used, cs[..i]), cs[i]).Within()
    ensures SaveChrs(p, cs[..i + 1]) == SaveChr(SaveChrs(p, cs[..i]), cs[i])
  {
    assert cs[..i + 1][..i] == cs[..i];
    ChrsPrefix(p.used, cs, i);
    ChrsPrefix(p.used, cs, i + 1);
  }

  function SaveSvcFields(p: Pools, s: Svc): (r: Pools)
    requires p.Shape() && p.used.ns < MAX_SVCS && p.used.nu < MAX_UUIDS
    ensures r.Shape() && r.used == InSvc(p.used)
  {
    var k := p.used;
    var q := SaveUuid(p, s.uuid);
    q.(svcs := q.svcs[k.ns := SvcDef(s.stype, At(k.nu), if s.chrs == [] then p.svcs[k.ns].chrs else At(k.nc))])
  }

  /** The counters when a service and its terminating slot are done. */
  function EndSvc(q: Pools, hasChrs: bool): Pools {
    q.(used := q.used.(ns := q.used.ns + 1, nc := if hasChrs then q.used.nc + 1 else q.used.nc))
  }

  function SaveSvc(p: Pools, s: Svc): (r: Pools)
    requires p.Shape() && AfterSvc(p.used, s).Within()
    ensures r.Shape() && r.used == AfterSvc(p.used, s)
  {
    EndSvc(SaveChrs(SaveSvcFields(p, s), s.chrs), s.chrs != [])
  }

  function SaveSvcs(p: Pools, ss: seq<Svc>): (r: Pools)
    requires p.Shape() && AfterSvcs(p.used, ss).Within()
    ensures r.Shape() && r.used == AfterSvcs(p.used, ss)
  {
    if ss == [] then p else SaveSvc(SaveSvcs(p, ss[..|ss| - 1]), ss[|ss| - 1])
  }

  lemma SvcsStepFits(k: Cursor, ss: seq<Svc>, i: nat)
    requires AfterSvcs(k, ss).Within() && i < |ss|
    ensures AfterSvcs(k, ss[..i]).Within() && AfterSvcs(k, ss[..i + 1]).Within()
    ensures AfterSvc(AfterSvcs(k, ss[..i]), ss[i]).Within()
  {
    PrefixParts(ss, i);
    SvcsPrefix(k, ss, i);
    SvcsPrefix(k, ss, i + 1);
  }

  lemma SaveLastSvc(p: Pools, front: seq<Svc>, s: Svc, ss: seq<Svc>)
    requires p.Shape() && ss != [] && ss[..|ss| - 1] == front && ss[|ss| - 1] == s && AfterSvcs(p.used, ss).Within()
    requires AfterSvcs(p.used, front).Within() && AfterSvc(AfterSvcs(p.used, front), s).Within()
    ensures SaveSvcs(p, ss) == SaveSvc(SaveSvcs(p, front), s)
  {
  }

  lemma PrefixParts(ss: seq<Svc>, i: nat)
    requires i < |ss|
    ensures var t := ss[..i + 1]; |t| == i + 1 && t[..|t| - 1] == ss[..i] && t[|t| - 1] == ss[i]
  {
  }

  lemma SaveSvcsStep(p: Pools, ss: seq<Svc>, i: nat)
    requires p.Shape() && AfterSvcs(p.used, ss).Within() && i < |ss|
    ensures AfterSvcs(p.used, ss[..i]).Within() && AfterSvcs(p.used, ss[..i + 1]).Within()
    ensures AfterSvc(AfterSvcs(p.used, ss[..i]), ss[i]).Within()
    ensures SaveSvcs(p, ss[..i + 1]) == SaveSvc(SaveSvcs(p, ss[..i]), ss[i])
  {
    SvcsStepFits(p.used, ss, i);
    PrefixParts(ss, i);
    SaveLastSvc(p, ss[..i], ss[i], ss[..i + 1]);
  }

  /** An accepted batch: its services and the terminating service slot. */
  function SaveBatch(p: Pools, ss: seq<Svc>): (r: Pools)
    requires p.Shape() && AfterBatch(p.used, ss).Within()
    ensures r.Shape() && r.used == AfterBatch(p.used, ss)
  {
    var q := SaveSvcs(p, ss);
    q.(used := q.used.(ns := q.used.ns + 1))
  }

  /** An add request: nothing is touched unless every check passes. */
  function Add(p: Pools, ss: seq<Svc>): (r: Pools)
    requires p.Shape()
    ensures r.Shape()
  {
    if Verify(p.used, ss).Ok? then
      VerifySound(p.used, ss);
      SaveBatch(p, ss)
    else p
  }

  /** A clear request: the counters go back, the contents and the event sequence stay. */
  function Clear(p: Pools): (r: Pools)
    requires p.Shape()
    ensures r.Shape()
  {
    p.(used := Cursor(0, 0, 0, 0, 0, p.used.seqNo))
  }

  datatype Event =
    | AddSvcs(svcs: seq<Svc>)
    | ClearSvcs
    | DrawSeq   // any other event that takes a sequence number

  function Apply(p: Pools, e: Event): (r: Pools)
    requires p.Shape()
    ensures r.Shape()
  {
    match e
    case AddSvcs(ss) => Add(p, ss)
    case ClearSvcs => Clear(p)
    case DrawSeq => p.(used := p.used.(seqNo := NextSeq(p.used.seqNo)))
  }

  function Run(p: Pools, es: seq<Event>): (r: Pools)
    requires p.Shape()
    ensures r.Shape()
  {
    if es == [] then p else Apply(Run(p, es[..|es| - 1]), es[|es| - 1])
  }

  /** Static storage at start-up. */
  function Initial(uuids: seq<Uuid>, seqNo: nat): (r: Pools)
    requires |uuids| == MAX_UUIDS
    ensures r.Shape()
  {
    Pools(seq(MAX_SVCS, _ => NO_SVC), seq(MAX_CHRS, _ => NO_CHR), seq(MAX_DSCS, _ => NO_DSC), uuids,
          Cursor(0, 0, 0, 0, 0, seqNo))
  }

  /** In every run of adds and clears, whatever the pools held before, the counters stay in bounds. */
  lemma {:induction false} RunBounded(p: Pools, es: seq<Event>)
    requires p.Shape() && p.used.Within() && p.used.Bounded()
    ensures Run(p, es).used.Within() && Run(p, es).used.Bounded()
  {
    if es != [] {
      var front, last := es[..|es| - 1], es[|es| - 1];
      RunBounded(p, front);
      if last.AddSvcs? {
        LastChecksRedundant(Run(p, front).used, last.svcs);
        if Verify(Run(p, front).used, last.svcs).Ok? {
          VerifySound(Run(p, front).used, last.svcs);
        }
      }
    }
  }
}
