/**
 Where a saved tree lies in the pools. `SvcsAt(p, k, ss)` says that the entries of `ss` were
 written one after the other starting at the counters `k`, with the pointers that link them.
 */
module GattLayout {
  import opened Gatt
  import opened GattPools

  predicate DscAt(p: Pools, k: Cursor, d: Dsc) {
    && k.nd < |p.dscs| && k.nu < |p.uuids|
    && p.dscs[k.nd] == DscDef(At(k.nu), d.attFlags, d.minKeySize, k.seqNo)
    && p.uuids[k.nu] == d.uuid
  }

  predicate DscsAt(p: Pools, k: Cursor, ds: seq<Dsc>) {
    ds != [] ==>
      DscsAt(p, k, ds[..|ds| - 1]) && DscAt(p, AfterDscs(k, |ds| - 1), ds[|ds| - 1])
  }

  /** The fields of a characteristic entry; without descriptors its descriptor pointer is left open. */
  predicate ChrHeadAt(p: Pools, k: Cursor, c: Chr) {
    && k.nc < |p.chrs| && k.nu < |p.uuids|
    && p.chrs[k.nc] == ChrDef(At(k.nu), c.flags, c.minKeySize, k.seqNo, At(k.nv),
                              if c.dscs == [] then p.chrs[k.nc].dscs else At(k.nd))
    && p.uuids[k.nu] == c.uuid
  }

  predicate ChrAt(p: Pools, k: Cursor, c: Chr) {
    ChrHeadAt(p, k, c) && DscsAt(p, InChr(k), c.dscs)
  }

  predicate ChrsAt(p: Pools, k: Cursor, cs: seq<Chr>) {
    cs != [] ==>
      ChrsAt(p, k, cs[..|cs| - 1]) && ChrAt(p, AfterChrs(k, cs[..|cs| - 1]), cs[|cs| - 1])
  }

  predicate SvcHeadAt(p: Pools, k: Cursor, s: Svc) {
    && k.ns < |p.svcs| && k.nu < |p.uuids|
    && p.svcs[k.ns] == SvcDef(s.stype, At(k.nu), if s.chrs == [] then p.svcs[k.ns].chrs else At(k.nc))
    && p.uuids[k.nu] == s.uuid
  }

  predicate SvcAt(p: Pools, k: Cursor, s: Svc) {
    SvcHeadAt(p, k, s) && ChrsAt(p, InSvc(k), s.chrs)
  }

  predicate SvcsAt(p: Pools, k: Cursor, ss: seq<Svc>) {
    ss != [] ==>
      SvcsAt(p, k, ss[..|ss| - 1]) && SvcAt(p, AfterSvcs(k, ss[..|ss| - 1]), ss[|ss| - 1])
  }

  // ----- terminators

  /** No descriptor pointer if there are no descriptors, and a null slot behind them otherwise. */
  predicate ChrSealed(p: Pools, k: Cursor, c: Chr) {
    if c.dscs == [] then k.nc < |p.chrs| && p.chrs[k.nc].dscs.Null?
    else k.nd + |c.dscs| < |p.dscs| && p.dscs[k.nd + |c.dscs|].uuid.Null?
  }

  predicate ChrsSealed(p: Pools, k: Cursor, cs: seq<Chr>) {
    cs != [] ==>
      ChrsSealed(p, k, cs[..|cs| - 1]) && ChrSealed(p, AfterChrs(k, cs[..|cs| - 1]), cs[|cs| - 1])
  }

  predicate SvcSealed(p: Pools, k: Cursor, s: Svc) {
    if s.chrs == [] then k.ns < |p.svcs| && p.svcs[k.ns].chrs.Null?
    else
      && ChrsSealed(p, InSvc(k), s.chrs)
      && k.nc + |s.chrs| < |p.chrs| && p.chrs[k.nc + |s.chrs|].uuid.Null?
  }

  predicate SvcsSealed(p: Pools, k: Cursor, ss: seq<Svc>) {
    ss != [] ==>
      SvcsSealed(p, k, ss[..|ss| - 1]) && SvcSealed(p, AfterSvcs(k, ss[..|ss| - 1]), ss[|ss| - 1])
  }

  /**
   Every slot and pointer that a batch relies on to be null, but never writes, is null. It can
   be evaluated on the pools before the batch is added.
   */
  predicate Sealed(p: Pools, k: Cursor, ss: seq<Svc>) {
    && SvcsSealed(p, k, ss)
    && k.ns + |ss| < |p.svcs| && p.svcs[k.ns + |ss|].stype == 0
  }

  // ----- what a later write leaves alone

  /** The pools agree below the counters k. */
  ghost predicate Agree(p: Pools, q: Pools, k: Cursor) {
    && p.Shape() && q.Shape() && k.Within()
    && (forall i :: 0 <= i < k.ns ==> q.svcs[i] == p.svcs[i])
    && (forall i :: 0 <= i < k.nc ==> q.chrs[i] == p.chrs[i])
    && (forall i :: 0 <= i < k.nd ==> q.dscs[i] == p.dscs[i])
    && (forall i :: 0 <= i < k.nu ==> q.uuids[i] == p.uuids[i])
  }

  /** The pools agree at and past the counters k. */
  ghost predicate AgreePast(p: Pools, q: Pools, k: Cursor) {
    && p.Shape() && q.Shape()
    && (forall i :: k.ns <= i < MAX_SVCS ==> q.svcs[i] == p.svcs[i])
    && (forall i :: k.nc <= i < MAX_CHRS ==> q.chrs[i] == p.chrs[i])
    && (forall i :: k.nd <= i < MAX_DSCS ==> q.dscs[i] == p.dscs[i])
  }

  lemma {:induction false} DscsFrame(p: Pools, q: Pools, k: Cursor, ds: seq<Dsc>)
    requires DscsAt(p, k, ds) && p.Shape() && q.Shape() && AfterDscs(k, |ds|).Within()
    requires forall i :: 0 <= i < k.nd + |ds| ==> q.dscs[i] == p.dscs[i]
    requires forall i :: 0 <= i < k.nu + |ds| ==> q.uuids[i] == p.uuids[i]
    ensures DscsAt(q, k, ds)
  {
    if ds != [] {
      DscsFrame(p, q, k, ds[..|ds| - 1]);
    }
  }

  lemma ChrFrame(p: Pools, q: Pools, k: Cursor, c: Chr)
    requires Agree(p, q, AfterChr(k, c))
    ensures ChrAt(p, k, c) ==> ChrAt(q, k, c)
    ensures ChrSealed(p, k, c) ==> ChrSealed(q, k, c)
  {
    if ChrAt(p, k, c) {
      DscsFrame(p, q, InChr(k), c.dscs);
    }
  }

  lemma {:induction false} ChrsFrame(p: Pools, q: Pools, k: Cursor, cs: seq<Chr>)
    requires Agree(p, q, AfterChrs(k, cs))
    ensures ChrsAt(p, k, cs) ==> ChrsAt(q, k, cs)
    ensures ChrsSealed(p, k, cs) ==> ChrsSealed(q, k, cs)
  {
    if cs != [] {
      ChrsFrame(p, q, k, cs[..|cs| - 1]);
      ChrFrame(p, q, AfterChrs(k, cs[..|cs| - 1]), cs[|cs| - 1]);
    }
  }

  lemma SvcFrame(p: Pools, q: Pools, k: Cursor, s: Svc)
    requires Agree(p, q, AfterSvc(k, s))
    ensures SvcAt(p, k, s) ==> SvcAt(q, k, s)
    ensures SvcSealed(p, k, s) ==> SvcSealed(q, k, s)
  {
    ChrsFrame(p, q, InSvc(k), s.chrs);
  }

  /** A batch stays readable through any change at or past its end. */
  lemma {:induction false} SvcsFrame(p: Pools, q: Pools, k: Cursor, ss: seq<Svc>)
    requires Agree(p, q, AfterSvcs(k, ss))
    ensures SvcsAt(p, k, ss) ==> SvcsAt(q, k, ss)
    ensures SvcsSealed(p, k, ss) ==> SvcsSealed(q, k, ss)
  {
    if ss != [] {
      SvcsFrame(p, q, k, ss[..|ss| - 1]);
      SvcFrame(p, q, AfterSvcs(k, ss[..|ss| - 1]), ss[|ss| - 1]);
    }
  }

  lemma ChrSealedPast(p: Pools, q: Pools, k: Cursor, c: Chr)
    requires AgreePast(p, q, k)
    ensures ChrSealed(p, k, c) <==> ChrSealed(q, k, c)
  {
  }

  lemma {:induction false} ChrsSealedPast(p: Pools, q: Pools, k: Cursor, cs: seq<Chr>)
    requires AgreePast(p, q, k)
    ensures ChrsSealed(p, k, cs) <==> ChrsSealed(q, k, cs)
  {
    if cs != [] {
      ChrsSealedPast(p, q, k, cs[..|cs| - 1]);
      ChrSealedPast(p, q, AfterChrs(k, cs[..|cs| - 1]), cs[|cs| - 1]);
    }
  }

  lemma SvcSealedPast(p: Pools, q: Pools, k: Cursor, s: Svc)
    requires AgreePast(p, q, k)
    ensures SvcSealed(p, k, s) <==> SvcSealed(q, k, s)
  {
    ChrsSealedPast(p, q, InSvc(k), s.chrs);
  }

  // ----- saving writes the layout, only between the old and the new counters

  /** `q` differs from `p` only between the counters of the two. */
  ghost predicate Extends(p: Pools, q: Pools) {
    p.used.AtMost(q.used) && Agree(p, q, p.used) && AgreePast(p, q, q.used)
  }

  lemma ExtendsTrans(p: Pools, f: Pools, q: Pools)
    requires Extends(p, f) && Extends(f, q)
    ensures Extends(p, q)
  {
  }

  lemma SaveDscLayout(p: Pools, d: Dsc)
    requires p.Shape() && p.used.Within() && AfterDscs(p.used, 1).Within()
    ensures var q := SaveDsc(p, d);
            q.svcs == p.svcs && q.chrs == p.chrs && Extends(p, q) && DscAt(q, p.used, d)
  {
  }

  lemma {:induction false} SaveDscsLayout(p: Pools, ds: seq<Dsc>)
    requires p.Shape() && AfterDscs(p.used, |ds|).Within()
    ensures var q := SaveDscs(p, ds);
            q.svcs == p.svcs && q.chrs == p.chrs && Extends(p, q) && DscsAt(q, p.used, ds)
  {
    if ds != [] {
      var f, q := SaveDscs(p, ds[..|ds| - 1]), SaveDscs(p, ds);
      SaveDscsLayout(p, ds[..|ds| - 1]);
      SaveDscLayout(f, ds[|ds| - 1]);
      ExtendsTrans(p, f, q);
      DscsFrame(f, q, p.used, ds[..|ds| - 1]);
    }
  }

  lemma ChrFieldsLayout(p: Pools, c: Chr)
    requires p.Shape() && AfterChr(p.used, c).Within()
    ensures var h := SaveChrFields(p, c);
            && h.svcs == p.svcs && h.dscs == p.dscs
            && (forall i :: 0 <= i < MAX_CHRS && i != p.used.nc ==> h.chrs[i] == p.chrs[i])
            && (forall i :: 0 <= i < p.used.nu ==> h.uuids[i] == p.uuids[i])
            && ChrHeadAt(h, p.used, c) && (c.dscs == [] ==> h.chrs[p.used.nc].dscs == p.chrs[p.used.nc].dscs)
  {
  }

  lemma SaveChrLayout(p: Pools, c: Chr)
    requires p.Shape() && AfterChr(p.used, c).Within()
    ensures var q := SaveChr(p, c);
            q.svcs == p.svcs && Extends(p, q) && ChrAt(q, p.used, c)
    ensures ChrSealed(SaveChr(p, c), p.used, c) <==> ChrSealed(p, p.used, c)
  {
    var h, q := SaveChrFields(p, c), SaveChr(p, c);
    var d := SaveDscs(h, c.dscs);
    ChrFieldsLayout(p, c);
    SaveDscsLayout(h, c.dscs);
    DscsFrame(d, q, InChr(p.used), c.dscs);
  }

  /** One more characteristic behind those already laid out. */
  lemma ChrsGrow(f: Pools, q: Pools, k: Cursor, cs: seq<Chr>)
    requires cs != []
    requires var n := AfterChrs(k, cs[..|cs| - 1]);
             Agree(f, q, n) && ChrsAt(f, k, cs[..|cs| - 1]) && ChrAt(q, n, cs[|cs| - 1])
    ensures ChrsAt(q, k, cs)
  {
    ChrsFrame(f, q, k, cs[..|cs| - 1]);
  }

  lemma ChrsGrowSealed(p: Pools, f: Pools, q: Pools, k: Cursor, cs: seq<Chr>)
    requires cs != []
    requires var n := AfterChrs(k, cs[..|cs| - 1]);
             && AgreePast(p, f, n) && Agree(f, q, n)
             && (ChrsSealed(f, k, cs[..|cs| - 1]) <==> ChrsSealed(p, k, cs[..|cs| - 1]))
             && (ChrSealed(q, n, cs[|cs| - 1]) <==> ChrSealed(f, n, cs[|cs| - 1]))
    ensures ChrsSealed(q, k, cs) <==> ChrsSealed(p, k, cs)
  {
    var front := cs[..|cs| - 1];
    AgreeSym(f, q, AfterChrs(k, front));
    ChrsFrame(f, q, k, front);
    ChrsFrame(q, f, k, front);
    ChrSealedPast(p, f, AfterChrs(k, front), cs[|cs| - 1]);
  }

  lemma AgreeSym(p: Pools, q: Pools, k: Cursor)
    requires Agree(p, q, k)
    ensures Agree(q, p, k)
  {
  }

  lemma {:induction false} SaveChrsLayout(p: Pools, cs: seq<Chr>)
    requires p.Shape() && AfterChrs(p.used, cs).Within()
    ensures var q := SaveChrs(p, cs);
            q.svcs == p.svcs && Extends(p, q) && ChrsAt(q, p.used, cs)
    ensures ChrsSealed(SaveChrs(p, cs), p.used, cs) <==> ChrsSealed(p, p.used, cs)
  {
    if cs != [] {
      var f := SaveChrs(p, cs[..|cs| - 1]);
      SaveChrsLayout(p, cs[..|cs| - 1]);
      SaveChrLayout(f, cs[|cs| - 1]);
      var q := SaveChr(f, cs[|cs| - 1]);
      ExtendsTrans(p, f, q);
      ChrsGrow(f, q, p.used, cs);
      ChrsGrowSealed(p, f, q, p.used, cs);
    }
  }

  lemma SvcFieldsLayout(p: Pools, s: Svc)
    requires p.Shape() && AfterSvc(p.used, s).Within()
    ensures var h := SaveSvcFields(p, s);
            && h.chrs == p.chrs && h.dscs == p.dscs
            && (forall i :: 0 <= i < MAX_SVCS && i != p.used.ns ==> h.svcs[i] == p.svcs[i])
            && (forall i :: 0 <= i < p.used.nu ==> h.uuids[i] == p.uuids[i])
            && SvcHeadAt(h, p.used, s) && (s.chrs == [] ==> h.svcs[p.used.ns].chrs == p.svcs[p.used.ns].chrs)
  {
  }

  /** From the fields of a service (h) over its characteristics (c) to the counters moved on (q). */
  lemma SvcFinish(p: Pools, h: Pools, c: Pools, q: Pools, s: Svc)
    requires p.Shape() && h.Shape() && AfterSvc(p.used, s).Within()
    requires h.chrs == p.chrs && h.dscs == p.dscs && h.used == InSvc(p.used)
    requires forall i :: 0 <= i < MAX_SVCS && i != p.used.ns ==> h.svcs[i] == p.svcs[i]
    requires forall i :: 0 <= i < p.used.nu ==> h.uuids[i] == p.uuids[i]
    requires c.svcs == h.svcs && Extends(h, c) && c.used == AfterChrs(h.used, s.chrs)
    requires q == c.(used := AfterSvc(p.used, s))
    ensures Extends(p, q)
    ensures Agree(c, q, c.used)
  {
  }

  lemma SaveSvcLayout(p: Pools, s: Svc)
    requires p.Shape() && AfterSvc(p.used, s).Within()
    ensures var q := SaveSvc(p, s); Extends(p, q) && SvcAt(q, p.used, s)
    ensures SvcSealed(SaveSvc(p, s), p.used, s) <==> SvcSealed(p, p.used, s)
  {
    var h, q := SaveSvcFields(p, s), SaveSvc(p, s);
    var c := SaveChrs(h, s.chrs);
    SvcFieldsLayout(p, s);
    SaveChrsLayout(h, s.chrs);
    SvcFinish(p, h, c, q, s);
    ChrsFrame(c, q, h.used, s.chrs);
    SvcFinishSealed(p, h, c, q, s);
    assert q.uuids[p.used.nu] == h.uuids[p.used.nu];
  }

  lemma SvcFinishSealed(p: Pools, h: Pools, c: Pools, q: Pools, s: Svc)
    requires p.Shape() && h.Shape() && AfterSvc(p.used, s).Within()
    requires h.chrs == p.chrs && h.dscs == p.dscs && h.used == InSvc(p.used)
    requires s.chrs == [] ==> h.svcs[p.used.ns].chrs == p.svcs[p.used.ns].chrs
    requires c.svcs == h.svcs && Extends(h, c) && c.used == AfterChrs(h.used, s.chrs)
    requires q == c.(used := AfterSvc(p.used, s))
    requires ChrsSealed(c, h.used, s.chrs) <==> ChrsSealed(h, h.used, s.chrs)
    ensures SvcSealed(q, p.used, s) <==> SvcSealed(p, p.used, s)
  {
    if s.chrs != [] {
      ChrsFrame(c, q, h.used, s.chrs);
      ChrsFrame(q, c, h.used, s.chrs);
      ChrsSealedSame(p, h, h.used, s.chrs);
      assert q.chrs[c.used.nc] == h.chrs[c.used.nc];
    }
  }

  lemma {:induction false} ChrsSealedSame(p: Pools, q: Pools, k: Cursor, cs: seq<Chr>)
    requires p.chrs == q.chrs && p.dscs == q.dscs
    ensures ChrsSealed(p, k, cs) <==> ChrsSealed(q, k, cs)
  {
    if cs != [] {
      ChrsSealedSame(p, q, k, cs[..|cs| - 1]);
    }
  }

  lemma SvcsGrow(f: Pools, q: Pools, k: Cursor, ss: seq<Svc>)
    requires ss != []
    requires var n := AfterSvcs(k, ss[..|ss| - 1]);
             Agree(f, q, n) && SvcsAt(f, k, ss[..|ss| - 1]) && SvcAt(q, n, ss[|ss| - 1])
    ensures SvcsAt(q, k, ss)
  {
    SvcsFrame(f, q, k, ss[..|ss| - 1]);
  }

  lemma SvcsGrowSealed(p: Pools, f: Pools, q: Pools, k: Cursor, ss: seq<Svc>)
    requires ss != []
    requires var n := AfterSvcs(k, ss[..|ss| - 1]);
             && AgreePast(p, f, n) && Agree(f, q, n)
             && (SvcsSealed(f, k, ss[..|ss| - 1]) <==> SvcsSealed(p, k, ss[..|ss| - 1]))
             && (SvcSealed(q, n, ss[|ss| - 1]) <==> SvcSealed(f, n, ss[|ss| - 1]))
    ensures SvcsSealed(q, k, ss) <==> SvcsSealed(p, k, ss)
  {
    var front := ss[..|ss| - 1];
    AgreeSym(f, q, AfterSvcs(k, front));
    SvcsFrame(f, q, k, front);
    SvcsFrame(q, f, k, front);
    SvcSealedPast(p, f, AfterSvcs(k, front), ss[|ss| - 1]);
  }

  lemma {:induction false} SaveSvcsLayout(p: Pools, ss: seq<Svc>)
    requires p.Shape() && AfterSvcs(p.used, ss).Within()
    ensures var q := SaveSvcs(p, ss); Extends(p, q) && SvcsAt(q, p.used, ss)
    ensures SvcsSealed(SaveSvcs(p, ss), p.used, ss) <==> SvcsSealed(p, p.used, ss)
  {
    if ss != [] {
      var f := SaveSvcs(p, ss[..|ss| - 1]);
      SaveSvcsLayout(p, ss[..|ss| - 1]);
      SaveSvcLayout(f, ss[|ss| - 1]);
      var q := SaveSvc(f, ss[|ss| - 1]);
      ExtendsTrans(p, f, q);
      SvcsGrow(f, q, p.used, ss);
      SvcsGrowSealed(p, f, q, p.used, ss);
    }
  }

  // ----- the parts of a layout

  lemma {:induction false} DscsAtIndex(p: Pools, k: Cursor, ds: seq<Dsc>, i: nat)
    requires DscsAt(p, k, ds) && i < |ds|
    ensures DscAt(p, AfterDscs(k, i), ds[i])
  {
    if i < |ds| - 1 {
      DscsAtIndex(p, k, ds[..|ds| - 1], i);
    }
  }

  lemma {:induction false} ChrsAtIndex(p: Pools, k: Cursor, cs: seq<Chr>, i: nat)
    requires ChrsAt(p, k, cs) && i < |cs|
    ensures ChrAt(p, AfterChrs(k, cs[..i]), cs[i])
  {
    if i < |cs| - 1 {
      assert cs[..|cs| - 1][..i] == cs[..i];
      ChrsAtIndex(p, k, cs[..|cs| - 1], i);
    }
  }

  lemma {:induction false} SvcsAtIndex(p: Pools, k: Cursor, ss: seq<Svc>, a: nat)
    requires SvcsAt(p, k, ss) && a < |ss|
    ensures SvcAt(p, AfterSvcs(k, ss[..a]), ss[a])
  {
    if a < |ss| - 1 {
      assert ss[..|ss| - 1][..a] == ss[..a];
      SvcsAtIndex(p, k, ss[..|ss| - 1], a);
    }
  }

  /** The i-th characteristic of a layout, by its slot and its value-handle cell. */
  lemma ChrPart(p: Pools, k: Cursor, cs: seq<Chr>, i: nat)
    requires ChrsAt(p, k, cs) && i < |cs|
    ensures var n := AfterChrs(k, cs[..i]);
            n.nc == k.nc + i < |p.chrs| && n.nv == k.nv + i && ChrAt(p, n, cs[i])
  {
    ChrsAtIndex(p, k, cs, i);
  }

  lemma SvcPlace(p: Pools, k: Cursor, ss: seq<Svc>, a: nat)
    requires SvcsAt(p, k, ss) && a < |ss|
    ensures var n := AfterSvcs(k, ss[..a]);
            n.ns == k.ns + a < |p.svcs| && SvcAt(p, n, ss[a])
  {
    SvcsAtIndex(p, k, ss, a);
  }

  lemma {:induction false} ChrsSealedAt(p: Pools, k: Cursor, cs: seq<Chr>, i: nat)
    requires ChrsSealed(p, k, cs) && i < |cs|
    ensures ChrSealed(p, AfterChrs(k, cs[..i]), cs[i])
  {
    if i < |cs| - 1 {
      assert cs[..|cs| - 1][..i] == cs[..i];
      ChrsSealedAt(p, k, cs[..|cs| - 1], i);
    }
  }

  lemma {:induction false} SvcsSealedAt(p: Pools, k: Cursor, ss: seq<Svc>, a: nat)
    requires SvcsSealed(p, k, ss) && a < |ss|
    ensures SvcSealed(p, AfterSvcs(k, ss[..a]), ss[a])
  {
    if a < |ss| - 1 {
      assert ss[..|ss| - 1][..a] == ss[..a];
      SvcsSealedAt(p, k, ss[..|ss| - 1], a);
    }
  }

  /** A list that is not sealed has an item that is not. */
  lemma {:induction false} ChrUnsealed(p: Pools, k: Cursor, cs: seq<Chr>) returns (i: nat)
    requires !ChrsSealed(p, k, cs)
    ensures i < |cs| && !ChrSealed(p, AfterChrs(k, cs[..i]), cs[i])
  {
    var front := cs[..|cs| - 1];
    if ChrsSealed(p, k, front) {
      i := |cs| - 1;
    } else {
      i := ChrUnsealed(p, k, front);
      assert front[..i] == cs[..i];
    }
  }

  lemma {:induction false} SvcUnsealed(p: Pools, k: Cursor, ss: seq<Svc>) returns (a: nat)
    requires !SvcsSealed(p, k, ss)
    ensures a < |ss| && !SvcSealed(p, AfterSvcs(k, ss[..a]), ss[a])
  {
    var front := ss[..|ss| - 1];
    if SvcsSealed(p, k, front) {
      a := |ss| - 1;
    } else {
      a := SvcUnsealed(p, k, front);
      assert front[..a] == ss[..a];
    }
  }
}
