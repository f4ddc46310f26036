/** Slices and value-handle cells of different characteristics never overlap. */
module GattPlaces {
  import opened Basics
  import opened EventSeq
  import opened Gatt
  import opened GattPools
  import opened GattLayout
  import opened GattWalk
  import opened GattTheorems

  // ----- slices of one batch

  /** The counters at which the i-th characteristic of the a-th service is saved. */
  function ChrPlace(k: Cursor, ss: seq<Svc>, a: nat, i: nat): Cursor
    requires a < |ss| && i <= |ss[a].chrs|
  {
    AfterChrs(InSvc(AfterSvcs(k, ss[..a])), ss[a].chrs[..i])
  }

  lemma ChrsStep(k: Cursor, cs: seq<Chr>, i: nat, j: nat)
    requires i < j <= |cs|
    ensures AfterChr(AfterChrs(k, cs[..i]), cs[i]).AtMost(AfterChrs(k, cs[..j]))
  {
    assert cs[..i + 1][..i] == cs[..i];
    assert cs[..j][..i + 1] == cs[..i + 1];
    ChrsPrefix(k, cs[..j], i + 1);
  }

  lemma SvcsStep(k: Cursor, ss: seq<Svc>, a: nat, b: nat)
    requires a < b <= |ss|
    ensures AfterSvc(AfterSvcs(k, ss[..a]), ss[a]).AtMost(AfterSvcs(k, ss[..b]))
  {
    assert ss[..a + 1][..a] == ss[..a];
    assert ss[..b][..a + 1] == ss[..a + 1];
    SvcsPrefix(k, ss[..b], a + 1);
  }

  /** One characteristic ends, terminators included, before the next one begins. */
  lemma PlacesOrdered(k: Cursor, ss: seq<Svc>, a: nat, i: nat, b: nat, j: nat)
    requires a < |ss| && i < |ss[a].chrs| && b < |ss| && j < |ss[b].chrs|
    requires a < b || (a == b && i < j)
    ensures AfterChr(ChrPlace(k, ss, a, i), ss[a].chrs[i]).AtMost(ChrPlace(k, ss, b, j))
  {
    var base := InSvc(AfterSvcs(k, ss[..a]));
    if a == b {
      ChrsStep(base, ss[a].chrs, i, j);
    } else {
      ChrsStep(base, ss[a].chrs, i, |ss[a].chrs|);
      assert ss[a].chrs[..|ss[a].chrs|] == ss[a].chrs;
      SvcsStep(k, ss, a, b);
      ChrsPrefix(InSvc(AfterSvcs(k, ss[..b])), ss[b].chrs[..j], 0);
    }
  }

  /**
   Two characteristics of a batch, wherever they stand: their value-handle cells differ, and
   one's descriptors and terminator end before the other's descriptors begin.
   */
  lemma ChrSlicesDisjoint(p: Pools, k: Cursor, ss: seq<Svc>, a: nat, i: nat, b: nat, j: nat)
    requires SvcsAt(p, k, ss)
    requires a < |ss| && i < |ss[a].chrs| && b < |ss| && j < |ss[b].chrs|
    requires a < b || (a == b && i < j)
    ensures var x, y := ChrPlace(k, ss, a, i), ChrPlace(k, ss, b, j);
            && x.nc < y.nc < |p.chrs|
            && p.chrs[x.nc].valHandle.At? && p.chrs[y.nc].valHandle.At?
            && p.chrs[x.nc].valHandle.i < p.chrs[y.nc].valHandle.i
            && (ss[a].chrs[i].dscs != [] && ss[b].chrs[j].dscs != [] ==>
                  && p.chrs[x.nc].dscs.At? && p.chrs[y.nc].dscs.At?
                  && p.chrs[x.nc].dscs.i + |ss[a].chrs[i].dscs| < p.chrs[y.nc].dscs.i)
  {
    ChrOfBatch(p, k, ss, a, i);
    ChrOfBatch(p, k, ss, b, j);
    PlacesOrdered(k, ss, a, i, b, j);
  }

  lemma ChrOfBatch(p: Pools, k: Cursor, ss: seq<Svc>, a: nat, i: nat)
    requires SvcsAt(p, k, ss) && a < |ss| && i < |ss[a].chrs|
    ensures ChrAt(p, ChrPlace(k, ss, a, i), ss[a].chrs[i])
  {
    SvcsAtIndex(p, k, ss, a);
    ChrsAtIndex(p, InSvc(AfterSvcs(k, ss[..a])), ss[a].chrs, i);
  }

  /** Characteristic slices of two services, terminators included, do not overlap either. */
  lemma SvcSlicesDisjoint(p: Pools, k: Cursor, ss: seq<Svc>, a: nat, b: nat)
    requires SvcsAt(p, k, ss) && a < b < |ss| && ss[a].chrs != [] && ss[b].chrs != []
    ensures k.ns + b < |p.svcs|
    ensures p.svcs[k.ns + a].chrs.At? && p.svcs[k.ns + b].chrs.At?
    ensures p.svcs[k.ns + a].chrs.i + |ss[a].chrs| < p.svcs[k.ns + b].chrs.i
  {
    SvcPointer(p, k, ss, a);
    SvcPointer(p, k, ss, b);
    SvcsStep(k, ss, a, b);
  }

  lemma SvcPointer(p: Pools, k: Cursor, ss: seq<Svc>, a: nat)
    requires SvcsAt(p, k, ss) && a < |ss| && ss[a].chrs != []
    ensures k.ns + a < |p.svcs| && p.svcs[k.ns + a].chrs == At(AfterSvcs(k, ss[..a]).nc)
  {
    SvcsAtIndex(p, k, ss, a);
  }

  // ----- the sequence numbers that tell access events apart

  /** How many attributes of a batch are saved before the i-th characteristic of the a-th service. */
  function AttrsBefore(ss: seq<Svc>, a: nat, i: nat): nat
    requires a < |ss| && i <= |ss[a].chrs|
  {
    ChrCount(ss[..a]) + AllDscCount(ss[..a]) + i + DscCount(ss[a].chrs[..i])
  }

  lemma {:induction false} DrawsAdd(seqNo: nat, m: nat, n: nat)
    ensures Draws(Draws(seqNo, m), n) == Draws(seqNo, m + n)
  {
    if n > 0 {
      DrawsAdd(seqNo, m, n - 1);
    }
  }

  lemma {:induction false} DscsDraw(k: Cursor, n: nat)
    ensures AfterDscs(k, n).seqNo == Draws(k.seqNo, n)
  {
    if n > 0 {
      DscsDraw(k, n - 1);
    }
  }

  lemma Then(s0: nat, m: nat, s1: nat, n: nat, s2: nat, total: nat)
    requires s1 == Draws(s0, m) && s2 == Draws(s1, n) && total == m + n
    ensures s2 == Draws(s0, total)
  {
    DrawsAdd(s0, m, n);
  }

  lemma InChrDraws(k: Cursor, n: nat)
    ensures AfterDscs(InChr(k), n).seqNo == Draws(k.seqNo, 1 + n)
  {
    assert Draws(k.seqNo, 0) == k.seqNo;
    DscsDraw(InChr(k), n);
    Then(k.seqNo, 1, InChr(k).seqNo, n, AfterDscs(InChr(k), n).seqNo, 1 + n);
  }

  lemma {:induction false} ChrsDraw(k: Cursor, cs: seq<Chr>)
    ensures AfterChrs(k, cs).seqNo == Draws(k.seqNo, |cs| + DscCount(cs))
  {
    if cs != [] {
      var front, last := cs[..|cs| - 1], cs[|cs| - 1];
      var f := AfterChrs(k, front);
      ChrsDraw(k, front);
      InChrDraws(f, |last.dscs|);
      Then(k.seqNo, |front| + DscCount(front), f.seqNo, 1 + |last.dscs|, AfterChr(f, last).seqNo,
           |cs| + DscCount(cs));
    }
  }

  /** A service's characteristics and descriptors, saved when m numbers have been drawn. */
  lemma SvcDraws(seqNo: nat, m: nat, f: Cursor, cs: seq<Chr>, total: nat)
    requires f.seqNo == Draws(seqNo, m) && total == m + (|cs| + DscCount(cs))
    ensures AfterChrs(InSvc(f), cs).seqNo == Draws(seqNo, total)
  {
    ChrsDraw(InSvc(f), cs);
    Then(seqNo, m, f.seqNo, |cs| + DscCount(cs), AfterChrs(InSvc(f), cs).seqNo, total);
  }

  lemma {:induction false} SvcsDraw(k: Cursor, ss: seq<Svc>, total: nat)
    requires total == ChrCount(ss) + AllDscCount(ss)
    ensures AfterSvcs(k, ss).seqNo == Draws(k.seqNo, total)
  {
    if ss != [] {
      var front, cs := ss[..|ss| - 1], ss[|ss| - 1].chrs;
      var m := ChrCount(front) + AllDscCount(front);
      SvcsDraw(k, front, m);
      SvcDraws(k.seqNo, m, AfterSvcs(k, front), cs, total);
    }
  }

  lemma PlaceDraws(k: Cursor, ss: seq<Svc>, a: nat, i: nat)
    requires a < |ss| && i <= |ss[a].chrs|
    ensures ChrPlace(k, ss, a, i).seqNo == Draws(k.seqNo, AttrsBefore(ss, a, i))
  {
    var m := ChrCount(ss[..a]) + AllDscCount(ss[..a]);
    SvcsDraw(k, ss[..a], m);
    SvcDraws(k.seqNo, m, AfterSvcs(k, ss[..a]), ss[a].chrs[..i], AttrsBefore(ss, a, i));
  }

  lemma DscArg(p: Pools, x: Cursor, c: Chr, m: nat, start: nat, first: nat, n: nat)
    requires ChrAt(p, x, c) && m < |c.dscs| && x.seqNo == Draws(start, first) && n == first + 1 + m
    ensures x.nd + m < |p.dscs| && p.dscs[x.nd + m].arg == Draws(start, n)
  {
    DscsAtIndex(p, InChr(x), c.dscs, m);
    InChrDraws(x, m);
    Then(start, first, x.seqNo, 1 + m, p.dscs[x.nd + m].arg, n);
  }

  /**
   Attributes draw their numbers in the order in which they are saved: a characteristic, the n-th
   attribute of the batch, and then its descriptors.
   */
  lemma ChrArgs(p: Pools, k: Cursor, ss: seq<Svc>, a: nat, i: nat, n: nat)
    requires SvcsAt(p, k, ss) && a < |ss| && i < |ss[a].chrs| && n == AttrsBefore(ss, a, i)
    ensures var x := ChrPlace(k, ss, a, i);
            && x.nc < |p.chrs| && p.chrs[x.nc].arg == x.seqNo == Draws(k.seqNo, n)
            && ChrAt(p, x, ss[a].chrs[i])
  {
    PlaceDraws(k, ss, a, i);
    ChrOfBatch(p, k, ss, a, i);
  }

  /** `x` is where the characteristic is saved, `first` its own number among the attributes. */
  lemma DscArgs(p: Pools, k: Cursor, ss: seq<Svc>, a: nat, i: nat, x: Cursor, first: nat, m: nat)
    requires SvcsAt(p, k, ss) && a < |ss| && i < |ss[a].chrs| && m < |ss[a].chrs[i].dscs|
    requires x == ChrPlace(k, ss, a, i) && first == AttrsBefore(ss, a, i)
    ensures x.nd + m < |p.dscs| && p.dscs[x.nd + m].arg == Draws(k.seqNo, first + 1 + m)
  {
    ChrArgs(p, k, ss, a, i, first);
    DscArg(p, x, ss[a].chrs[i], m, k.seqNo, first, first + 1 + m);
  }

  // ----- the numbers drawn over a whole history

  /** One for each attribute of an accepted batch, and one for each other event; a clear draws none. */
  function NumbersDrawn(p: Pools, es: seq<Event>): nat
    requires p.Shape()
  {
    if es == [] then 0
    else
      var front, last := es[..|es| - 1], es[|es| - 1];
      NumbersDrawn(p, front)
        + match last
          case AddSvcs(ss) => if Verify(Run(p, front).used, ss).Ok? then ChrCount(ss) + AllDscCount(ss) else 0
          case ClearSvcs => 0
          case DrawSeq => 1
  }

  lemma {:induction false} RunDraws(p: Pools, es: seq<Event>)
    requires p.Shape()
    ensures Run(p, es).used.seqNo == Draws(p.used.seqNo, NumbersDrawn(p, es))
  {
    if es != [] {
      var front, last := es[..|es| - 1], es[|es| - 1];
      var k := Run(p, front).used;
      RunDraws(p, front);
      if last.AddSvcs? && Verify(k, last.svcs).Ok? {
        var n := ChrCount(last.svcs) + AllDscCount(last.svcs);
        AddLayout(Run(p, front), last.svcs);
        SvcsDraw(k, last.svcs, n);
        Then(p.used.seqNo, NumbersDrawn(p, front), k.seqNo, n, Run(p, es).used.seqNo, NumbersDrawn(p, es));
      }
    }
  }

  // ----- value-handle cells over a whole history

  /** Registered characteristics use cells in ascending order, all below the counter. */
  ghost predicate CellsAscend(p: Pools) {
    && p.Shape() && p.used.nc <= MAX_CHRS
    && (forall i :: 0 <= i < p.used.nc && p.chrs[i].uuid.At? ==>
          p.chrs[i].valHandle.At? && p.chrs[i].valHandle.i < p.used.nv)
    && (forall i, j :: 0 <= i < j < p.used.nc && p.chrs[i].uuid.At? && p.chrs[j].uuid.At? ==>
          p.chrs[i].valHandle.i < p.chrs[j].valHandle.i)
  }

  lemma SaveChrCells(p: Pools, c: Chr)
    requires AfterChr(p.used, c).Within() && CellsAscend(p)
    ensures CellsAscend(SaveChr(p, c))
  {
    SaveDscsLayout(SaveChrFields(p, c), c.dscs);
  }

  lemma {:induction false} SaveChrsCells(p: Pools, cs: seq<Chr>)
    requires AfterChrs(p.used, cs).Within() && CellsAscend(p)
    ensures CellsAscend(SaveChrs(p, cs))
  {
    if cs != [] {
      SaveChrsCells(p, cs[..|cs| - 1]);
      SaveChrCells(SaveChrs(p, cs[..|cs| - 1]), cs[|cs| - 1]);
    }
  }

  lemma TerminatorCells(c: Pools, q: Pools)
    requires CellsAscend(c) && q.Shape() && q.chrs == c.chrs && q.used.nv == c.used.nv
    requires q.used.nc == c.used.nc || (q.used.nc == c.used.nc + 1 <= MAX_CHRS && c.chrs[c.used.nc].uuid.Null?)
    ensures CellsAscend(q)
  {
  }

  lemma ExtendsNullPast(p: Pools, q: Pools)
    requires NullPast(p) && Extends(p, q)
    ensures NullPast(q)
  {
  }

  lemma EndSvcCells(p: Pools, h: Pools, c: Pools, hasChrs: bool)
    requires NullPast(p) && h.chrs == p.chrs && h.used.nc == p.used.nc && Extends(h, c) && CellsAscend(c)
    requires hasChrs ==> c.used.nc < MAX_CHRS
    ensures CellsAscend(EndSvc(c, hasChrs))
  {
    if hasChrs {
      assert c.chrs[c.used.nc] == h.chrs[c.used.nc] == NO_CHR;
    }
    TerminatorCells(c, EndSvc(c, hasChrs));
  }

  lemma SaveSvcCells(p: Pools, s: Svc)
    requires AfterSvc(p.used, s).Within() && CellsAscend(p) && NullPast(p)
    ensures CellsAscend(SaveSvc(p, s)) && NullPast(SaveSvc(p, s))
  {
    var h := SaveSvcFields(p, s);
    assert CellsAscend(h);
    SaveChrsCells(h, s.chrs);
    SaveChrsLayout(h, s.chrs);
    EndSvcCells(p, h, SaveChrs(h, s.chrs), s.chrs != []);
    SaveSvcLayout(p, s);
    ExtendsNullPast(p, SaveSvc(p, s));
  }

  lemma {:induction false} SaveSvcsCells(p: Pools, ss: seq<Svc>)
    requires AfterSvcs(p.used, ss).Within() && CellsAscend(p) && NullPast(p)
    ensures CellsAscend(SaveSvcs(p, ss)) && NullPast(SaveSvcs(p, ss))
  {
    if ss != [] {
      SaveSvcsCells(p, ss[..|ss| - 1]);
      SaveSvcCells(SaveSvcs(p, ss[..|ss| - 1]), ss[|ss| - 1]);
    }
  }

  /** In every history without a clear, no two registered characteristics share a cell. */
  lemma {:induction false} RunCellsAscend(p: Pools, es: seq<Event>)
    requires CellsAscend(p) && NullPast(p) && NoClear(es)
    ensures CellsAscend(Run(p, es))
  {
    if es != [] {
      var f, last := Run(p, es[..|es| - 1]), es[|es| - 1];
      RunCellsAscend(p, es[..|es| - 1]);
      RunNullPast(p, es[..|es| - 1]);
      if last.AddSvcs? && Verify(f.used, last.svcs).Ok? {
        VerifySound(f.used, last.svcs);
        SaveSvcsCells(f, last.svcs);
      }
    }
  }

  // ----- a clear does not null the pools

  /**
   The same characteristic registered again after a clear, with fewer descriptors: the batch is
   accepted, but the host stack reads back the leftover descriptors as well.
   */
  lemma ClearThenFewer(p: Pools, s: Svc, c: Chr, m: nat)
    requires Live(p) && NullPast(p) && p.used.ns == p.used.nc == p.used.nd == p.used.nu == p.used.nv == 0
    requires s.stype != 0 && s.chrs == [c] && 0 < m < |c.dscs| && Verify(p.used, [s]).Ok?
    ensures var fewer := [s.(chrs := [c.(dscs := c.dscs[..m])])];
            var q := Clear(Add(p, [s]));
            Verify(q.used, fewer).Ok? && WalkSvcs(Add(q, fewer), 0) != Some(fewer)
  {
    var c' := c.(dscs := c.dscs[..m]);
    var s' := s.(chrs := [c']);
    var after := Add(p, [s]);
    var q := Clear(after);
    AddLayout(p, [s]);
    AddLive(p, [s]);
    ChrOfBatch(after, p.used, [s], 0, 0);
    var x := ChrPlace(p.used, [s], 0, 0);
    assert [s][..0] == [] && [c][..0] == [];
    DscsAtIndex(after, InChr(x), c.dscs, m);
    assert q.dscs[m].uuid.At?;
    FewerCounts(s, c, s', c');
    NotSealed(q, s', c');
    AddDecodesIff(q, [s']);
  }

  lemma FewerCounts(s: Svc, c: Chr, s': Svc, c': Chr)
    requires s.chrs == [c] && s'.chrs == [c'] && 0 < |c'.dscs| < |c.dscs|
    ensures CountedChrs([s']) == CountedChrs([s]) && ChrCount([s']) == ChrCount([s])
    ensures AllDscSlots([s']) < AllDscSlots([s])
  {
    assert [s][..0] == [] && [s'][..0] == [] && [c][..0] == [] && [c'][..0] == [];
    assert DscSlots([c]) == |c.dscs| + 1 && DscSlots([c']) == |c'.dscs| + 1;
  }

  lemma NotSealed(q: Pools, s: Svc, c: Chr)
    requires q.Shape() && q.used.ns == q.used.nc == q.used.nd == 0
    requires s.chrs == [c] && 0 < |c.dscs| < MAX_DSCS && q.dscs[|c.dscs|].uuid.At?
    ensures !Sealed(q, q.used, [s])
  {
    assert [s][..0] == [] && [c][..0] == [];
    assert !ChrSealed(q, AfterChrs(InSvc(q.used), []), c);
    assert !ChrsSealed(q, InSvc(q.used), [c]);
    assert !SvcSealed(q, AfterSvcs(q.used, []), s);
  }
}
