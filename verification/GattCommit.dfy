/** The success path of committing: listing what was registered, with the handles the host stack assigned. */
module GattCommit {
  import opened Basics
  import opened Gatt
  import opened GattPools
  import opened GattLayout
  import opened GattWalk
  import opened GattRegistry
  import opened Slices

  datatype CommitChr = CommitChr(uuid: Uuid, defHandle: nat, valHandle: nat)
  datatype CommitSvc = CommitSvc(uuid: Uuid, chrs: seq<CommitChr>)

  /** One below the value handle, in 16 bits. */
  function DefHandle(valHandle: nat): nat {
    (valHandle + 0xffff) % 0x10000
  }

  /** One characteristic with the handle in its cell; None stands for a null or stray pointer. */
  function ReportChr(p: Pools, vals: seq<nat>, e: ChrDef): Option<CommitChr> {
    if e.uuid.Null? || e.uuid.i >= |p.uuids| || e.valHandle.Null? || e.valHandle.i >= |vals| then None
    else Some(CommitChr(p.uuids[e.uuid.i], DefHandle(vals[e.valHandle.i]), vals[e.valHandle.i]))
  }

  function ChrReporter(p: Pools, vals: seq<nat>): ChrDef -> Option<CommitChr> {
    e => ReportChr(p, vals, e)
  }

  function ReportChrs(p: Pools, vals: seq<nat>, i: nat): Option<seq<CommitChr>> {
    Walk(p.chrs, i, EndsChrs, ChrReporter(p, vals))
  }

  function ReportSvc(p: Pools, vals: seq<nat>, e: SvcDef): Option<CommitSvc> {
    if e.uuid.Null? || e.uuid.i >= |p.uuids| || e.chrs.Null? then None
    else match ReportChrs(p, vals, e.chrs.i)
         case None => None
         case Some(chrs) => Some(CommitSvc(p.uuids[e.uuid.i], chrs))
  }

  function ReportSvcs(p: Pools, vals: seq<nat>, i: nat, n: nat): Option<seq<CommitSvc>>
    requires i <= n <= |p.svcs|
    decreases n - i
  {
    if i == n then Some([])
    else match ReportSvc(p, vals, p.svcs[i])
         case None => None
         case Some(svc) =>
           match ReportSvcs(p, vals, i + 1, n)
           case None => None
           case Some(rest) => Some([svc] + rest)
  }

  /** All registered service slots but the last one; with no slot in use nothing is listed. */
  function Commit(p: Pools, vals: seq<nat>): Option<seq<CommitSvc>>
    requires p.Shape() && p.used.Within()
  {
    ReportSvcs(p, vals, 0, if p.used.ns == 0 then 0 else p.used.ns - 1)
  }

  // ----- what may go wrong on the way

  /** The return codes of the three calls into the host stack. */
  datatype Host = Host(countRc: int, addRc: int, startRc: int) {
    predicate Succeeds() {
      countRc == 0 && addRc == 0 && startRc == 0
    }
  }

  datatype Response =
    | Listing(svcs: seq<CommitSvc>)
    | Failure(status: int)
    | Overrun   // the cleanup reads one entry past the allocated list, which C leaves undefined

  /** A terminator ends the characteristics from slot i on. */
  predicate Ended(p: Pools, i: nat)
    decreases |p.chrs| - i
  {
    i < |p.chrs| && (p.chrs[i].uuid.At? ==> Ended(p, i + 1))
  }

  /** What the loop follows in a service before it allocates room for the characteristics. */
  predicate Countable(p: Pools, e: SvcDef) {
    e.uuid.At? && e.uuid.i < |p.uuids| && e.chrs.At? && Ended(p, e.chrs.i)
  }

  /** The loop over the services from slot i on; None stands for a null or stray pointer. */
  function List(p: Pools, vals: seq<nat>, mem: seq<bool>, i: nat, n: nat): Option<Response>
    requires i <= n <= |p.svcs|
    decreases n - i
  {
    if i == n then Some(Listing([]))
    else if !Countable(p, p.svcs[i]) then None
    else if !AllocAt(mem, i + 1) then Some(Overrun)
    else match ReportSvc(p, vals, p.svcs[i])
         case None => None
         case Some(svc) => Before(svc, List(p, vals, mem, i + 1, n))
  }

  function Before(svc: CommitSvc, rest: Option<Response>): Option<Response> {
    if rest.Some? && rest.value.Listing? then Some(Listing([svc] + rest.value.svcs)) else rest
  }

  /**
   The whole request. Without a registered slot the list would have -1 entries; that allocation,
   like any other that fails, leaves a return code of 0 behind.
   */
  function Answer(p: Pools, vals: seq<nat>, host: Host, mem: seq<bool>): Option<Response>
    requires p.Shape() && p.used.Within()
  {
    if p.used.ns > 0 && host.countRc != 0 then Some(Failure(host.countRc))
    else if p.used.ns > 0 && host.addRc != 0 then Some(Failure(host.addRc))
    else if host.startRc != 0 then Some(Failure(host.startRc))
    else if p.used.ns == 0 || !AllocAt(mem, 0) then Some(Failure(0))
    else List(p, vals, mem, 0, p.used.ns - 1)
  }

  /** The return codes of the calls into the host stack, in the order in which they are made. */
  function Codes(ns: nat, host: Host): seq<int> {
    (if ns > 0 then [host.countRc, host.addRc] else []) + [host.startRc]
  }

  predicate AllZero(codes: seq<int>) {
    forall j :: 0 <= j < |codes| ==> codes[j] == 0
  }

  /** The first code that is not zero. */
  predicate FirstError(codes: seq<int>, j: nat) {
    j < |codes| && codes[j] != 0 && forall m :: 0 <= m < j ==> codes[m] == 0
  }

  /**
   Exactly which response there is: the first error the host stack reports; otherwise status 0
   without a list, when there is nothing to list or no memory for the list; otherwise the
   complete listing, unless the memory for one of the services is missing.
   */
  ghost predicate Answers(p: Pools, vals: seq<nat>, host: Host, mem: seq<bool>, rsp: Response)
    requires p.Shape() && p.used.Within()
  {
    var codes := Codes(p.used.ns, host);
    && (forall j: nat :: FirstError(codes, j) ==> rsp == Failure(codes[j]))
    && (AllZero(codes) && (p.used.ns == 0 || !AllocAt(mem, 0)) ==> rsp == Failure(0))
    && (AllZero(codes) && p.used.ns > 0 && AllocAt(mem, 0) ==>
          && (rsp.Listing? <==> forall j :: 1 <= j < p.used.ns ==> AllocAt(mem, j))
          && (rsp.Listing? ==> Commit(p, vals) == Some(rsp.svcs))
          && (!rsp.Listing? ==> rsp.Overrun?))
  }

  lemma AnswerIs(p: Pools, vals: seq<nat>, host: Host, mem: seq<bool>)
    requires p.Shape() && p.used.Within() && Answer(p, vals, host, mem).Some?
    ensures Answers(p, vals, host, mem, Answer(p, vals, host, mem).value)
  {
    var codes := Codes(p.used.ns, host);
    if p.used.ns > 0 {
      assert codes == [host.countRc, host.addRc, host.startRc];
      assert codes[0] == host.countRc && codes[1] == host.addRc && codes[2] == host.startRc;
    } else {
      assert codes == [host.startRc] && codes[0] == host.startRc;
    }
    if AllZero(codes) && p.used.ns > 0 && AllocAt(mem, 0) {
      ListedIs(p, vals, mem, 0, p.used.ns - 1);
    }
  }

  /** A list is complete exactly if no allocation for a service fails. */
  lemma {:induction false} ListedIs(p: Pools, vals: seq<nat>, mem: seq<bool>, i: nat, n: nat)
    requires i <= n <= |p.svcs| && List(p, vals, mem, i, n).Some?
    ensures var rsp := List(p, vals, mem, i, n).value;
            && (rsp.Listing? <==> forall j :: i < j <= n ==> AllocAt(mem, j))
            && (rsp.Listing? ==> ReportSvcs(p, vals, i, n) == Some(rsp.svcs))
            && (!rsp.Listing? ==> rsp.Overrun?)
    decreases n - i
  {
    if i < n && AllocAt(mem, i + 1) {
      ListedIs(p, vals, mem, i + 1, n);
    }
  }

  lemma {:induction false} ReportedEnds(p: Pools, vals: seq<nat>, i: nat)
    requires ReportChrs(p, vals, i).Some?
    ensures Ended(p, i)
    decreases |p.chrs| - i
  {
    if p.chrs[i].uuid.At? {
      ReportedEnds(p, vals, i + 1);
    }
  }

  /** Where all pointers are good, the list is complete unless an allocation for a service fails. */
  lemma {:induction false} ListIs(p: Pools, vals: seq<nat>, mem: seq<bool>, i: nat, n: nat)
    requires i <= n <= |p.svcs|
    ensures ReportSvcs(p, vals, i, n).Some? ==>
              List(p, vals, mem, i, n)
                == Some(if forall j :: i < j <= n ==> AllocAt(mem, j) then Listing(ReportSvcs(p, vals, i, n).value)
                        else Overrun)
    ensures ReportSvcs(p, vals, i, n).None? && (forall j :: i < j <= n ==> AllocAt(mem, j)) ==>
              List(p, vals, mem, i, n).None?
    decreases n - i
  {
    if i < n {
      ListIs(p, vals, mem, i + 1, n);
      if ReportSvc(p, vals, p.svcs[i]).Some? {
        ReportedEnds(p, vals, p.svcs[i].chrs.i);
      }
    }
  }

  /**
   When the host stack succeeds and there is room for the list: the response is the listing if no
   allocation fails, and otherwise the cleanup overruns the list.
   */
  lemma CommitAnswers(p: Pools, vals: seq<nat>, host: Host, mem: seq<bool>)
    requires p.Shape() && p.used.Within() && p.used.ns > 0
    requires host.Succeeds() && AllocAt(mem, 0)
    ensures Commit(p, vals).Some? ==>
              Answer(p, vals, host, mem)
                == Some(if forall j :: 1 <= j < p.used.ns ==> AllocAt(mem, j) then Listing(Commit(p, vals).value)
                        else Overrun)
    ensures Commit(p, vals).None? && AllSucceed(mem) ==> Answer(p, vals, host, mem).None?
  {
    var n := p.used.ns - 1;
    ListIs(p, vals, mem, 0, n);
  }

  // ----- the nested loops

  /** The loop that counts up to the terminator. */
  method CountChrs(r: Registry, first: nat) returns (n: nat)
    requires r.Valid() && Ended(r.Abs(), first)
    ensures first + n < r.chrs.Length && r.chrs[first + n].uuid.Null?
    ensures forall i :: first <= i < first + n ==> r.chrs[i].uuid.At?
  {
    ghost var p := r.Abs();
    n := 0;
    while r.chrs[first + n].uuid.At?
      invariant Ended(p, first + n)
      invariant forall i :: first <= i < first + n ==> r.chrs[i].uuid.At?
      decreases r.chrs.Length - first - n
    {
      n := n + 1;
    }
  }

  /** The loop that copies that many characteristics. */
  method CopyChrs(r: Registry, valHandles: array<nat>, first: nat, n: nat) returns (chrs: seq<CommitChr>)
    requires r.Valid() && ReportChrs(r.Abs(), valHandles[..], first).Some?
    requires first + n < r.chrs.Length && r.chrs[first + n].uuid.Null?
    requires forall i :: first <= i < first + n ==> r.chrs[i].uuid.At?
    ensures Some(chrs) == ReportChrs(r.Abs(), valHandles[..], first)
  {
    ghost var p, vals := r.Abs(), valHandles[..];
    chrs := [];
    ghost var whole := ReportChrs(p, vals, first).value;
    assert chrs + whole == whole;
    for i := 0 to n
      invariant ReportChrs(p, vals, first + i).Some?
      invariant whole == chrs + ReportChrs(p, vals, first + i).value
    {
      var e := r.chrs[first + i];
      assert e == p.chrs[first + i] && e.uuid.At?;
      var val := valHandles[e.valHandle.i];
      ghost var rest := ReportChrs(p, vals, first + i + 1).value;
      var chr := CommitChr(r.uuids[e.uuid.i], DefHandle(val), val);
      MoveFirst(chrs, chr, rest);
      chrs := chrs + [chr];
    }
    assert ReportChrs(p, vals, first + n) == Some([]);
    assert chrs + [] == chrs;
  }

  /**
   Return codes, allocations and the handles in the value-handle cells are inputs. The requires
   clause says that no null or stray pointer is followed, which C leaves undefined.
   */
  method CommitSvcs(r: Registry, valHandles: array<nat>, host: Host, mem: seq<bool>) returns (rsp: Response)
    requires r.Valid() && r.Used().Within() && Answer(r.Abs(), valHandles[..], host, mem).Some?
    ensures Some(rsp) == Answer(r.Abs(), valHandles[..], host, mem)
    ensures Answers(r.Abs(), valHandles[..], host, mem, rsp)
  {
    AnswerIs(r.Abs(), valHandles[..], host, mem);
    if r.numSvcs > 0 {
      if host.countRc != 0 {
        return Failure(host.countRc);
      }
      if host.addRc != 0 {
        return Failure(host.addRc);
      }
    }
    if host.startRc != 0 {
      return Failure(host.startRc);
    }
    if r.numSvcs == 0 || !AllocAt(mem, 0) {
      return Failure(0);
    }
    rsp := ListAll(r, valHandles, mem);
  }

  /** The outer loop, up to the listing or the cleanup. */
  method ListAll(r: Registry, valHandles: array<nat>, mem: seq<bool>) returns (rsp: Response)
    requires r.Valid() && r.Used().Within() && r.numSvcs > 0
    requires List(r.Abs(), valHandles[..], mem, 0, r.numSvcs - 1).Some?
    ensures Some(rsp) == List(r.Abs(), valHandles[..], mem, 0, r.numSvcs - 1)
  {
    ghost var p, vals := r.Abs(), valHandles[..];
    var n := r.numSvcs - 1;
    var svcs: seq<CommitSvc> := [];
    ghost var whole := List(p, vals, mem, 0, n).value;
    PrependNone(whole);
    for si := 0 to n
      invariant List(p, vals, mem, si, n).Some?
      invariant whole == Prepended(svcs, List(p, vals, mem, si, n).value)
    {
      var src := r.svcs[si];
      assert src == p.svcs[si];
      var count := CountChrs(r, src.chrs.i);
      if !AllocAt(mem, si + 1) {
        return Overrun;
      }
      var chrs := CopyChrs(r, valHandles, src.chrs.i, count);
      var svc := CommitSvc(r.uuids[src.uuid.i], chrs);
      PrependOne(svcs, svc, List(p, vals, mem, si + 1, n).value);
      svcs := svcs + [svc];
    }
    assert svcs + [] == svcs;
    return Listing(svcs);
  }

  /** A response to the services still to come, with those already listed in front. */
  function Prepended(svcs: seq<CommitSvc>, rest: Response): Response {
    if rest.Listing? then Listing(svcs + rest.svcs) else rest
  }

  lemma PrependNone(rest: Response)
    ensures Prepended([], rest) == rest
  {
    assert rest.Listing? ==> [] + rest.svcs == rest.svcs;
  }

  lemma PrependOne(svcs: seq<CommitSvc>, svc: CommitSvc, rest: Response)
    ensures Prepended(svcs, Before(svc, Some(rest)).value) == Prepended(svcs + [svc], rest)
  {
    if rest.Listing? {
      MoveFirst(svcs, svc, rest.svcs);
    }
  }

  // ----- what a single batch is answered with

  function ExpectedChr(c: Chr, val: nat): CommitChr {
    CommitChr(c.uuid, DefHandle(val), val)
  }

  /** Characteristics listed in order, the first one with cell v. */
  function ExpectedChrs(cs: seq<Chr>, vals: seq<nat>, v: nat): seq<CommitChr>
    requires v + |cs| <= |vals|
  {
    seq(|cs|, i requires 0 <= i < |cs| => ExpectedChr(cs[i], vals[v + i]))
  }

  lemma {:induction false} ChrCountPrefix(ss: seq<Svc>, a: nat)
    requires a < |ss|
    ensures ChrCount(ss[..a]) + |ss[a].chrs| <= ChrCount(ss)
  {
    if a < |ss| - 1 {
      assert ss[..|ss| - 1][..a] == ss[..a];
      ChrCountPrefix(ss[..|ss| - 1], a);
    }
  }

  /** What the a-th service is listed as; the cells of its characteristics follow those of earlier services. */
  function ExpectedSvc(ss: seq<Svc>, a: nat, vals: seq<nat>, v: nat): CommitSvc
    requires a < |ss| && v + ChrCount(ss) <= |vals|
  {
    ChrCountPrefix(ss, a);
    CommitSvc(ss[a].uuid, ExpectedChrs(ss[a].chrs, vals, v + ChrCount(ss[..a])))
  }

  /** The answer to a batch whose first characteristic has cell v. */
  function Expected(ss: seq<Svc>, vals: seq<nat>, v: nat): seq<CommitSvc>
    requires v + ChrCount(ss) <= |vals|
  {
    seq(|ss|, a requires 0 <= a < |ss| => ExpectedSvc(ss, a, vals, v))
  }

  /**
   What that answer says, service by service and characteristic by characteristic: the requested
   UUIDs, the content of the characteristic's own cell, and a definition handle one below it.
   */
  lemma ExpectedMeans(ss: seq<Svc>, vals: seq<nat>, v: nat, a: nat, i: nat)
    requires v + ChrCount(ss) <= |vals| && a < |ss| && i < |ss[a].chrs|
    ensures var out, cell := Expected(ss, vals, v), v + ChrCount(ss[..a]) + i;
            && |out| == |ss| && out[a].uuid == ss[a].uuid && |out[a].chrs| == |ss[a].chrs|
            && cell < |vals|
            && out[a].chrs[i].uuid == ss[a].chrs[i].uuid && out[a].chrs[i].valHandle == vals[cell]
            && (1 <= vals[cell] < 0x10000 ==> out[a].chrs[i].defHandle == vals[cell] - 1)
            && (vals[cell] == 0 ==> out[a].chrs[i].defHandle == 0xffff)
  {
    ChrCountPrefix(ss, a);
    assert Expected(ss, vals, v)[a] == ExpectedSvc(ss, a, vals, v);
  }

  lemma {:induction false} ListSvcs(p: Pools, vals: seq<nat>, i: nat, out: seq<CommitSvc>)
    requires i + |out| <= |p.svcs|
    requires forall j :: 0 <= j < |out| ==> ReportSvc(p, vals, p.svcs[i + j]) == Some(out[j])
    ensures ReportSvcs(p, vals, i, i + |out|) == Some(out)
    decreases |out|
  {
    if out != [] {
      assert ReportSvc(p, vals, p.svcs[i + 0]) == Some(out[0]);
      forall j | 0 <= j < |out[1..]|
        ensures ReportSvc(p, vals, p.svcs[i + 1 + j]) == Some(out[1..][j])
      {
        assert ReportSvc(p, vals, p.svcs[i + (j + 1)]) == Some(out[j + 1]);
      }
      ListSvcs(p, vals, i + 1, out[1..]);
      assert [out[0]] + out[1..] == out;
    }
  }

  /** A slot that cannot be listed before the end: the loops follow a null pointer there. */
  lemma {:induction false} BadSlotReport(p: Pools, vals: seq<nat>, i: nat, n: nat, bad: nat)
    requires i <= bad < n <= |p.svcs| && ReportSvc(p, vals, p.svcs[bad]).None?
    ensures ReportSvcs(p, vals, i, n).None?
    decreases n - i
  {
    if i < bad {
      BadSlotReport(p, vals, i + 1, n, bad);
    }
  }

  predicate AllHaveChrs(ss: seq<Svc>) {
    forall a :: 0 <= a < |ss| ==> ss[a].chrs != []
  }

  lemma ExpectedChrsAt(cs: seq<Chr>, vals: seq<nat>, v: nat, i: nat)
    requires v + |cs| <= |vals| && i < |cs|
    ensures ExpectedChrs(cs, vals, v)[i] == ExpectedChr(cs[i], vals[v + i])
  {
  }

  lemma ChrReported(p: Pools, vals: seq<nat>, first: nat, at: Cursor, cs: seq<Chr>, i: nat, v: nat)
    requires i < |cs| && v + |cs| <= |vals| && at.nv == v + i && at.nc == first + i && ChrHeadAt(p, at, cs[i])
    ensures SlotReads(p.chrs, first, EndsChrs, ChrReporter(p, vals), ExpectedChrs(cs, vals, v), i)
  {
    ExpectedChrsAt(cs, vals, v, i);
    assert ReportChr(p, vals, p.chrs[at.nc]) == Some(ExpectedChr(cs[i], vals[v + i]));
  }

  lemma ChrReportedAt(p: Pools, vals: seq<nat>, k: Cursor, cs: seq<Chr>, i: nat)
    requires ChrsAt(p, k, cs) && i < |cs| && k.nv + |cs| <= |vals|
    ensures SlotReads(p.chrs, k.nc, EndsChrs, ChrReporter(p, vals), ExpectedChrs(cs, vals, k.nv), i)
  {
    ChrPart(p, k, cs, i);
    ChrReported(p, vals, k.nc, AfterChrs(k, cs[..i]), cs, i, k.nv);
  }

  lemma ChrsReported(p: Pools, vals: seq<nat>, k: Cursor, cs: seq<Chr>, out: seq<CommitChr>)
    requires ChrsAt(p, k, cs) && k.nv + |cs| <= |vals| && out == ExpectedChrs(cs, vals, k.nv)
    ensures |out| == |cs| && AllReported(p, vals, k.nc, out)
  {
    forall i | 0 <= i < |cs|
      ensures SlotReads(p.chrs, k.nc, EndsChrs, ChrReporter(p, vals), out, i)
    {
      ChrReportedAt(p, vals, k, cs, i);
    }
  }

  /** Every slot from `first` on is listed as the item of `out` for it. */
  ghost predicate AllReported(p: Pools, vals: seq<nat>, first: nat, out: seq<CommitChr>) {
    forall i :: 0 <= i < |out| ==> SlotReads(p.chrs, first, EndsChrs, ChrReporter(p, vals), out, i)
  }

  lemma SlotsReport(p: Pools, vals: seq<nat>, first: nat, out: seq<CommitChr>)
    requires AllReported(p, vals, first, out)
    requires first + |out| < |p.chrs| && p.chrs[first + |out|].uuid.Null?
    ensures ReportChrs(p, vals, first) == Some(out)
  {
    WalkYes(p.chrs, first, EndsChrs, ChrReporter(p, vals), out);
  }

  /** A sealed service is listed exactly if it has a characteristic. */
  lemma SvcReport(p: Pools, vals: seq<nat>, k: Cursor, s: Svc)
    requires SvcAt(p, k, s) && SvcSealed(p, k, s) && k.nv + |s.chrs| <= |vals|
    ensures ReportSvc(p, vals, p.svcs[k.ns])
         == if s.chrs == [] then None else Some(CommitSvc(s.uuid, ExpectedChrs(s.chrs, vals, k.nv)))
  {
    if s.chrs != [] {
      var out := ExpectedChrs(s.chrs, vals, k.nv);
      ChrsReported(p, vals, InSvc(k), s.chrs, out);
      SlotsReport(p, vals, k.nc, out);
    }
  }

  lemma SvcPart(p: Pools, k: Cursor, ss: seq<Svc>, a: nat)
    requires SvcsAt(p, k, ss) && SvcsSealed(p, k, ss) && a < |ss|
    ensures var n := AfterSvcs(k, ss[..a]);
            && n.ns == k.ns + a < |p.svcs| && n.nv == k.nv + ChrCount(ss[..a])
            && SvcAt(p, n, ss[a]) && SvcSealed(p, n, ss[a])
    ensures ChrCount(ss[..a]) + |ss[a].chrs| <= ChrCount(ss)
  {
    SvcsAtIndex(p, k, ss, a);
    SvcsSealedAt(p, k, ss, a);
    ChrCountPrefix(ss, a);
  }

  /** How the a-th service is listed when its entry stands at the counters `at`. */
  lemma SvcReportAt(p: Pools, vals: seq<nat>, at: Cursor, ss: seq<Svc>, a: nat, v: nat)
    requires a < |ss| && v + ChrCount(ss) <= |vals| && at.nv == v + ChrCount(ss[..a])
    requires ChrCount(ss[..a]) + |ss[a].chrs| <= ChrCount(ss)
    requires SvcAt(p, at, ss[a]) && SvcSealed(p, at, ss[a])
    ensures ReportSvc(p, vals, p.svcs[at.ns])
         == if ss[a].chrs == [] then None else Some(ExpectedSvc(ss, a, vals, v))
  {
    SvcReport(p, vals, at, ss[a]);
  }

  /** Every service of a batch that was laid out and sealed, by its slot. */
  lemma SlotReport(p: Pools, vals: seq<nat>, k: Cursor, ss: seq<Svc>, a: nat)
    requires SvcsAt(p, k, ss) && SvcsSealed(p, k, ss) && a < |ss| && k.nv + ChrCount(ss) <= |vals|
    ensures k.ns + a < |p.svcs|
    ensures ReportSvc(p, vals, p.svcs[k.ns + a])
         == if ss[a].chrs == [] then None else Some(ExpectedSvc(ss, a, vals, k.nv))
  {
    var n := AfterSvcs(k, ss[..a]);
    SvcPart(p, k, ss, a);
    assert n.ns == k.ns + a;
    SvcReportAt(p, vals, n, ss, a, k.nv);
  }

  /**
   Pools that hold exactly one batch: committing lists it, for any handles, if and only if every
   service has a characteristic.
   */
  lemma OneBatchCommit(p: Pools, vals: seq<nat>, k: Cursor, ss: seq<Svc>)
    requires p.Shape() && p.used.Within() && SvcsAt(p, k, ss) && Sealed(p, k, ss)
    requires k.ns == 0 && p.used.ns == |ss| + 1 && k.nv + ChrCount(ss) <= |vals|
    ensures Commit(p, vals) == if AllHaveChrs(ss) then Some(Expected(ss, vals, k.nv)) else None
  {
    if AllHaveChrs(ss) {
      var out := Expected(ss, vals, k.nv);
      forall a | 0 <= a < |out|
        ensures ReportSvc(p, vals, p.svcs[0 + a]) == Some(out[a])
      {
        SlotReport(p, vals, k, ss, a);
      }
      ListSvcs(p, vals, 0, out);
    } else {
      var a :| 0 <= a < |ss| && ss[a].chrs == [];
      SlotReport(p, vals, k, ss, a);
      BadSlotReport(p, vals, 0, |ss|, a);
    }
  }
}
