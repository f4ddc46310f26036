/** The registry of bhd_gatts.c as it is written: five static arrays, five counters, nested loops. */
module GattRegistry {
  import opened Basics
  import opened EventSeq
  import opened Gatt
  import opened GattPools

  class Registry {
    const svcs: array<SvcDef>
    const chrs: array<ChrDef>
    const dscs: array<DscDef>
    const uuids: array<Uuid>
    var numSvcs: nat
    var numChrs: nat
    var numDscs: nat
    var numUuids: nat
    var numValHandles: nat
    const seqs: Counter

    ghost predicate Valid()
      reads this, seqs
    {
      && svcs.Length == MAX_SVCS && chrs.Length == MAX_CHRS && dscs.Length == MAX_DSCS
      && uuids.Length == MAX_UUIDS
      && svcs as object != chrs && svcs as object != dscs && svcs as object != uuids
      && chrs as object != dscs && chrs as object != uuids && dscs as object != uuids
      && seqs.Valid()
    }

    ghost function Used(): Cursor
      reads this, seqs
    {
      Cursor(numSvcs, numChrs, numDscs, numUuids, numValHandles, seqs.nextSeq)
    }

    ghost function Abs(): (p: Pools)
      requires Valid()
      reads this, seqs, svcs, chrs, dscs, uuids
      ensures p.Shape()
    {
      Pools(svcs[..], chrs[..], dscs[..], uuids[..], Used())
    }

    /** The event counter belongs to the whole daemon. */
    constructor (zero: Uuid, seqs: Counter)
      requires seqs.Valid()
      ensures Valid() && fresh(svcs) && fresh(chrs) && fresh(dscs) && fresh(uuids)
      ensures this.seqs == seqs
      ensures exists us: seq<Uuid> :: |us| == MAX_UUIDS && Abs() == Initial(us, seqs.nextSeq)
    {
      svcs := new SvcDef[MAX_SVCS](_ => NO_SVC);
      chrs := new ChrDef[MAX_CHRS](_ => NO_CHR);
      dscs := new DscDef[MAX_DSCS](_ => NO_DSC);
      uuids := new Uuid[MAX_UUIDS](_ => zero);
      numSvcs, numChrs, numDscs, numUuids, numValHandles := 0, 0, 0, 0, 0;
      this.seqs := seqs;
      new;
      assert Abs() == Initial(uuids[..], seqs.nextSeq);
    }

    /** The requires clause is the C assert; nothing else keeps the write inside the pool. */
    method SaveUuid(src: Uuid) returns (dst: nat)
      requires Valid() && numUuids < MAX_UUIDS
      modifies this, uuids
      ensures Valid() && dst == old(numUuids)
      ensures Abs() == GattPools.SaveUuid(old(Abs()), src)
    {
      dst := numUuids;
      uuids[dst] := src;
      numUuids := numUuids + 1;
    }

    method SaveDsc(dsc: Dsc)
      requires Valid() && numDscs < MAX_DSCS && numUuids < MAX_UUIDS
      modifies this, seqs, dscs, uuids
      ensures Valid()
      ensures Abs() == GattPools.SaveDsc(old(Abs()), dsc)
    {
      var d := numDscs;
      var u := SaveUuid(dsc.uuid);
      var seqNo := seqs.NextEvtSeq();
      dscs[d] := DscDef(At(u), dsc.attFlags, dsc.minKeySize, seqNo);
      numDscs := numDscs + 1;
    }

    /** The loop over a characteristic's descriptors. */
    method SaveDscLoop(ds: seq<Dsc>)
      requires Valid() && AfterDscs(Used(), |ds|).Within()
      modifies this, seqs, dscs, uuids
      ensures Valid()
      ensures Abs() == SaveDscs(old(Abs()), ds)
    {
      ghost var p := Abs();
      for i := 0 to |ds|
        invariant Valid()
        invariant Abs() == SaveDscs(p, ds[..i])
      {
        SaveDscsStep(p, ds, i);
        SaveDsc(ds[i]);
      }
      assert ds[..|ds|] == ds;
    }

    /** A characteristic's own fields; the pointer to its descriptors stays if it has none. */
    method SaveChrFields(chr: Chr)
      requires Valid() && numChrs < MAX_CHRS && numUuids < MAX_UUIDS
      modifies this, seqs, chrs, uuids
      ensures Valid()
      ensures Abs() == GattPools.SaveChrFields(old(Abs()), chr)
    {
      var c := numChrs;
      var u := SaveUuid(chr.uuid);
      chrs[c] := chrs[c].(uuid := At(u), flags := chr.flags, minKeySize := chr.minKeySize);
      var seqNo := seqs.NextEvtSeq();
      chrs[c] := chrs[c].(arg := seqNo, valHandle := At(numValHandles));
      numValHandles := numValHandles + 1;
      if |chr.dscs| > 0 {
        chrs[c] := chrs[c].(dscs := At(numDscs));
      }
    }

    method SaveChr(chr: Chr)
      requires Valid() && AfterChr(Used(), chr).Within()
      modifies this, seqs, chrs, dscs, uuids
      ensures Valid()
      ensures Abs() == GattPools.SaveChr(old(Abs()), chr)
    {
      SaveChrFields(chr);
      SaveDscLoop(chr.dscs);
      if |chr.dscs| > 0 {
        numDscs := numDscs + 1;
      }
      numChrs := numChrs + 1;
    }

    /** The loop over a service's characteristics. */
    method SaveChrLoop(cs: seq<Chr>)
      requires Valid() && AfterChrs(Used(), cs).Within()
      modifies this, seqs, chrs, dscs, uuids
      ensures Valid()
      ensures Abs() == SaveChrs(old(Abs()), cs)
    {
      ghost var p := Abs();
      for i := 0 to |cs|
        invariant Valid()
        invariant AfterChrs(p.used, cs[..i]).Within()
        invariant Abs() == SaveChrs(p, cs[..i])
      {
        SaveChrsStep(p, cs, i);
        SaveChr(cs[i]);
      }
      assert cs[..|cs|] == cs;
    }

    /** A service's own fields; the pointer to its characteristics stays if it has none. */
    method SaveSvcFields(svc: Svc)
      requires Valid() && numSvcs < MAX_SVCS && numUuids < MAX_UUIDS
      modifies this, svcs, uuids
      ensures Valid()
      ensures Abs() == GattPools.SaveSvcFields(old(Abs()), svc)
    {
      var s := numSvcs;
      var u := SaveUuid(svc.uuid);
      svcs[s] := svcs[s].(stype := svc.stype, uuid := At(u));
      if |svc.chrs| > 0 {
        svcs[s] := svcs[s].(chrs := At(numChrs));
      }
    }

    method SaveSvc(svc: Svc)
      requires Valid() && AfterSvc(Used(), svc).Within()
      modifies this, seqs, svcs, chrs, dscs, uuids
      ensures Valid()
      ensures Abs() == GattPools.SaveSvc(old(Abs()), svc)
    {
      SaveSvcFields(svc);
      SaveChrLoop(svc.chrs);
      EndSvc(|svc.chrs| > 0);
    }

    /** The slot skipped behind the characteristics, and the service itself. */
    method EndSvc(hasChrs: bool)
      requires Valid()
      modifies this
      ensures Valid()
      ensures Abs() == GattPools.EndSvc(old(Abs()), hasChrs)
    {
      if hasChrs {
        numChrs := numChrs + 1;
      }
      numSvcs := numSvcs + 1;
    }

    /** The loop over a request's services. */
    method SaveSvcLoop(req: seq<Svc>)
      requires Valid() && AfterSvcs(Used(), req).Within()
      modifies this, seqs, svcs, chrs, dscs, uuids
      ensures Valid()
      ensures Abs() == SaveSvcs(old(Abs()), req)
    {
      ghost var p := Abs();
      for i := 0 to |req|
        invariant Valid()
        invariant AfterSvcs(p.used, req[..i]).Within()
        invariant Abs() == SaveSvcs(p, req[..i])
      {
        SaveSvcsStep(p, req, i);
        SaveSvc(req[i]);
      }
      assert req[..|req|] == req;
    }

    method CountResources(req: seq<Svc>)
      returns (nSvcs: nat, nChrs: nat, nDscs: nat, nUuids: nat, nValHandles: nat)
      ensures nSvcs == |req| + 1
      ensures nChrs == ChrSlots(req) + LateBareSvcs(req)
      ensures nDscs == AllDscSlots(req) && nValHandles == ChrCount(req)
      ensures nUuids == nSvcs + nChrs + nDscs
      ensures nChrs == CountedChrs(req) && nUuids == CountedUuids(req)
    {
      nSvcs := |req| + 1;
      nChrs := 0;
      nDscs := 0;
      nValHandles := 0;
      for s := 0 to |req|
        invariant nChrs == CountedChrs(req[..s]) && nDscs == AllDscSlots(req[..s])
        invariant nValHandles == ChrCount(req[..s])
      {
        var svc := req[s];
        assert req[..s + 1][..s] == req[..s];
        nChrs := nChrs + |svc.chrs|;
        nValHandles := nValHandles + |svc.chrs|;
        ghost var before := nDscs;
        for c := 0 to |svc.chrs|
          invariant nDscs == before + DscSlots(svc.chrs[..c])
        {
          var chr := svc.chrs[c];
          assert svc.chrs[..c + 1][..c] == svc.chrs[..c];
          nDscs := nDscs + |chr.dscs|;
          if |chr.dscs| > 0 {
            nDscs := nDscs + 1;
          }
        }
        assert svc.chrs[..|svc.chrs|] == svc.chrs;
        if nChrs > 0 {
          nChrs := nChrs + 1;
        }
      }
      assert req[..|req|] == req;
      nUuids := nSvcs + nChrs + nDscs;
      EstimateSlack(req);
    }

    method VerifyResourceCnt(req: seq<Svc>) returns (rc: Result<()>)
      ensures rc == Verify(Used(), req)
    {
      var nSvcs, nChrs, nDscs, nUuids, nValHandles := CountResources(req);
      if numSvcs + nSvcs > MAX_SVCS {
        return Err(HsEnomem);
      }
      if numChrs + nChrs > MAX_CHRS {
        return Err(HsEnomem);
      }
      if numDscs + nDscs > MAX_DSCS {
        return Err(HsEnomem);
      }
      if numUuids + nUuids > MAX_UUIDS {
        return Err(HsEnomem);
      }
      if numValHandles + nValHandles > MAX_VAL_HANDLES {
        return Err(HsEnomem);
      }
      return Ok(());
    }

    /**
     No precondition on the request or on what the pools hold: the check up front is what
     discharges every assert and every bound in the save methods.
     */
    method AddSvcs(req: seq<Svc>) returns (status: Result<()>)
      requires Valid()
      modifies this, seqs, svcs, chrs, dscs, uuids
      ensures Valid()
      ensures status == Verify(old(Used()), req)
      ensures Abs() == Add(old(Abs()), req)
      ensures status.Err? ==> status.error == HsEnomem && Abs() == old(Abs())
      ensures status.Ok? ==> Used().Within()
    {
      ghost var p0 := Abs();
      status := VerifyResourceCnt(req);
      if status.Err? {
        return;
      }
      VerifySound(p0.used, req);
      SaveSvcLoop(req);
      numSvcs := numSvcs + 1;
    }

    method ClearSvcs()
      requires Valid()
      modifies this
      ensures Valid()
      ensures Abs() == Clear(old(Abs()))
    {
      numSvcs := 0;
      numChrs := 0;
      numDscs := 0;
      numUuids := 0;
      numValHandles := 0;
    }
  }
}
