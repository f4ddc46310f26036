/** Sequence numbers of events: a counter that runs through a fixed band of 32-bit values. */
module EventSeq {

  const SEQ_EVT_MIN: nat := 0xffffff00
  const SEQ_MAX: nat := 0xfffffff0

  /** Number of values in the band. */
  const PERIOD: nat := 241

  predicate InBand(seqNo: nat) {
    SEQ_EVT_MIN <= seqNo <= SEQ_MAX
  }

  /** The successor in the band. */
  function NextSeq(seqNo: nat): nat {
    if seqNo + 1 > SEQ_MAX then SEQ_EVT_MIN else seqNo + 1
  }

  /** The counter after n draws. */
  function Draws(seqNo: nat, n: nat): nat {
    if n == 0 then seqNo else NextSeq(Draws(seqNo, n - 1))
  }

  class Counter {
    var nextSeq: nat
    ghost var drawn: nat

    /** The counter depends on nothing but how many numbers were drawn. */
    ghost predicate Valid()
      reads this
    {
      nextSeq == SEQ_EVT_MIN + drawn % PERIOD
    }

    constructor ()
      ensures Valid() && drawn == 0
    {
      nextSeq, drawn := SEQ_EVT_MIN, 0;
    }

    method NextEvtSeq() returns (seqNo: nat)
      requires Valid()
      modifies this
      ensures Valid() && drawn == old(drawn) + 1
      ensures seqNo == old(nextSeq) == SEQ_EVT_MIN + old(drawn) % PERIOD
      ensures nextSeq == NextSeq(old(nextSeq))
    {
      NextInBand(drawn);
      seqNo := nextSeq;
      nextSeq := (nextSeq + 1) % 0x1_0000_0000;
      if nextSeq > SEQ_MAX {
        nextSeq := SEQ_EVT_MIN;
      }
      drawn := drawn + 1;
    }
  }

  /** The band is cyclic. */
  lemma NextInBand(n: nat)
    ensures NextSeq(SEQ_EVT_MIN + n % PERIOD) == SEQ_EVT_MIN + (n + 1) % PERIOD
    ensures InBand(SEQ_EVT_MIN + n % PERIOD)
  {
    assert (n + 1) % PERIOD == if n % PERIOD == PERIOD - 1 then 0 else n % PERIOD + 1;
  }

  /** The n-th number drawn from anywhere in the band. */
  lemma {:induction false} NthDraw(start: nat, n: nat)
    requires start < PERIOD
    ensures Draws(SEQ_EVT_MIN + start, n) == SEQ_EVT_MIN + (start + n) % PERIOD
  {
    if n == 0 {
      assert start % PERIOD == start;
    } else {
      NthDraw(start, n - 1);
      NextInBand(start + n - 1);
    }
  }

  /** Two numbers drawn less than a full period apart differ; a full period apart they are equal. */
  lemma DrawsDistinct(seqNo: nat, i: nat, j: nat)
    requires InBand(seqNo) && i < j
    ensures j - i < PERIOD ==> Draws(seqNo, i) != Draws(seqNo, j)
    ensures j - i == PERIOD ==> Draws(seqNo, i) == Draws(seqNo, j)
  {
    var start := seqNo - SEQ_EVT_MIN;
    NthDraw(start, i);
    NthDraw(start, j);
    SameResidue(start + i, start + j);
  }

  lemma SameResidue(a: nat, b: nat)
    requires a < b
    ensures b - a < PERIOD ==> a % PERIOD != b % PERIOD
    ensures b - a == PERIOD ==> a % PERIOD == b % PERIOD
  {
    var qa, qb := a / PERIOD, b / PERIOD;
    assert a == PERIOD * qa + a % PERIOD && b == PERIOD * qb + b % PERIOD;
    if b - a == PERIOD {
      assert b == PERIOD * (qa + 1) + a % PERIOD;
    }
  }
}
