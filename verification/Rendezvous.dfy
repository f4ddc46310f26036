/**
 The attribute-access rendezvous of bhd_gatts.c: requests set a status in a one-place mailbox and
 release a semaphore, access callbacks pend on it with a timeout, read the mailbox and empty it.
 Any number of each; one step is one atomic action.
 */
module Rendezvous {
  import opened Basics

  /** Marks the mailbox as empty; a client can also send it as a status. */
  const NONE: Byte := 255

  /** What an access callback returns when its pend times out, BLE_ATT_ERR_UNLIKELY. */
  const UNLIKELY: Byte := 14

  datatype Setter = Ready | Releasing

  datatype Waiter = Pending | GotToken | HasStatus(status: Byte) | TimedOut

  datatype State = State(
    mailbox: Byte,
    sem: nat,
    setters: seq<Setter>,
    waiters: seq<Waiter>,
    accepted: seq<Byte>,   // statuses for which a setter was told 0, oldest first
    returned: seq<Byte>,   // statuses returned after a successful pend, oldest first
    pends: nat,            // successful pends
    lost: nat,             // accepted statuses that no longer, or never, fill the mailbox
    vain: nat,             // successful pends that found the mailbox empty when clearing it
    answers: seq<Byte>     // what the access callbacks returned, oldest first
  )

  datatype Step =
    | Set(t: nat, status: Byte)   // the critical section of a setter
    | Release(t: nat)             // os_sem_release
    | PendOk(w: nat)              // os_sem_pend takes a token
    | PendTimeout(w: nat)
    | Read(w: nat)                // the status is copied out of the mailbox
    | Clear(w: nat)               // the mailbox is emptied, and the callback returns

  predicate Full(s: State) {
    s.mailbox != NONE
  }

  predicate Enabled(s: State, step: Step) {
    match step
    case Set(t, _) => t < |s.setters| && s.setters[t].Ready?
    case Release(t) => t < |s.setters| && s.setters[t].Releasing?
    case PendOk(w) => w < |s.waiters| && s.waiters[w].Pending? && s.sem > 0
    case PendTimeout(w) => w < |s.waiters| && s.waiters[w].Pending?
    case Read(w) => w < |s.waiters| && s.waiters[w].GotToken?
    case Clear(w) => w < |s.waiters| && (s.waiters[w].HasStatus? || s.waiters[w].TimedOut?)
  }

  /** The two steps that break the one-to-one pairing of results and tokens. */
  predicate Harmful(s: State, step: Step)
    requires Enabled(s, step)
  {
    match step
    case Set(t, status) => !Full(s) && status == NONE
    case Clear(w) => s.waiters[w].TimedOut? && Full(s)
    case _ => false
  }

  function Next(s: State, step: Step): State
    requires Enabled(s, step)
  {
    match step
    case Set(t, status) =>
      if Full(s) then s   // refused with SYS_ENOENT
      else s.(mailbox := status, setters := s.setters[t := Releasing], accepted := s.accepted + [status],
              lost := if status == NONE then s.lost + 1 else s.lost)
    case Release(t) => s.(sem := s.sem + 1, setters := s.setters[t := Ready])
    case PendOk(w) => s.(sem := s.sem - 1, waiters := s.waiters[w := GotToken], pends := s.pends + 1)
    case PendTimeout(w) => s.(waiters := s.waiters[w := TimedOut])
    case Read(w) => s.(waiters := s.waiters[w := HasStatus(s.mailbox)])
    case Clear(w) =>
      if s.waiters[w].TimedOut? then
        s.(mailbox := NONE, waiters := s.waiters[w := Pending], lost := if Full(s) then s.lost + 1 else s.lost,
           answers := s.answers + [UNLIKELY])
      else
        s.(mailbox := NONE, waiters := s.waiters[w := Pending], returned := s.returned + [s.waiters[w].status],
           vain := if Full(s) then s.vain else s.vain + 1, answers := s.answers + [s.waiters[w].status])
  }

  predicate Initial(s: State) {
    && s.mailbox == NONE && s.sem == 0 && s.accepted == [] && s.returned == []
    && s.pends == 0 && s.lost == 0 && s.vain == 0 && s.answers == []
    && (forall t :: 0 <= t < |s.setters| ==> s.setters[t].Ready?)
    && (forall w :: 0 <= w < |s.waiters| ==> s.waiters[w].Pending?)
  }

  predicate IsRun(states: seq<State>, steps: seq<Step>) {
    && |states| == |steps| + 1
    && Initial(states[0])
    && forall i :: 0 <= i < |steps| ==> Enabled(states[i], steps[i]) && states[i + 1] == Next(states[i], steps[i])
  }

  // ----- what happened in a run, read off its steps and mailboxes

  /** A run as far as the following functions look at it. */
  predicate Shaped(states: seq<State>, steps: seq<Step>, n: nat) {
    |states| == |steps| + 1 && n <= |steps|
  }

  /** The statuses that found the mailbox empty. */
  function AcceptedBy(states: seq<State>, steps: seq<Step>, n: nat): seq<Byte>
    requires Shaped(states, steps, n)
  {
    if n == 0 then []
    else AcceptedBy(states, steps, n - 1)
           + if steps[n - 1].Set? && !Full(states[n - 1]) then [steps[n - 1].status] else []
  }

  /** What the mailbox held when waiter w last read it. */
  function StatusRead(states: seq<State>, steps: seq<Step>, w: nat, n: nat): Byte
    requires Shaped(states, steps, n)
  {
    if n == 0 then NONE
    else if steps[n - 1] == Read(w) then states[n - 1].mailbox
    else StatusRead(states, steps, w, n - 1)
  }

  /** The last pend of waiter w has timed out. */
  predicate GaveUp(steps: seq<Step>, w: nat, n: nat)
    requires n <= |steps|
  {
    n > 0 && (steps[n - 1] == PendTimeout(w) || (steps[n - 1] != PendOk(w) && GaveUp(steps, w, n - 1)))
  }

  /** The statuses returned after a successful pend. */
  function ReturnedBy(states: seq<State>, steps: seq<Step>, n: nat): seq<Byte>
    requires Shaped(states, steps, n)
  {
    if n == 0 then []
    else ReturnedBy(states, steps, n - 1)
           + if steps[n - 1].Clear? && !GaveUp(steps, steps[n - 1].w, n - 1)
             then [StatusRead(states, steps, steps[n - 1].w, n - 1)] else []
  }

  /** Everything that access callbacks returned. */
  function AnsweredBy(states: seq<State>, steps: seq<Step>, n: nat): seq<Byte>
    requires Shaped(states, steps, n)
  {
    if n == 0 then []
    else if !steps[n - 1].Clear? then AnsweredBy(states, steps, n - 1)
    else
      var w := steps[n - 1].w;
      AnsweredBy(states, steps, n - 1)
        + [if GaveUp(steps, w, n - 1) then UNLIKELY else StatusRead(states, steps, w, n - 1)]
  }

  /** Successful pends, and releases. */
  function PendsBy(steps: seq<Step>, n: nat): nat
    requires n <= |steps|
  {
    if n == 0 then 0 else PendsBy(steps, n - 1) + if steps[n - 1].PendOk? then 1 else 0
  }

  function ReleasesBy(steps: seq<Step>, n: nat): nat
    requires n <= |steps|
  {
    if n == 0 then 0 else ReleasesBy(steps, n - 1) + if steps[n - 1].Release? then 1 else 0
  }

  /** Results wiped by a timed-out waiter, or accepted as the marker of an empty mailbox. */
  function LostBy(states: seq<State>, steps: seq<Step>, n: nat): nat
    requires Shaped(states, steps, n)
  {
    if n == 0 then 0
    else
      var s, step := states[n - 1], steps[n - 1];
      LostBy(states, steps, n - 1)
        + if (step.Set? && !Full(s) && step.status == NONE) || (step.Clear? && Full(s) && GaveUp(steps, step.w, n - 1))
          then 1 else 0
  }

  /** Successful pends that had nothing to clear. */
  function VainBy(states: seq<State>, steps: seq<Step>, n: nat): nat
    requires Shaped(states, steps, n)
  {
    if n == 0 then 0
    else
      var s, step := states[n - 1], steps[n - 1];
      VainBy(states, steps, n - 1) + if step.Clear? && !Full(s) && !GaveUp(steps, step.w, n - 1) then 1 else 0
  }

  /** A waiter remembers how its pend ended, and what it read. */
  lemma {:induction false} WaiterIs(states: seq<State>, steps: seq<Step>, w: nat, n: nat)
    requires IsRun(states, steps) && n <= |steps| && w < |states[n].waiters|
    ensures match states[n].waiters[w]
            case Pending => true
            case GotToken => !GaveUp(steps, w, n)
            case HasStatus(status) => !GaveUp(steps, w, n) && status == StatusRead(states, steps, w, n)
            case TimedOut => GaveUp(steps, w, n)
  {
    if n > 0 {
      assert Enabled(states[n - 1], steps[n - 1]);
      WaiterIs(states, steps, w, n - 1);
    }
  }

  /** The logs of a state say what happened. */
  lemma {:induction false} LogsAre(states: seq<State>, steps: seq<Step>, n: nat)
    requires IsRun(states, steps) && n <= |steps|
    ensures states[n].accepted == AcceptedBy(states, steps, n) && states[n].returned == ReturnedBy(states, steps, n)
    ensures states[n].answers == AnsweredBy(states, steps, n)
    ensures states[n].pends == PendsBy(steps, n) && states[n].sem + PendsBy(steps, n) == ReleasesBy(steps, n)
    ensures states[n].lost == LostBy(states, steps, n) && states[n].vain == VainBy(states, steps, n)
  {
    if n > 0 {
      assert Enabled(states[n - 1], steps[n - 1]);
      LogsAre(states, steps, n - 1);
      if steps[n - 1].Clear? {
        WaiterIs(states, steps, steps[n - 1].w, n - 1);
      }
    }
  }

  // ----- counting tasks

  function BusySetter(t: Setter): nat {
    if t.Releasing? then 1 else 0
  }

  /** Setters between accepting a status and releasing the semaphore. */
  function Releasers(ts: seq<Setter>): nat {
    if ts == [] then 0 else BusySetter(ts[0]) + Releasers(ts[1..])
  }

  function BusyWaiter(w: Waiter): nat {
    if w.GotToken? || w.HasStatus? then 1 else 0
  }

  /** Waiters between a successful pend and clearing the mailbox. */
  function Holders(ws: seq<Waiter>): nat {
    if ws == [] then 0 else BusyWaiter(ws[0]) + Holders(ws[1..])
  }

  lemma {:induction false} ReleasersUpdate(ts: seq<Setter>, t: nat, x: Setter)
    requires t < |ts|
    ensures Releasers(ts[t := x]) + BusySetter(ts[t]) == Releasers(ts) + BusySetter(x)
  {
    if t == 0 {
      assert ts[t := x][1..] == ts[1..];
    } else {
      assert ts[t := x][1..] == ts[1..][t - 1 := x];
      ReleasersUpdate(ts[1..], t - 1, x);
    }
  }

  lemma {:induction false} HoldersUpdate(ws: seq<Waiter>, w: nat, x: Waiter)
    requires w < |ws|
    ensures Holders(ws[w := x]) + BusyWaiter(ws[w]) == Holders(ws) + BusyWaiter(x)
  {
    if w == 0 {
      assert ws[w := x][1..] == ws[1..];
    } else {
      assert ws[w := x][1..] == ws[1..][w - 1 := x];
      HoldersUpdate(ws[1..], w - 1, x);
    }
  }

  lemma {:induction false} NoReleasers(ts: seq<Setter>)
    requires forall t :: 0 <= t < |ts| ==> ts[t].Ready?
    ensures Releasers(ts) == 0
  {
    if ts != [] {
      NoReleasers(ts[1..]);
    }
  }

  lemma {:induction false} NoHolders(ws: seq<Waiter>)
    ensures Holders(ws) == 0 <==> forall w :: 0 <= w < |ws| ==> !ws[w].GotToken? && !ws[w].HasStatus?
  {
    if ws != [] {
      NoHolders(ws[1..]);
      assert forall w :: 1 <= w < |ws| ==> ws[w] == ws[1..][w - 1];
      assert forall w :: 0 <= w < |ws[1..]| ==> ws[1..][w] == ws[w + 1];
    }
  }

  // ----- for every run, with timeouts and any status values

  function FullCount(s: State): nat {
    if Full(s) then 1 else 0
  }

  /**
   Results and tokens are conserved: tokens, pending releases, holders and vain pends together
   are the results that still fill the mailbox and those that were lost. And each accepted
   result is a successful pend, a token or a pending release.
   */
  ghost predicate Ledger(s: State) {
    && s.sem + Releasers(s.setters) + Holders(s.waiters) + s.vain == FullCount(s) + s.lost
    && |s.accepted| == s.pends + s.sem + Releasers(s.setters)
  }

  /** A full mailbox is about to be emptied, or can be. */
  ghost predicate NotWedged(s: State) {
    Full(s) ==>
      || s.sem > 0
      || (exists t :: 0 <= t < |s.setters| && s.setters[t].Releasing?)
      || (exists w :: 0 <= w < |s.waiters| && !s.waiters[w].Pending?)
  }

  lemma StepLedger(s: State, step: Step)
    requires Enabled(s, step) && Ledger(s)
    ensures Ledger(Next(s, step))
  {
    match step
    case Set(t, _) => ReleasersUpdate(s.setters, t, Releasing);
    case Release(t) => ReleasersUpdate(s.setters, t, Ready);
    case PendOk(w) => HoldersUpdate(s.waiters, w, GotToken);
    case PendTimeout(w) => HoldersUpdate(s.waiters, w, TimedOut);
    case Read(w) => HoldersUpdate(s.waiters, w, HasStatus(s.mailbox));
    case Clear(w) => HoldersUpdate(s.waiters, w, Pending);
  }

  lemma StepNotWedged(s: State, step: Step)
    requires Enabled(s, step) && NotWedged(s)
    ensures NotWedged(Next(s, step))
  {
    var n := Next(s, step);
    match step {
      case Set(t, _) =>
        if !Full(s) {
          assert n.setters[t].Releasing?;
        }
      case Release(t) =>
        assert n.sem > 0;
      case PendOk(w) =>
        assert !n.waiters[w].Pending?;
      case PendTimeout(w) =>
        assert !n.waiters[w].Pending?;
      case Read(w) =>
        assert !n.waiters[w].Pending?;
      case Clear(_) =>
    }
  }

  lemma {:induction false} RunLedger(states: seq<State>, steps: seq<Step>, i: nat)
    requires IsRun(states, steps) && i < |states|
    ensures Ledger(states[i]) && NotWedged(states[i])
    ensures var s := states[i];
            && s.sem + Releasers(s.setters) + Holders(s.waiters) + VainBy(states, steps, i)
               == FullCount(s) + LostBy(states, steps, i)
            && |AcceptedBy(states, steps, i)| == PendsBy(steps, i) + s.sem + Releasers(s.setters)
  {
    LogsAre(states, steps, i);
    if i == 0 {
      NoReleasers(states[0].setters);
      NoHolders(states[0].waiters);
    } else {
      RunLedger(states, steps, i - 1);
      assert Enabled(states[i - 1], steps[i - 1]);
      StepLedger(states[i - 1], steps[i - 1]);
      StepNotWedged(states[i - 1], steps[i - 1]);
    }
  }

  /** Steps taken one after the other from s. */
  predicate Path(s: State, steps: seq<Step>)
    decreases |steps|
  {
    steps != [] ==> Enabled(s, steps[0]) && Path(Next(s, steps[0]), steps[1..])
  }

  function After(s: State, steps: seq<Step>): State
    requires Path(s, steps)
    decreases |steps|
  {
    if steps == [] then s else After(Next(s, steps[0]), steps[1..])
  }

  predicate NoTimeout(steps: seq<Step>) {
    forall i :: 0 <= i < |steps| ==> !steps[i].PendTimeout?
  }

  lemma Prepend(s: State, step: Step, rest: seq<Step>)
    requires Enabled(s, step) && Path(Next(s, step), rest)
    ensures Path(s, [step] + rest) && After(s, [step] + rest) == After(Next(s, step), rest)
  {
    assert ([step] + rest)[1..] == rest;
  }

  /** A waiter that is past its pend can always finish. */
  lemma Finish(s: State, w: nat) returns (steps: seq<Step>)
    requires w < |s.waiters| && !s.waiters[w].Pending?
    ensures Path(s, steps) && !Full(After(s, steps)) && NoTimeout(steps)
  {
    if s.waiters[w].GotToken? {
      Prepend(Next(s, Read(w)), Clear(w), []);
      Prepend(s, Read(w), [Clear(w)] + []);
      steps := [Read(w)] + ([Clear(w)] + []);
    } else {
      Prepend(s, Clear(w), []);
      steps := [Clear(w)] + [];
    }
  }

  /** No deadlock: from every state that is not wedged the mailbox can be emptied without a timeout. */
  lemma CanEmpty(s: State) returns (steps: seq<Step>)
    requires NotWedged(s) && |s.waiters| > 0
    ensures Path(s, steps) && !Full(After(s, steps)) && NoTimeout(steps)
  {
    if !Full(s) {
      steps := [];
    } else if w :| 0 <= w < |s.waiters| && !s.waiters[w].Pending? {
      steps := Finish(s, w);
    } else if s.sem > 0 {
      steps := Finish(Next(s, PendOk(0)), 0);
      Prepend(s, PendOk(0), steps);
      steps := [PendOk(0)] + steps;
    } else {
      var t :| 0 <= t < |s.setters| && s.setters[t].Releasing?;
      var n := Next(s, Release(t));
      steps := Finish(Next(n, PendOk(0)), 0);
      Prepend(n, PendOk(0), steps);
      Prepend(s, Release(t), [PendOk(0)] + steps);
      steps := [Release(t)] + ([PendOk(0)] + steps);
    }
  }

  /**
   Every status can be delivered, one after the other: from every state with an empty mailbox, a
   ready setter and a pending waiter, for any statuses but the marker.
   */
  lemma {:induction false} AllCanArrive(s: State, t: nat, w: nat, statuses: seq<Byte>) returns (steps: seq<Step>)
    requires !Full(s) && t < |s.setters| && s.setters[t].Ready? && w < |s.waiters| && s.waiters[w].Pending?
    requires NONE !in statuses
    ensures Path(s, steps) && NoTimeout(steps)
    ensures var n := After(s, steps);
            n.accepted == s.accepted + statuses && n.returned == s.returned + statuses && n.answers == s.answers + statuses
    decreases |statuses|
  {
    if statuses == [] {
      steps := [];
    } else {
      var s1 := Next(s, Set(t, statuses[0]));
      var s2 := Next(s1, Release(t));
      var s3 := Next(s2, PendOk(w));
      var s4 := Next(s3, Read(w));
      var s5 := Next(s4, Clear(w));
      steps := AllCanArrive(s5, t, w, statuses[1..]);
      Prepend(s4, Clear(w), steps);
      steps := [Clear(w)] + steps;
      Prepend(s3, Read(w), steps);
      steps := [Read(w)] + steps;
      Prepend(s2, PendOk(w), steps);
      steps := [PendOk(w)] + steps;
      Prepend(s1, Release(t), steps);
      steps := [Release(t)] + steps;
      Prepend(s, Set(t, statuses[0]), steps);
      steps := [Set(t, statuses[0])] + steps;
      FirstOf(s.accepted, statuses);
      FirstOf(s.returned, statuses);
      FirstOf(s.answers, statuses);
    }
  }

  lemma FirstOf(a: seq<Byte>, statuses: seq<Byte>)
    requires statuses != []
    ensures a + [statuses[0]] + statuses[1..] == a + statuses
  {
  }

  // ----- exactly once, and exactly when

  /** Returned statuses, then the one in the mailbox: those are the accepted ones, in order. */
  ghost predicate ExactlyOnce(s: State) {
    s.returned + (if Full(s) then [s.mailbox] else []) == s.accepted
  }

  ghost predicate Paired(s: State) {
    && s.sem + Releasers(s.setters) + Holders(s.waiters) == FullCount(s)
    && (forall w :: 0 <= w < |s.waiters| && s.waiters[w].HasStatus? ==> s.waiters[w].status == s.mailbox)
    && ExactlyOnce(s)
  }

  /** A harmless step keeps everything, timeouts included as long as they clear an empty mailbox. */
  lemma StepPaired(s: State, step: Step)
    requires Enabled(s, step) && Paired(s) && !Harmful(s, step)
    ensures Paired(Next(s, step))
  {
    var n := Next(s, step);
    NoHolders(s.waiters);
    NoHolders(n.waiters);
    match step {
      case Set(t, _) =>
        ReleasersUpdate(s.setters, t, Releasing);
      case Release(t) =>
        ReleasersUpdate(s.setters, t, Ready);
      case PendOk(w) =>
        HoldersUpdate(s.waiters, w, GotToken);
      case PendTimeout(w) =>
        HoldersUpdate(s.waiters, w, TimedOut);
      case Read(w) =>
        HoldersUpdate(s.waiters, w, HasStatus(s.mailbox));
      case Clear(w) =>
        HoldersUpdate(s.waiters, w, Pending);
    }
  }

  /** The exact condition for one step. */
  lemma StepExactlyOnceIff(s: State, step: Step)
    requires Enabled(s, step) && Paired(s)
    ensures ExactlyOnce(Next(s, step)) <==> !Harmful(s, step)
  {
    if !Harmful(s, step) {
      StepPaired(s, step);
    } else {
      assert |Next(s, step).accepted| > |Next(s, step).returned|;
    }
  }

  /** Whenever a status waits in the mailbox and a callback for its token, a timeout can lose that status. */
  lemma TimeoutCanLose(s: State, w: nat)
    requires Paired(s) && Full(s) && w < |s.waiters| && s.waiters[w].Pending?
    ensures Path(s, [PendTimeout(w)] + ([Clear(w)] + []))
    ensures var n := After(s, [PendTimeout(w)] + ([Clear(w)] + []));
            !ExactlyOnce(n) && n.accepted == s.accepted && n.returned == s.returned && !Full(n)
  {
    Prepend(Next(s, PendTimeout(w)), Clear(w), []);
    Prepend(s, PendTimeout(w), [Clear(w)] + []);
    assert |s.accepted| > |s.returned|;
  }

  /** The same of the first n steps: the statuses that were accepted, in the order of the steps. */
  predicate OnceBy(states: seq<State>, steps: seq<Step>, n: nat)
    requires Shaped(states, steps, n)
  {
    ReturnedBy(states, steps, n) + (if Full(states[n]) then [states[n].mailbox] else []) == AcceptedBy(states, steps, n)
  }

  predicate Harmless(states: seq<State>, steps: seq<Step>, n: nat)
    requires IsRun(states, steps) && n <= |steps|
  {
    forall i :: 0 <= i < n ==> !Harmful(states[i], steps[i])
  }

  lemma {:induction false} HarmlessPaired(states: seq<State>, steps: seq<Step>, n: nat)
    requires IsRun(states, steps) && n <= |steps| && Harmless(states, steps, n)
    ensures Paired(states[n])
  {
    if n == 0 {
      NoReleasers(states[0].setters);
      NoHolders(states[0].waiters);
    } else {
      HarmlessPaired(states, steps, n - 1);
      assert Enabled(states[n - 1], steps[n - 1]) && !Harmful(states[n - 1], steps[n - 1]);
      StepPaired(states[n - 1], steps[n - 1]);
    }
  }

  /**
   Over whole runs: every accepted status is returned exactly once and in order, at every point
   of the run, if and only if no status 0xff is accepted and no timed-out waiter empties a
   full mailbox.
   */
  lemma ExactlyOnceIff(states: seq<State>, steps: seq<Step>)
    requires IsRun(states, steps)
    ensures (forall i :: 0 <= i < |states| ==> OnceBy(states, steps, i)) <==> Harmless(states, steps, |steps|)
  {
    forall i | 0 <= i < |states|
      ensures OnceBy(states, steps, i) <==> ExactlyOnce(states[i])
    {
      LogsAre(states, steps, i);
    }
    if Harmless(states, steps, |steps|) {
      forall i | 0 <= i < |states|
        ensures OnceBy(states, steps, i)
      {
        HarmlessPaired(states, steps, i);
      }
    } else {
      var i := FirstHarm(states, steps, |steps|);
      HarmlessPaired(states, steps, i);
      assert Enabled(states[i], steps[i]);
      StepExactlyOnceIff(states[i], steps[i]);
      assert !OnceBy(states, steps, i + 1);
    }
  }

  lemma {:induction false} FirstHarm(states: seq<State>, steps: seq<Step>, n: nat) returns (i: nat)
    requires IsRun(states, steps) && n <= |steps| && !Harmless(states, steps, n)
    ensures i < n && Harmless(states, steps, i) && Harmful(states[i], steps[i])
  {
    if Harmless(states, steps, n - 1) {
      i := n - 1;
    } else {
      i := FirstHarm(states, steps, n - 1);
    }
  }

  /** The run of the next lemma: a result arrives while the waiter times out. */
  lemma LateRun(status: Byte) returns (states: seq<State>, steps: seq<Step>)
    requires status != NONE
    ensures IsRun(states, steps) && |steps| > 0
    ensures var last := states[|steps|];
            last.accepted == [status] && last.returned == [NONE] && last.answers == [UNLIKELY, NONE]
  {
    steps := [PendTimeout(0), Set(0, status), Clear(0), Release(0), PendOk(0), Read(0), Clear(0)];
    var s0 := State(NONE, 0, [Ready], [Pending], [], [], 0, 0, 0, []);
    var s1 := Next(s0, steps[0]);
    var s2 := Next(s1, steps[1]);
    var s3 := Next(s2, steps[2]);
    var s4 := Next(s3, steps[3]);
    var s5 := Next(s4, steps[4]);
    var s6 := Next(s5, steps[5]);
    var s7 := Next(s6, steps[6]);
    states := [s0, s1, s2, s3, s4, s5, s6, s7];
  }

  /**
   A result that arrives while the waiter times out: it is wiped, its token stays, and the next
   access callback returns the marker of an empty mailbox as its status.
   */
  lemma LateResult(status: Byte) returns (states: seq<State>, steps: seq<Step>)
    requires status != NONE
    ensures IsRun(states, steps)
    ensures AcceptedBy(states, steps, |steps|) == [status]
    ensures ReturnedBy(states, steps, |steps|) == [NONE] && AnsweredBy(states, steps, |steps|) == [UNLIKELY, NONE]
  {
    states, steps := LateRun(status);
    LogsAre(states, steps, |steps|);
  }
}
