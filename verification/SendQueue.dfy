/**
 The same queue when tasks interleave: any task may enqueue at any time, and the send loop may
 be run by more than one event queue, because the writable callback posts its event to another
 queue than the one that enqueueing uses. One step is one action on the shared queue.
 */
module SendQueue {
  import opened Basics
  import opened Responses

  datatype Consumer = Idle | Polling | Holding(om: Bytes)

  datatype State = State(enqueued: seq<Bytes>, queue: seq<Bytes>, sent: seq<Bytes>, consumers: seq<Consumer>)

  datatype Step =
    | Put(om: Bytes)       // os_mqueue_put by any task
    | Wake(c: nat)         // the queue's event reaches an idle consumer
    | Get(c: nat)          // os_mqueue_get; an empty queue ends the loop
    | SendOk(c: nat)       // mn_sendto accepts the packet in hand
    | SendAgain(c: nat)    // MN_EAGAIN: back to the head of the queue, end of the loop

  predicate Enabled(s: State, step: Step) {
    match step
    case Put(_) => true
    case Wake(c) => c < |s.consumers| && s.consumers[c].Idle?
    case Get(c) => c < |s.consumers| && s.consumers[c].Polling?
    case SendOk(c) => c < |s.consumers| && s.consumers[c].Holding?
    case SendAgain(c) => c < |s.consumers| && s.consumers[c].Holding?
  }

  function Next(s: State, step: Step): State
    requires Enabled(s, step)
  {
    match step
    case Put(om) => s.(enqueued := s.enqueued + [om], queue := s.queue + [om])
    case Wake(c) => s.(consumers := s.consumers[c := Polling])
    case Get(c) =>
      if s.queue == [] then s.(consumers := s.consumers[c := Idle])
      else s.(queue := s.queue[1..], consumers := s.consumers[c := Holding(s.queue[0])])
    case SendOk(c) => s.(sent := s.sent + [s.consumers[c].om], consumers := s.consumers[c := Polling])
    case SendAgain(c) => s.(queue := [s.consumers[c].om] + s.queue, consumers := s.consumers[c := Idle])
  }

  predicate Initial(s: State) {
    s.enqueued == [] && s.queue == [] && s.sent == [] && forall c :: 0 <= c < |s.consumers| ==> s.consumers[c].Idle?
  }

  /** `states` is a run: it starts in an initial state and each state follows by an enabled step. */
  predicate IsRun(states: seq<State>, steps: seq<Step>) {
    && |states| == |steps| + 1
    && Initial(states[0])
    && forall i :: 0 <= i < |steps| ==> Enabled(states[i], steps[i]) && states[i + 1] == Next(states[i], steps[i])
  }

  // ----- what a run has put and sent, read off its steps

  /** The packets enqueued in the first n steps, oldest first. */
  function PutBy(steps: seq<Step>, n: nat): seq<Bytes>
    requires n <= |steps|
  {
    if n == 0 then [] else PutBy(steps, n - 1) + if steps[n - 1].Put? then [steps[n - 1].om] else []
  }

  /** The packets the socket accepted in the first n steps: what the consumer had in hand each time. */
  function SentBy(states: seq<State>, steps: seq<Step>, n: nat): seq<Bytes>
    requires IsRun(states, steps) && n <= |steps|
  {
    if n == 0 then []
    else
      assert Enabled(states[n - 1], steps[n - 1]);
      SentBy(states, steps, n - 1)
        + if steps[n - 1].SendOk? then [states[n - 1].consumers[steps[n - 1].c].om] else []
  }

  /** The two logs of a state hold exactly that. */
  lemma {:induction false} LogsAre(states: seq<State>, steps: seq<Step>, n: nat)
    requires IsRun(states, steps) && n <= |steps|
    ensures states[n].enqueued == PutBy(steps, n) && states[n].sent == SentBy(states, steps, n)
  {
    if n > 0 {
      LogsAre(states, steps, n - 1);
      assert Enabled(states[n - 1], steps[n - 1]);
    }
  }

  // ----- nothing lost, nothing duplicated, by any number of consumers

  function HeldBy(c: Consumer, om: Bytes): nat {
    if c == Holding(om) then 1 else 0
  }

  /** How many consumers hold the packet `om`. */
  function Held(cs: seq<Consumer>, om: Bytes): nat {
    if cs == [] then 0 else HeldBy(cs[0], om) + Held(cs[1..], om)
  }

  lemma {:induction false} HeldUpdate(cs: seq<Consumer>, c: nat, x: Consumer, om: Bytes)
    requires c < |cs|
    ensures Held(cs[c := x], om) + HeldBy(cs[c], om) == Held(cs, om) + HeldBy(x, om)
  {
    if c == 0 {
      assert cs[c := x][1..] == cs[1..];
    } else {
      assert cs[c := x][1..] == cs[1..][c - 1 := x];
      HeldUpdate(cs[1..], c - 1, x, om);
    }
  }

  lemma {:induction false} NoneHeld(cs: seq<Consumer>, om: Bytes)
    requires forall c :: 0 <= c < |cs| ==> !cs[c].Holding?
    ensures Held(cs, om) == 0
  {
    if cs != [] {
      NoneHeld(cs[1..], om);
    }
  }

  /** `om` is sent, in flight and queued as often, taken together, as it was enqueued. */
  ghost predicate Conserved(s: State, om: Bytes) {
    multiset(s.sent)[om] + Held(s.consumers, om) + multiset(s.queue)[om] == multiset(s.enqueued)[om]
  }

  lemma StepConserves(s: State, step: Step, om: Bytes)
    requires Enabled(s, step) && Conserved(s, om)
    ensures Conserved(Next(s, step), om)
  {
    var t := Next(s, step);
    if !step.Put? {
      HeldUpdate(s.consumers, step.c, t.consumers[step.c], om);
    }
    if step.Get? && s.queue != [] {
      assert s.queue == [s.queue[0]] + t.queue;
    }
  }

  /** In every run no packet is lost and none is duplicated, whoever runs the send loop. */
  lemma {:induction false} RunConserves(states: seq<State>, steps: seq<Step>, i: nat, om: Bytes)
    requires IsRun(states, steps) && i < |states|
    ensures Conserved(states[i], om)
    ensures multiset(SentBy(states, steps, i))[om] + Held(states[i].consumers, om) + multiset(states[i].queue)[om]
         == multiset(PutBy(steps, i))[om]
  {
    LogsAre(states, steps, i);
    if i == 0 {
      NoneHeld(states[0].consumers, om);
    } else {
      RunConserves(states, steps, i - 1, om);
      assert Enabled(states[i - 1], steps[i - 1]);
      StepConserves(states[i - 1], steps[i - 1], om);
    }
  }

  // ----- in order, as long as at most one consumer has a packet in hand

  predicate Exclusive(s: State) {
    forall c, d | 0 <= c < |s.consumers| && 0 <= d < |s.consumers| ::
      s.consumers[c].Holding? && s.consumers[d].Holding? ==> c == d
  }

  /** Sent, then the packet in flight, then the queue: that is what was enqueued, in order. */
  ghost predicate InOrder(s: State) {
    if exists c :: 0 <= c < |s.consumers| && s.consumers[c].Holding?
    then forall c :: 0 <= c < |s.consumers| && s.consumers[c].Holding? ==>
                       s.sent + [s.consumers[c].om] + s.queue == s.enqueued
    else s.sent + s.queue == s.enqueued
  }

  lemma StepKeepsOrder(s: State, step: Step)
    requires Enabled(s, step) && InOrder(s) && Exclusive(s) && Exclusive(Next(s, step))
    ensures InOrder(Next(s, step))
  {
    var t := Next(s, step);
    match step {
      case Put(om) =>
        assert s.sent + s.queue + [om] == s.sent + t.queue;
        forall c | 0 <= c < |s.consumers| && s.consumers[c].Holding?
          ensures t.sent + [t.consumers[c].om] + t.queue == t.enqueued
        {
          assert s.sent + [s.consumers[c].om] + s.queue == s.enqueued;
          assert s.sent + [s.consumers[c].om] + (s.queue + [om]) == s.sent + [s.consumers[c].om] + s.queue + [om];
        }
        assert forall c :: 0 <= c < |s.consumers| ==> t.consumers[c] == s.consumers[c];
      case Wake(c) =>
        assert forall d :: 0 <= d < |s.consumers| && d != c ==> t.consumers[d] == s.consumers[d];
      case Get(c) =>
        assert forall d :: 0 <= d < |s.consumers| && d != c ==> t.consumers[d] == s.consumers[d];
        if s.queue != [] {
          assert t.consumers[c].Holding?;
          assert forall d :: 0 <= d < |s.consumers| ==> !s.consumers[d].Holding?;
          assert s.sent + [s.queue[0]] + s.queue[1..] == s.sent + s.queue;
        }
      case SendOk(c) =>
        assert forall d :: 0 <= d < |s.consumers| && d != c ==> t.consumers[d] == s.consumers[d];
        assert s.consumers[c].Holding?;
      case SendAgain(c) =>
        assert forall d :: 0 <= d < |s.consumers| && d != c ==> t.consumers[d] == s.consumers[d];
        assert s.consumers[c].Holding?;
        assert s.sent + ([s.consumers[c].om] + s.queue) == s.sent + [s.consumers[c].om] + s.queue;
    }
  }

  /** Back-pressure at any point, enqueues at any point: order is kept while consumers take turns. */
  lemma {:induction false} RunKeepsOrder(states: seq<State>, steps: seq<Step>, i: nat)
    requires IsRun(states, steps) && i < |states|
    requires forall j :: 0 <= j <= i ==> Exclusive(states[j])
    ensures InOrder(states[i]) && states[i].sent == SentBy(states, steps, i) && states[i].enqueued == PutBy(steps, i)
    ensures SentBy(states, steps, i) <= PutBy(steps, i)
  {
    LogsAre(states, steps, i);
    if i > 0 {
      RunKeepsOrder(states, steps, i - 1);
      assert Enabled(states[i - 1], steps[i - 1]);
      StepKeepsOrder(states[i - 1], steps[i - 1]);
    }
  }

  /** With at most one consumer there is nothing to take turns with. */
  lemma FewConsumersKeepOrder(states: seq<State>, steps: seq<Step>, i: nat)
    requires IsRun(states, steps) && i < |states|
    requires |states[0].consumers| <= 1
    ensures InOrder(states[i]) && states[i].sent == SentBy(states, steps, i) && states[i].enqueued == PutBy(steps, i)
    ensures SentBy(states, steps, i) <= PutBy(steps, i)
  {
    forall j | 0 <= j <= i
      ensures Exclusive(states[j])
    {
      ConsumersFixed(states, steps, j);
    }
    RunKeepsOrder(states, steps, i);
  }

  lemma {:induction false} ConsumersFixed(states: seq<State>, steps: seq<Step>, i: nat)
    requires IsRun(states, steps) && i < |states|
    ensures |states[i].consumers| == |states[0].consumers|
  {
    if i > 0 {
      ConsumersFixed(states, steps, i - 1);
      assert Enabled(states[i - 1], steps[i - 1]);
    }
  }

  /**
   The condition is needed: wherever two consumers hold different packets, the socket can
   accept them in an order in which they were not enqueued.
   */
  lemma OverlapCanReorder(s: State, c: nat, d: nat)
    requires c < |s.consumers| && d < |s.consumers|
    requires s.consumers[c].Holding? && s.consumers[d].Holding? && s.consumers[c].om != s.consumers[d].om
    ensures Enabled(s, SendOk(c)) && Enabled(s, SendOk(d))
    ensures !(Next(s, SendOk(c)).sent <= s.enqueued) || !(Next(s, SendOk(d)).sent <= s.enqueued)
  {
    var x, y := Next(s, SendOk(c)).sent, Next(s, SendOk(d)).sent;
    var n := |s.sent|;
    assert x[n] == s.consumers[c].om && y[n] == s.consumers[d].om;
  }

  /** With two or more consumers some run gets there, and sends the second packet first. */
  lemma TwoConsumersReorder(n: nat, a: Bytes, b: Bytes) returns (states: seq<State>, steps: seq<Step>)
    requires n >= 2 && a != b
    ensures IsRun(states, steps) && |states[0].consumers| == n
    ensures PutBy(steps, |steps|) == [a, b] && SentBy(states, steps, |steps|) == [b]
  {
    steps := [Put(a), Put(b), Wake(0), Wake(1), Get(0), Get(1), SendOk(1)];
    var s0 := State([], [], [], seq(n, _ => Idle));
    var s1 := Next(s0, steps[0]);
    var s2 := Next(s1, steps[1]);
    var s3 := Next(s2, steps[2]);
    var s4 := Next(s3, steps[3]);
    var s5 := Next(s4, steps[4]);
    var s6 := Next(s5, steps[5]);
    var s7 := Next(s6, steps[6]);
    states := [s0, s1, s2, s3, s4, s5, s6, s7];
    LogsAre(states, steps, |steps|);
  }

  /** Every run of n consumers sends packets in the order in which they were enqueued. */
  ghost predicate KeepsOrder(n: nat) {
    forall states: seq<State>, steps: seq<Step>, i: nat | IsRun(states, steps) && |states[0].consumers| == n && i < |states| ::
      SentBy(states, steps, i) <= PutBy(steps, i)
  }

  /** Exactly when order is kept, whatever the enqueues and the back-pressure: with at most one consumer. */
  lemma KeepsOrderIff(n: nat)
    ensures KeepsOrder(n) <==> n <= 1
  {
    if n <= 1 {
      forall states: seq<State>, steps: seq<Step>, i: nat | IsRun(states, steps) && |states[0].consumers| == n && i < |states|
        ensures SentBy(states, steps, i) <= PutBy(steps, i)
      {
        FewConsumersKeepOrder(states, steps, i);
      }
    } else {
      var a: Bytes, b: Bytes := [0], [1];
      var states, steps := TwoConsumersReorder(n, a, b);
      assert SentBy(states, steps, |steps|)[0] == b && PutBy(steps, |steps|)[0] == a;
    }
  }

  // ----- the loop run by one task without interruption is one such run

  /** Steps taken one after the other from s. */
  predicate Path(s: State, steps: seq<Step>)
    decreases |steps|
  {
    steps != [] ==> Enabled(s, steps[0]) && Path(Next(s, steps[0]), steps[1..])
  }

  function After(s: State, steps: seq<Step>): State
    requires Path(s, steps)
    decreases |steps|
  {
    if steps == [] then s else After(Next(s, steps[0]), steps[1..])
  }

  lemma Prepend(s: State, step: Step, rest: seq<Step>)
    requires Enabled(s, step) && Path(Next(s, step), rest)
    ensures Path(s, [step] + rest) && After(s, [step] + rest) == After(Next(s, step), rest)
  {
    assert ([step] + rest)[1..] == rest;
  }

  /** The state when consumer c has sent k packets and stopped. */
  function Drained(s: State, c: nat, k: nat): State
    requires c < |s.consumers| && k <= |s.queue|
  {
    s.(queue := s.queue[k..], sent := s.sent + s.queue[..k], consumers := s.consumers[c := Idle])
  }

  /** The loop stops on an empty queue or on MN_EAGAIN, not on an error. */
  predicate Stops(results: seq<SendResult>, i: nat, n: nat)
    requires i <= n
  {
    var k := Burst(results, i, n);
    i + k < n ==> ResultAt(results, i + k).Again?
  }

  lemma {:induction false} LoopFrom(s: State, c: nat, results: seq<SendResult>, i: nat) returns (steps: seq<Step>)
    requires c < |s.consumers| && s.consumers[c].Polling? && Stops(results, i, i + |s.queue|)
    ensures Path(s, steps) && After(s, steps) == Drained(s, c, Burst(results, i, i + |s.queue|))
    decreases |s.queue|
  {
    var held := Next(s, Get(c));
    if s.queue == [] {
      Prepend(s, Get(c), []);
      steps := [Get(c)] + [];
    } else if ResultAt(results, i).Sent? {
      var next := Next(held, SendOk(c));
      steps := LoopFrom(next, c, results, i + 1);
      Prepend(held, SendOk(c), steps);
      Prepend(s, Get(c), [SendOk(c)] + steps);
      steps := [Get(c)] + ([SendOk(c)] + steps);
      OneSent(s, next, c, Burst(results, i + 1, i + |s.queue|));
    } else {
      Prepend(held, SendAgain(c), []);
      Prepend(s, Get(c), [SendAgain(c)] + []);
      steps := [Get(c)] + ([SendAgain(c)] + []);
      Returned(s, c);
    }
  }

  lemma OneSent(s: State, next: State, c: nat, k: nat)
    requires c < |s.consumers| && s.queue != [] && k < |s.queue|
    requires next == s.(queue := s.queue[1..], sent := s.sent + [s.queue[0]], consumers := next.consumers)
    requires |next.consumers| == |s.consumers| && next.consumers[c := Idle] == s.consumers[c := Idle]
    ensures Drained(next, c, k) == Drained(s, c, k + 1)
  {
    assert s.queue[1..][k..] == s.queue[k + 1..];
    assert s.sent + [s.queue[0]] + s.queue[1..][..k] == s.sent + s.queue[..k + 1];
  }

  lemma Returned(s: State, c: nat)
    requires c < |s.consumers| && s.consumers[c].Polling? && s.queue != []
    ensures Next(Next(s, Get(c)), SendAgain(c)) == Drained(s, c, 0)
  {
    assert [s.queue[0]] + s.queue[1..] == s.queue;
  }

  /**
   What ProcessRspMq does to its queue, for any answers of the socket that do not stop the daemon,
   is done by a sequence of steps of one consumer.
   */
  lemma LoopIsRun(s: State, c: nat, results: seq<SendResult>) returns (steps: seq<Step>)
    requires c < |s.consumers| && s.consumers[c].Idle? && Stops(results, 0, |s.queue|)
    ensures var k := Burst(results, 0, |s.queue|);
            Path(s, steps) && After(s, steps) == s.(queue := s.queue[k..], sent := s.sent + s.queue[..k])
  {
    var awake := Next(s, Wake(c));
    steps := LoopFrom(awake, c, results, 0);
    Prepend(s, Wake(c), steps);
    steps := [Wake(c)] + steps;
    assert awake.consumers[c := Idle] == s.consumers;
  }

  lemma {:induction false} AllSent(results: seq<SendResult>, i: nat, n: nat)
    requires results == [] && i <= n
    ensures Burst(results, i, n) == n - i
    decreases n - i
  {
    if i < n {
      AllSent(results, i + 1, n);
    }
  }

  /** The state when the packets `oms` have been enqueued and everything has been sent. */
  function Flushed(s: State, oms: seq<Bytes>): State {
    s.(enqueued := s.enqueued + oms, queue := [], sent := s.sent + s.queue + oms)
  }

  lemma FlushNow(s: State, k: nat)
    requires k == |s.queue|
    ensures s.(queue := s.queue[k..], sent := s.sent + s.queue[..k]) == Flushed(s, [])
  {
    assert s.queue[..k] == s.queue && s.queue[k..] == [];
    assert s.enqueued + [] == s.enqueued && s.sent + s.queue + [] == s.sent + s.queue;
  }

  lemma FlushLater(s: State, om: Bytes, oms: seq<Bytes>)
    ensures Flushed(Next(s, Put(om)), oms) == Flushed(s, [om] + oms)
  {
    Assoc(s.enqueued, [om], oms);
    Assoc(s.sent + s.queue, [om], oms);
    Assoc(s.sent, s.queue, [om]);
  }

  /**
   No packet is ever refused by the queue, and none has to stay in it: from every state with an
   idle consumer, whatever is enqueued next can be sent, after what was waiting.
   */
  lemma {:induction false} AllCanBeSent(s: State, c: nat, oms: seq<Bytes>) returns (steps: seq<Step>)
    requires c < |s.consumers| && s.consumers[c].Idle?
    ensures Path(s, steps) && After(s, steps) == Flushed(s, oms)
    decreases |oms|
  {
    if oms == [] {
      steps := FlushQueue(s, c);
    } else {
      var om, more := oms[0], oms[1..];
      var rest := AllCanBeSent(Next(s, Put(om)), c, more);
      Prepend(s, Put(om), rest);
      steps := [Put(om)] + rest;
      FlushLater(s, om, more);
      assert oms == [om] + more;
    }
  }

  lemma FlushQueue(s: State, c: nat) returns (steps: seq<Step>)
    requires c < |s.consumers| && s.consumers[c].Idle?
    ensures Path(s, steps) && After(s, steps) == Flushed(s, [])
  {
    var none: seq<SendResult> := [];
    var k := |s.queue|;
    AllSent(none, 0, k);
    steps := LoopIsRun(s, c, none);
    FlushNow(s, k);
  }
}
