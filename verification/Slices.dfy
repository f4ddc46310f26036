/** Null-terminated slices of a pool, read from a given slot up to the terminator. */
module Slices {
  import opened Basics

  /** None means that an item cannot be read, or that the pool ends before a terminator. */
  function Walk<E, T>(slots: seq<E>, i: nat, stop: E -> bool, read: E -> Option<T>): Option<seq<T>>
    decreases |slots| - i
  {
    if i >= |slots| then None
    else if stop(slots[i]) then Some([])
    else match read(slots[i])
         case None => None
         case Some(x) =>
           match Walk(slots, i + 1, stop, read)
           case None => None
           case Some(rest) => Some([x] + rest)
  }

  lemma ConsInjective<T>(x: T, a: seq<T>, y: T, b: seq<T>)
    ensures [x] + a == [y] + b <==> x == y && a == b
  {
    assert ([x] + a)[0] == x && ([y] + b)[0] == y;
    assert ([x] + a)[1..] == a && ([y] + b)[1..] == b;
  }

  lemma WalkCons<E, T>(slots: seq<E>, i: nat, stop: E -> bool, read: E -> Option<T>, x: T, rest: seq<T>)
    ensures Walk(slots, i, stop, read) == Some([x] + rest) <==>
              && i < |slots| && !stop(slots[i]) && read(slots[i]) == Some(x)
              && Walk(slots, i + 1, stop, read) == Some(rest)
  {
    var w := Walk(slots, i + 1, stop, read);
    if i < |slots| && read(slots[i]).Some? && w.Some? {
      ConsInjective(read(slots[i]).value, w.value, x, rest);
    }
  }

  lemma FirstAndRest<T>(a: seq<T>)
    requires a != []
    ensures a == [a[0]] + a[1..]
  {
  }

  /** Slot i + j reads as the j-th item of `out`. */
  ghost predicate SlotReads<E, T>(slots: seq<E>, i: nat, stop: E -> bool, read: E -> Option<T>, out: seq<T>, j: nat) {
    j < |out| && i + j < |slots| && !stop(slots[i + j]) && read(slots[i + j]) == Some(out[j])
  }

  /** Slots that read as the items of `out`, and a terminator behind them. */
  lemma {:induction false} WalkYes<E, T>(slots: seq<E>, i: nat, stop: E -> bool, read: E -> Option<T>, out: seq<T>)
    requires i + |out| < |slots| && stop(slots[i + |out|])
    requires forall j :: 0 <= j < |out| ==> SlotReads(slots, i, stop, read, out, j)
    ensures Walk(slots, i, stop, read) == Some(out)
    decreases |out|
  {
    if out != [] {
      var next, rest := i + 1, out[1..];
      assert SlotReads(slots, i, stop, read, out, 0);
      forall j | 0 <= j < |rest|
        ensures SlotReads(slots, next, stop, read, rest, j)
      {
        assert SlotReads(slots, i, stop, read, out, j + 1);
      }
      WalkYes(slots, next, stop, read, rest);
      FirstAndRest(out);
      WalkCons(slots, i, stop, read, out[0], rest);
    }
  }

  /** One slot that reads as something else. */
  lemma {:induction false} WalkNo<E, T>(slots: seq<E>, i: nat, stop: E -> bool, read: E -> Option<T>, out: seq<T>, j: nat)
    requires j < |out| && !SlotReads(slots, i, stop, read, out, j)
    ensures Walk(slots, i, stop, read) != Some(out)
    decreases j
  {
    FirstAndRest(out);
    WalkCons(slots, i, stop, read, out[0], out[1..]);
    if j > 0 {
      WalkNo(slots, i + 1, stop, read, out[1..], j - 1);
    }
  }

  /** No terminator where the slice should end. */
  lemma {:induction false} WalkNoEnd<E, T>(slots: seq<E>, i: nat, stop: E -> bool, read: E -> Option<T>, out: seq<T>)
    requires i + |out| >= |slots| || !stop(slots[i + |out|])
    ensures Walk(slots, i, stop, read) != Some(out)
    decreases |out|
  {
    if out != [] {
      FirstAndRest(out);
      WalkCons(slots, i, stop, read, out[0], out[1..]);
      WalkNoEnd(slots, i + 1, stop, read, out[1..]);
    } else if i < |slots| && !stop(slots[i]) {
      var w := Walk(slots, i + 1, stop, read);
      if read(slots[i]).Some? && w.Some? {
        assert |[read(slots[i]).value] + w.value| > 0;
      }
    }
  }
}
