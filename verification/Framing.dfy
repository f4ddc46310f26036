/**
 The wire format between the daemon and its client: each message is preceded by its length
 as two bytes, most significant first. `Parse`, `Tail` and `Clean` read a whole byte stream
 at once; they are the reference that the incremental reader is compared with.
 */
module Framing {
  import opened Basics

  const MAX_MSG_SZ: nat := 10240

  function Header(n: nat): (h: Bytes)
    requires n < 0x10000
  {
    [n / 256, n % 256]
  }

  function HeaderLen(s: Bytes): nat
    requires |s| >= 2
  {
    s[0] as int * 256 + s[1] as int
  }

  function Frame(m: Bytes): Bytes
    requires |m| < 0x10000
  {
    Header(|m|) + m
  }

  predicate Framable(msgs: seq<Bytes>) {
    forall i :: 0 <= i < |msgs| ==> |msgs[i]| <= MAX_MSG_SZ
  }

  predicate AllNonEmpty(msgs: seq<Bytes>) {
    forall i :: 0 <= i < |msgs| ==> msgs[i] != []
  }

  function Frames(msgs: seq<Bytes>): Bytes
    requires Framable(msgs)
  {
    if msgs == [] then [] else Frame(msgs[0]) + Frames(msgs[1..])
  }

  /** A message as it appears in a list of delivered messages: an empty one is not delivered. */
  function Listed(m: Bytes): seq<Bytes> {
    if m == [] then [] else [m]
  }

  /** A complete frame of legal length stands at the front of `s`. */
  predicate HasFrame(s: Bytes) {
    |s| >= 2 && HeaderLen(s) <= MAX_MSG_SZ && |s| >= 2 + HeaderLen(s)
  }

  function Body(s: Bytes): Bytes
    requires HasFrame(s)
  {
    s[2..2 + HeaderLen(s)]
  }

  function AfterFrame(s: Bytes): Bytes
    requires HasFrame(s)
  {
    s[2 + HeaderLen(s)..]
  }

  /** The messages of the complete frames at the front of `s`. */
  function Parse(s: Bytes): seq<Bytes>
    decreases |s|
  {
    if HasFrame(s) then Listed(Body(s)) + Parse(AfterFrame(s)) else []
  }

  /** What follows the complete frames at the front of `s`. */
  function Tail(s: Bytes): Bytes
    decreases |s|
  {
    if HasFrame(s) then Tail(AfterFrame(s)) else s
  }

  /** A header that announces more than the maximum, which makes the reader skip framing. */
  predicate OversizeHeader(s: Bytes) {
    |s| >= 2 && HeaderLen(s) > MAX_MSG_SZ
  }

  /** No oversize header is met while the frames of `s` are read one after the other. */
  predicate Clean(s: Bytes) {
    !OversizeHeader(Tail(s))
  }

  /** No complete frame of `s` is empty. */
  predicate NoEmptyFrame(s: Bytes)
    decreases |s|
  {
    HasFrame(s) ==> Body(s) != [] && NoEmptyFrame(AfterFrame(s))
  }

  /** No message stands behind an empty frame. */
  predicate EmptyLast(s: Bytes)
    decreases |s|
  {
    HasFrame(s) ==> if Body(s) == [] then Parse(AfterFrame(s)) == [] else EmptyLast(AfterFrame(s))
  }

  lemma HeaderRoundTrip(n: nat, t: Bytes)
    requires n < 0x10000
    ensures HeaderLen(Header(n) + t) == n
  {
  }

  lemma HeaderOfLen(s: Bytes)
    requires |s| >= 2
    ensures HeaderLen(s) < 0x10000
    ensures Header(HeaderLen(s)) == s[..2]
  {
    assert s[..2] == [s[0], s[1]];
  }

  lemma TwoDigits(n: nat)
    ensures n / 256 * 256 + n % 256 == n
  {
  }

  /** A frame, byte by byte: the length with its high byte first, then the message. */
  lemma FrameBytes(m: Bytes)
    requires |m| < 0x10000
    ensures |Frame(m)| == 2 + |m| && Frame(m)[0] as int * 256 + Frame(m)[1] as int == |m| && Frame(m)[2..] == m
  {
    var h := Header(|m|);
    TwoDigits(|m|);
    assert Frame(m)[0] == h[0] && Frame(m)[1] == h[1];
    assert h[0] as int == |m| / 256 && h[1] as int == |m| % 256;
  }

  /** One frame in front of a stream contributes its message and nothing else. */
  lemma FrontFrame(m: Bytes, t: Bytes)
    requires |m| <= MAX_MSG_SZ
    ensures HasFrame(Frame(m) + t) && Body(Frame(m) + t) == m && AfterFrame(Frame(m) + t) == t
  {
    var s := Frame(m) + t;
    HeaderRoundTrip(|m|, m + t);
    assert s == Header(|m|) + (m + t);
  }

  lemma ParseFront(m: Bytes, t: Bytes)
    requires |m| <= MAX_MSG_SZ
    ensures Parse(Frame(m) + t) == Listed(m) + Parse(t) && Tail(Frame(m) + t) == Tail(t)
    ensures NoEmptyFrame(Frame(m) + t) <==> m != [] && NoEmptyFrame(t)
    ensures EmptyLast(Frame(m) + t) <==> if m == [] then Parse(t) == [] else EmptyLast(t)
  {
    FrontFrame(m, t);
  }

  lemma FramesUnfold(msgs: seq<Bytes>, t: Bytes)
    requires Framable(msgs) && msgs != []
    ensures Frames(msgs) + t == Frame(msgs[0]) + (Frames(msgs[1..]) + t)
  {
  }

  lemma FirstThenRest(msgs: seq<Bytes>, more: seq<Bytes>)
    requires msgs != []
    ensures msgs + more == [msgs[0]] + (msgs[1..] + more)
  {
  }

  /** The batch parser inverts framing: every message comes back, in order, with nothing left over. */
  lemma {:induction false} ParseFrames(msgs: seq<Bytes>, t: Bytes)
    requires Framable(msgs)
    requires AllNonEmpty(msgs)
    ensures Parse(Frames(msgs) + t) == msgs + Parse(t)
    ensures Tail(Frames(msgs) + t) == Tail(t)
    ensures NoEmptyFrame(Frames(msgs) + t) == NoEmptyFrame(t)
  {
    if msgs == [] {
      assert Frames(msgs) + t == t;
    } else {
      FramesUnfold(msgs, t);
      ParseFront(msgs[0], Frames(msgs[1..]) + t);
      ParseFrames(msgs[1..], t);
      FirstThenRest(msgs, Parse(t));
    }
  }

  lemma FramesCons(m: Bytes, msgs: seq<Bytes>)
    requires |m| <= MAX_MSG_SZ && Framable(msgs)
    ensures Framable([m] + msgs)
    ensures Frames([m] + msgs) == Frame(m) + Frames(msgs)
  {
    assert ([m] + msgs)[1..] == msgs;
  }

  lemma SplitFront(s: Bytes)
    requires HasFrame(s)
    ensures s == Frame(Body(s)) + AfterFrame(s)
  {
    HeaderOfLen(s);
    assert s[..2] + Body(s) + AfterFrame(s) == s;
  }

  /** Reading a stream loses no byte: the frames that were read, put back, precede the tail. */
  lemma {:induction false} ParseTailRebuild(s: Bytes)
    requires NoEmptyFrame(s)
    ensures Framable(Parse(s))
    ensures AllNonEmpty(Parse(s))
    ensures s == Frames(Parse(s)) + Tail(s)
    decreases |s|
  {
    if HasFrame(s) {
      var u := AfterFrame(s);
      ParseTailRebuild(u);
      FramesCons(Body(s), Parse(u));
      SplitFront(s);
      assert s == Frame(Body(s)) + (Frames(Parse(u)) + Tail(u));
    } else {
      assert Frames([]) == [];
    }
  }

  /** A tail has no complete frame in front. */
  lemma {:induction false} TailHasNoFrame(s: Bytes)
    ensures !HasFrame(Tail(s))
    ensures |Tail(s)| <= |s| && s[|s| - |Tail(s)|..] == Tail(s)
    decreases |s|
  {
    if HasFrame(s) {
      TailHasNoFrame(AfterFrame(s));
    }
  }

  lemma {:induction false} ParsedAreNonEmpty(s: Bytes)
    ensures AllNonEmpty(Parse(s))
    decreases |s|
  {
    if HasFrame(s) {
      ParsedAreNonEmpty(AfterFrame(s));
    }
  }

  /** A stream without oversize headers does not start with one. */
  lemma CleanFront(s: Bytes)
    requires Clean(s)
    ensures !OversizeHeader(s)
  {
  }

  lemma ExtendFront(a: Bytes, b: Bytes)
    requires HasFrame(a)
    ensures HasFrame(a + b) && Body(a + b) == Body(a) && AfterFrame(a + b) == AfterFrame(a) + b
  {
    assert HeaderLen(a + b) == HeaderLen(a);
  }

  /** A stream that meets no oversize header or empty frame does not meet one earlier. */
  lemma {:induction false} CleanPrefix(a: Bytes, b: Bytes)
    ensures Clean(a + b) ==> Clean(a)
    ensures NoEmptyFrame(a + b) ==> NoEmptyFrame(a)
    decreases |a|
  {
    if HasFrame(a) {
      ExtendFront(a, b);
      CleanPrefix(AfterFrame(a), b);
    } else if |a| >= 2 {
      assert HeaderLen(a + b) == HeaderLen(a);
    }
  }

  lemma CutBehind(f: Bytes, u: Bytes, n: nat)
    requires n <= |u|
    ensures (f + u)[..|f| + n] == f + u[..n]
  {
  }

  lemma CutNoFrame(t: Bytes, n: nat)
    requires !HasFrame(t) && n <= |t|
    ensures Parse(t[..n]) == [] && Tail(t[..n]) == t[..n] && NoEmptyFrame(t[..n])
  {
    if n >= 2 {
      assert HeaderLen(t[..n]) == HeaderLen(t);
    }
  }

  /** `s` up to the n-th byte of its tail. */
  function CutAt(s: Bytes, n: nat): Bytes
    requires |Tail(s)| <= |s| && n <= |Tail(s)|
  {
    s[..|s| - |Tail(s)| + n]
  }

  lemma CutFront(m: Bytes, u: Bytes, n: nat)
    requires |m| <= MAX_MSG_SZ && n <= |Tail(u)| <= |u|
    ensures Tail(Frame(m) + u) == Tail(u)
    ensures CutAt(Frame(m) + u, n) == Frame(m) + CutAt(u, n)
  {
    ParseFront(m, u);
    CutBehind(Frame(m), u, |u| - |Tail(u)| + n);
  }

  /** Cutting a stream inside its tail changes no message. */
  lemma {:induction false} CutTail(s: Bytes, n: nat)
    requires n <= |Tail(s)|
    ensures |Tail(s)| <= |s|
    ensures Parse(CutAt(s, n)) == Parse(s) && Tail(CutAt(s, n)) == Tail(s)[..n]
    ensures NoEmptyFrame(s) ==> NoEmptyFrame(CutAt(s, n))
    decreases |s|
  {
    TailHasNoFrame(s);
    if HasFrame(s) {
      var m, u := Body(s), AfterFrame(s);
      SplitFront(s);
      CutTail(u, n);
      CutFront(m, u, n);
      ParseFront(m, CutAt(u, n));
    } else {
      CutNoFrame(s, n);
    }
  }
}
