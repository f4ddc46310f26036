/**
 The framing reader. `Step` is one call of blehostd_enqueue_one, `Drain` the loop around it,
 `Run` a whole history of socket-readable callbacks.
 */
module Reader {
  import opened Basics
  import opened Framing

  /** blehostd_packet (None is the null pointer) and blehostd_packet_len. */
  datatype State = State(packet: Option<Bytes>, len: nat) {
    predicate Valid() {
      (packet.None? ==> len == 0) && len <= MAX_MSG_SZ
    }

    function Buffered(): Bytes {
      if packet.Some? then packet.value else []
    }

    /** The 16-bit packet length of the mbuf chain is exact. */
    predicate Fits() {
      |Buffered()| < 0x10000
    }

    /** The bytes held back, with a header that was already stripped put in front again. */
    function Rest(): Bytes
      requires Valid()
    {
      (if len == 0 then [] else Header(len)) + Buffered()
    }

    function Weight(): nat {
      if packet.None? then 0 else 1 + |packet.value|
    }

    /** Nothing more can be taken from the buffer: there is none, or it is too short. */
    predicate Settled() {
      if len > 0 then packet.Some? && |packet.value| < len
      else packet.None? || |packet.value| == 1
    }

    /** An allocated buffer without bytes only occurs while a message body is awaited. */
    predicate Tidy() {
      packet == Some([]) ==> len > 0
    }
  }

  const EMPTY := State(None, 0)

  /** OS_MBUF_PKTLEN is a 16-bit field. */
  function PktLen(om: Bytes): nat {
    |om| % 0x10000
  }

  /** The header phase. A copy of two bytes out of a shorter (or absent) buffer fails. */
  function Load(st: State): State {
    if st.len != 0 || |st.Buffered()| < 2 then st
    else
      var p := st.packet.value;
      if HeaderLen(p) > MAX_MSG_SZ then st.(len := PktLen(p))
      else State(Some(p[2..]), HeaderLen(p))
  }

  /** The outcome of one call: the new state and the message enqueued, if there is one. */
  datatype Outcome = Outcome(next: State, out: seq<Bytes>)

  function Step(st: State, allocOk: bool): (r: Outcome)
    requires st.Valid()
    ensures r.next.Valid()
    ensures r.out != [] ==> r.next.Weight() < st.Weight()
  {
    var q := Load(st);
    if q.len == 0 || PktLen(q.packet.value) < q.len then
      Outcome(q, [])
    else if PktLen(q.packet.value) == q.len then
      Outcome(EMPTY, [q.packet.value])
    else if !allocOk then
      Outcome(q, [])
    else
      Outcome(State(Some(q.packet.value[q.len..]), 0), [q.packet.value[..q.len]])
  }

  function Drain(st: State, alloc: seq<bool>, i: nat): (r: Outcome)
    requires st.Valid()
    ensures r.next.Valid()
    decreases st.Weight()
  {
    var r := Step(st, AllocAt(alloc, i));
    if r.out == [] then r
    else
      var d := Drain(r.next, alloc, i + 1);
      Outcome(d.next, r.out + d.out)
  }

  /** One socket-readable callback: mn_recvfrom fails, or returns a chunk. */
  datatype Read = NoData | Got(chunk: Bytes, alloc: seq<bool>)

  function Append(st: State, chunk: Bytes): State {
    st.(packet := Some(st.Buffered() + chunk))
  }

  function Receive(st: State, rd: Read): (r: Outcome)
    requires st.Valid()
    ensures r.next.Valid()
  {
    match rd
    case NoData => Outcome(st, [])
    case Got(chunk, alloc) => Drain(Append(st, chunk), alloc, 0)
  }

  /** The messages enqueued and the final state of a history of callbacks, newest last. */
  function Run(st: State, history: seq<Read>): (r: Outcome)
    requires st.Valid()
    ensures r.next.Valid()
  {
    if history == [] then Outcome(st, [])
    else
      var before := Run(st, history[..|history| - 1]);
      var last := Receive(before.next, history[|history| - 1]);
      Outcome(last.next, before.out + last.out)
  }

  function ChunkOf(rd: Read): Bytes {
    if rd.Got? then rd.chunk else []
  }

  /** All bytes received over a history. */
  function Received(history: seq<Read>): Bytes {
    if history == [] then []
    else Received(history[..|history| - 1]) + ChunkOf(history[|history| - 1])
  }

  /** At every callback the buffer with the new chunk stays below the 16-bit packet length. */
  predicate RunFits(st: State, history: seq<Read>)
    requires st.Valid()
  {
    history != [] ==>
      var front := history[..|history| - 1];
      RunFits(st, front) && Append(Run(st, front).next, ChunkOf(history[|history| - 1])).Fits()
  }

  /** A read that succeeds returns at least one byte. */
  predicate NonEmptyChunks(history: seq<Read>) {
    forall i :: 0 <= i < |history| && history[i].Got? ==> history[i].chunk != []
  }

  /** No allocation fails in any of the callbacks. */
  predicate NoFailures(history: seq<Read>) {
    forall i :: 0 <= i < |history| && history[i].Got? ==> AllSucceed(history[i].alloc)
  }
}
