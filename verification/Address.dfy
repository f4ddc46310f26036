/** Device addresses: kept least significant byte first, written most significant byte first. */
module Address {
  import opened Basics
  import opened CText
  import opened ByteStream

  const ADDR_LEN: nat := 6

  function Reverse(bs: Bytes): (r: Bytes)
    ensures |r| == |bs|
  {
    seq(|bs|, i requires 0 <= i < |bs| => bs[|bs| - 1 - i])
  }

  /** Reversing twice changes nothing. */
  lemma ReverseInvolution(bs: Bytes)
    ensures Reverse(Reverse(bs)) == bs
  {
  }

  /** The swap loop over the first `len` bytes. */
  method ReverseBytes(bytes: array<Byte>, len: nat)
    requires len <= bytes.Length
    modifies bytes
    ensures bytes[..][..len] == Reverse(old(bytes[..])[..len])
    ensures bytes[..][len..] == old(bytes[..])[len..]
  {
    ghost var was := bytes[..];
    var i := 0;
    while i < len / 2
      invariant i <= len / 2
      invariant forall k :: 0 <= k < i ==> bytes[k] == was[len - 1 - k] && bytes[len - 1 - k] == was[k]
      invariant forall k :: i <= k < len - i ==> bytes[k] == was[k]
      invariant forall k :: len <= k < bytes.Length ==> bytes[k] == was[k]
    {
      var tmp := bytes[i];
      bytes[i] := bytes[len - i - 1];
      bytes[len - i - 1] := tmp;
      i := i + 1;
    }
    forall k | 0 <= k < len
      ensures bytes[k] == was[len - 1 - k]
    {
      if k >= len - i {
        assert bytes[len - 1 - (len - 1 - k)] == was[len - 1 - k];
      }
    }
    Mirrored(bytes[..], was, len);
  }

  lemma Mirrored(now: Bytes, was: Bytes, len: nat)
    requires len <= |now| == |was|
    requires forall k :: 0 <= k < len ==> now[k] == was[len - 1 - k]
    requires forall k :: len <= k < |now| ==> now[k] == was[k]
    ensures now[..len] == Reverse(was[..len]) && now[len..] == was[len..]
  {
  }

  /** "%02x:%02x:%02x:%02x:%02x:%02x", most significant byte first */
  function AddrText(addr: Bytes): string
    requires |addr| == ADDR_LEN
  {
    Hex2(addr[5]) + ":" + (Hex2(addr[4]) + ":" + (Hex2(addr[3]) + ":"
                           + (Hex2(addr[2]) + ":" + (Hex2(addr[1]) + ":" + Hex2(addr[0])))))
  }

  /** The text, character by character. */
  lemma AddrTextAt(addr: Bytes, j: nat)
    requires |addr| == ADDR_LEN && j < ADDR_LEN
    ensures |AddrText(addr)| == 3 * ADDR_LEN - 1
    ensures [AddrText(addr)[3 * j], AddrText(addr)[3 * j + 1]] == Hex2(addr[5 - j])
    ensures j > 0 ==> AddrText(addr)[3 * j - 1] == ':'
  {
  }

  function PlainTokens(bs: Bytes): seq<string> {
    seq(|bs|, i requires 0 <= i < |bs| => Hex2(bs[i]))
  }

  /** One more byte in front of a text, with the separator. */
  lemma Separated(b: Byte, text: string, ts: seq<string>)
    requires Tokens(text, DELIMS) == ts
    ensures Tokens(Hex2(b) + ":" + text, DELIMS) == [Hex2(b)] + ts
  {
    OneToken(b);
    TokensSplit(Hex2(b), ':', text, DELIMS);
  }

  lemma PlainCons(b: Byte, bs: Bytes)
    ensures PlainTokens([b] + bs) == [Hex2(b)] + PlainTokens(bs)
  {
  }

  lemma AddrTokens(addr: Bytes)
    requires |addr| == ADDR_LEN
    ensures Tokens(AddrText(addr), DELIMS) == PlainTokens(Reverse(addr))
  {
    var t0 := Hex2(addr[0]);
    var t1 := Hex2(addr[1]) + ":" + t0;
    var t2 := Hex2(addr[2]) + ":" + t1;
    var t3 := Hex2(addr[3]) + ":" + t2;
    var t4 := Hex2(addr[4]) + ":" + t3;
    OneToken(addr[0]);
    var r0: Bytes := [addr[0]];
    assert PlainTokens(r0) == [t0];
    var r1 := Further(addr[1], t0, r0);
    var r2 := Further(addr[2], t1, r1);
    var r3 := Further(addr[3], t2, r2);
    var r4 := Further(addr[4], t3, r3);
    var r5 := Further(addr[5], t4, r4);
    ReverseOfAddr(addr);
  }

  lemma ReverseOfAddr(a: Bytes)
    requires |a| == ADDR_LEN
    ensures Reverse(a) == [a[5]] + ([a[4]] + ([a[3]] + ([a[2]] + ([a[1]] + [a[0]]))))
  {
  }

  lemma Further(b: Byte, text: string, bs: Bytes) returns (r: Bytes)
    requires Tokens(text, DELIMS) == PlainTokens(bs)
    ensures r == [b] + bs && Tokens(Hex2(b) + ":" + text, DELIMS) == PlainTokens(r)
  {
    r := [b] + bs;
    Separated(b, text, PlainTokens(bs));
    PlainCons(b, bs);
  }

  lemma {:induction false} PlainTaken(bs: Bytes, room: nat)
    requires |bs| <= room
    ensures Taken(PlainTokens(bs), room) == bs
  {
    if bs != [] {
      Hex2Read(bs[0]);
      PlainTail(bs);
      PlainTaken(bs[1..], room - 1);
      ConsPrefix(bs, |bs|);
    }
  }

  lemma PlainTail(bs: Bytes)
    requires bs != []
    ensures PlainTokens(bs) != [] && PlainTokens(bs)[0] == Hex2(bs[0]) && PlainTokens(bs)[1..] == PlainTokens(bs[1..])
  {
  }

  /** What parse_arg_mac accepts, as a function of the text. */
  function ParseMac(text: string): Result<Bytes> {
    match ParseExact(text, ADDR_LEN)
    case Ok(bs) => Ok(Reverse(bs))
    case Err(e) => Err(e)
  }

  /** Parsing a printed address gives the address back. */
  lemma MacRoundTrip(addr: Bytes)
    requires |addr| == ADDR_LEN
    ensures ParseMac(AddrText(addr)) == Ok(addr)
  {
    AddrTokens(addr);
    PlainTaken(Reverse(addr), ADDR_LEN);
    ReverseInvolution(addr);
  }

  method ParseArgMac(val: string, dst: array<Byte>) returns (rc: Result<()>)
    requires ADDR_LEN <= dst.Length
    modifies dst
    ensures rc == match ParseMac(val) case Ok(_) => Ok(()) case Err(e) => Err(e)
    ensures rc.Ok? ==> dst[..ADDR_LEN] == ParseMac(val).value
    ensures dst[ADDR_LEN..] == old(dst[ADDR_LEN..])
  {
    rc := ParseArgByteStreamExactLength(val, dst, ADDR_LEN);
    if rc.Err? {
      return;
    }
    ReverseBytes(dst, ADDR_LEN);
    return Ok(());
  }
}
