/** Byte sequences as text: the printers of bhd_util.c and the parsers of parse.c. */
module ByteStream {
  import opened Basics
  import opened CText

  // ----- what is printed

  /** "%s0x%02x" */
  function HexPiece(first: bool, b: Byte): string {
    (if first then "" else ":") + "0x" + Hex2(b)
  }

  function HexText(bs: Bytes): (s: string)
    ensures |s| == HexLen(|bs|)
  {
    if bs == [] then "" else HexText(bs[..|bs| - 1]) + HexPiece(|bs| == 1, bs[|bs| - 1])
  }

  function HexLen(n: nat): nat {
    if n == 0 then 0 else 5 * n - 1
  }

  lemma {:induction false} HexTextPrefix(bs: Bytes, k: nat)
    requires k <= |bs|
    ensures HexLen(k) <= HexLen(|bs|) && HexText(bs)[..HexLen(k)] == HexText(bs[..k])
  {
    if k == |bs| {
      assert bs[..k] == bs;
    } else {
      HexTextPrefix(bs[..|bs| - 1], k);
      assert bs[..|bs| - 1][..k] == bs[..k];
      assert HexText(bs)[..HexLen(k)] == HexText(bs[..|bs| - 1])[..HexLen(k)];
    }
  }

  /** The text, character by character: 0x and two digits for each byte, colons between them. */
  lemma HexTextAt(bs: Bytes, k: nat)
    requires k < |bs|
    ensures HexText(bs)[HexLen(k + 1) - 4..HexLen(k + 1)] == ['0', 'x'] + Hex2(bs[k])
    ensures k > 0 ==> HexText(bs)[5 * k - 1] == ':'
  {
    HexTextPrefix(bs, k + 1);
    PieceAppended(bs, k);
    PieceAt(HexText(bs), HexText(bs[..k]), k == 0, bs[k], HexLen(k + 1));
  }

  lemma PieceAt(all: string, done: string, first: bool, b: Byte, n: nat)
    requires n == |done| + |HexPiece(first, b)| <= |all| && all[..n] == done + HexPiece(first, b)
    ensures n >= 4 && all[n - 4..n] == ['0', 'x'] + Hex2(b)
    ensures !first ==> all[|done|] == ':'
  {
    PieceEnd(done, first, b);
    SliceOfPrefix(all, done + HexPiece(first, b), n - 4);
  }

  lemma PieceEnd(done: string, first: bool, b: Byte)
    ensures var t := done + HexPiece(first, b);
            |t| >= 4 && t[|t| - 4..] == ['0', 'x'] + Hex2(b) && (!first ==> t[|done|] == ':')
  {
    assert first ==> HexPiece(first, b) == ['0', 'x'] + Hex2(b);
    assert !first ==> HexPiece(first, b) == [':'] + (['0', 'x'] + Hex2(b));
  }

  lemma SliceOfPrefix(all: string, front: string, i: nat)
    requires i <= |front| <= |all| && all[..|front|] == front
    ensures all[i..|front|] == front[i..]
    ensures forall j :: 0 <= j < |front| ==> all[j] == front[j]
  {
  }

  /** How many of n bytes can be printed whole, with a terminator, into a buffer of the given size. */
  function Fitting(n: nat, size: nat): nat {
    Min(n, size / 5)
  }

  /** It is the largest such number. */
  lemma FittingIsLargest(n: nat, size: nat, k: nat)
    requires 0 < size && k <= n
    ensures k <= Fitting(n, size) <==> HexLen(k) < size
  {
  }

  // ----- printing into a buffer

  /** What the C string in a buffer reads: it ends at a null character. */
  predicate CString(buf: seq<char>, text: string) {
    |text| < |buf| && buf[..|text|] == text && buf[|text|] == '\0'
  }

  /** As much of a text as a buffer of the given size holds with a terminator. */
  function Cut(text: string, size: nat): string {
    if size == 0 then "" else text[..Min(|text|, size - 1)]
  }

  /** How many characters snprintf writes before the terminator: a negative size reads as a huge size_t. */
  function Room(text: string, rem: int): nat
    requires rem != 0
  {
    if rem > 0 then Min(|text|, rem - 1) else |text|
  }

  /** What one snprintf at offset off makes of a buffer. */
  function Printed(buf: seq<char>, off: nat, rem: int, text: string): seq<char>
    requires rem != 0 ==> off + Room(text, rem) < |buf|
  {
    if rem == 0 then buf
    else
      var w := Room(text, rem);
      buf[..off] + text[..w] + ['\0'] + buf[off + w + 1..]
  }

  /** snprintf into the part of dst that starts at off, told that rem characters are left. */
  method Snprintf(dst: array<char>, off: nat, rem: int, text: string) returns (n: nat)
    requires rem != 0 ==> off + Room(text, rem) < dst.Length
    modifies dst
    ensures n == |text|
    ensures dst[..] == Printed(old(dst[..]), off, rem, text)
  {
    n := |text|;
    if rem != 0 {
      var w := Room(text, rem);
      forall i | 0 <= i < w {
        dst[off + i] := text[i];
      }
      dst[off + w] := '\0';
    }
  }

  /** The first `size` characters of a buffer read as a text; behind them it is as it was. */
  ghost predicate Shows(buf: seq<char>, was: seq<char>, size: nat, text: string) {
    && size <= |was| == |buf| && buf[size..] == was[size..]
    && (if size == 0 then text == "" else CString(buf[..size], text))
  }

  /** The printing loop after i bytes. A negative size never gets past the first byte. */
  ghost predicate Printing(buf: seq<char>, was: seq<char>, size: int, src: Bytes, i: nat)
    requires i <= |src|
  {
    if size < 0 then i == 0 && buf == was
    else Shows(buf, was, size, HexText(src[..i])) && if size == 0 then i == 0 else HexLen(i) < size
  }

  /** What the loop leaves behind, and the length it reports. */
  ghost predicate PrintedAll(buf: seq<char>, was: seq<char>, size: int, src: Bytes, len: nat)
    requires size < 0 && src != [] ==> 5 <= |was|
  {
    if size >= 0 then len == HexLen(Fitting(|src|, size)) && Shows(buf, was, size, Cut(HexText(src), size))
    else len == 0 && buf == if src == [] then was else HexPiece(true, src[0]) + ['\0'] + was[5..]
  }

  /**
   The reported length covers the bytes that fit whole; the buffer holds as much of the full text
   as there is room for, terminated; nothing is written past the given size. With a negative size
   the first byte is printed regardless, and reported as nothing.
   */
  method HexStr(dst: array<char>, maxDstLen: int, src: Bytes) returns (dstLen: nat)
    requires maxDstLen <= dst.Length && (maxDstLen < 0 && src != [] ==> 5 <= dst.Length)
    modifies dst
    ensures maxDstLen >= 0 ==>
              && dstLen == HexLen(Fitting(|src|, maxDstLen))
              && dst[..][maxDstLen..] == old(dst[..])[maxDstLen..]
    ensures maxDstLen > 0 ==> CString(dst[..][..maxDstLen], Cut(HexText(src), maxDstLen))
    ensures maxDstLen < 0 ==>
              && dstLen == 0
              && dst[..] == if src == [] then old(dst[..]) else HexPiece(true, src[0]) + ['\0'] + old(dst[..])[5..]
  {
    ghost var was := dst[..];
    var off, remLen := 0, maxDstLen;
    if maxDstLen >= 1 {
      dst[0] := '\0';
    }
    PrintingStarts(was, dst[..], maxDstLen, src);
    var i := 0;
    while i < |src|
      invariant i <= |src| && off == HexLen(i) && remLen == maxDstLen - off
      invariant Printing(dst[..], was, maxDstLen, src, i)
    {
      var piece := HexPiece(i == 0, src[i]);
      PrintingFits(dst[..], was, maxDstLen, src, i, piece);
      ghost var before := dst[..];
      var rc := Snprintf(dst, off, remLen, piece);
      PrintingStep(before, dst[..], was, maxDstLen, src, i, piece);
      if rc >= remLen {
        break;
      }
      off := off + rc;
      remLen := remLen - rc;
      i := i + 1;
    }
    if i == |src| {
      PrintingEnds(dst[..], was, maxDstLen, src);
    }
    dstLen := off;
  }

  lemma PrintingStarts(was: seq<char>, buf: seq<char>, size: int, src: Bytes)
    requires size <= |was| == |buf| && buf == if size >= 1 then was[0 := '\0'] else was
    ensures Printing(buf, was, size, src, 0)
  {
    assert HexText(src[..0]) == "";
  }

  lemma PrintingFits(buf: seq<char>, was: seq<char>, size: int, src: Bytes, i: nat, piece: string)
    requires i < |src| && Printing(buf, was, size, src, i) && (size < 0 ==> 5 <= |was|)
    requires piece == HexPiece(i == 0, src[i])
    ensures var rem := size - HexLen(i); rem != 0 ==> HexLen(i) + Room(piece, rem) < |buf|
  {
  }

  /** One byte: either it fits, or the text is cut there for good. */
  lemma PrintingStep(before: seq<char>, after: seq<char>, was: seq<char>, size: int, src: Bytes, i: nat, piece: string)
    requires i < |src| && Printing(before, was, size, src, i) && (size < 0 ==> 5 <= |was|)
    requires piece == HexPiece(i == 0, src[i])
    requires var rem := size - HexLen(i);
             && (rem != 0 ==> HexLen(i) + Room(piece, rem) < |before|)
             && after == Printed(before, HexLen(i), rem, piece)
    ensures if |piece| >= size - HexLen(i) then PrintedAll(after, was, size, src, HexLen(i))
            else Printing(after, was, size, src, i + 1)
  {
    PieceAppended(src, i);
    if size > 0 {
      var shown := HexText(src[..i]);
      AppendShows(before, after, was, size, shown, piece);
      HexTextPrefix(src, i + 1);
      PieceFitsOrNot(src, i, size, shown, piece);
    } else if size < 0 {
      AllOf(piece);
    }
  }

  lemma PieceFitsOrNot(src: Bytes, i: nat, size: nat, shown: string, piece: string)
    requires i < |src| && |shown| == HexLen(i) < size && |shown + piece| == HexLen(i + 1) <= |HexText(src)|
    requires HexText(src)[..HexLen(i + 1)] == shown + piece
    ensures if |piece| >= size - |shown|
            then i == Fitting(|src|, size) && Cut(HexText(src), size) == Cut(shown + piece, size)
            else Cut(shown + piece, size) == shown + piece
  {
    if |piece| >= size - |shown| {
      CutEarly(HexText(src), shown + piece, size);
    } else {
      AllOf(shown + piece);
    }
  }

  lemma PrintingEnds(buf: seq<char>, was: seq<char>, size: int, src: Bytes)
    requires Printing(buf, was, size, src, |src|) && (size < 0 && src != [] ==> 5 <= |was|)
    ensures PrintedAll(buf, was, size, src, HexLen(|src|))
  {
    AllOf(src);
    AllOf(HexText(src));
  }

  lemma AllOf<T>(s: seq<T>)
    ensures s[..|s|] == s
  {
  }

  /** One snprintf behind what a buffer shows: the text is appended, or cut. */
  lemma AppendShows(before: seq<char>, after: seq<char>, was: seq<char>, size: nat, shown: string, text: string)
    requires |shown| < size && Shows(before, was, size, shown)
    requires after == Printed(before, |shown|, size - |shown|, text)
    ensures Shows(after, was, size, Cut(shown + text, size))
  {
    var w := Room(text, size - |shown|);
    assert before[..|shown|] == before[..size][..|shown|] == shown;
    assert Cut(shown + text, size) == shown + text[..w];
    assert after[..|shown| + w] == shown + text[..w];
    assert after[..size][..|shown| + w] == after[..|shown| + w];
    assert after[size..] == before[size..];
  }

  lemma PieceAppended(src: Bytes, i: nat)
    requires i < |src|
    ensures HexText(src[..i + 1]) == HexText(src[..i]) + HexPiece(i == 0, src[i])
  {
    assert src[..i + 1][..i] == src[..i];
  }

  /** What does not fit is not seen: a text and its beginning are cut alike. */
  lemma CutEarly(all: string, front: string, size: nat)
    requires size <= |front| <= |all| && all[..|front|] == front
    ensures Cut(all, size) == Cut(front, size)
  {
    assert size > 0 ==> all[..size - 1] == all[..|front|][..size - 1];
  }

  /** Five characters for each byte and one more, as the JSON encoder allocates, never cut anything off. */
  lemma CallerNeverTruncates(bs: Bytes, size: nat)
    requires size >= 5 * |bs| && size >= 1
    ensures Fitting(|bs|, size) == |bs|
    ensures Cut(HexText(bs), size) == HexText(bs)
  {
  }

  // ----- what is accepted

  const DELIMS := ":-"

  /** A token the parser takes for a byte: it is used up completely and its value fits. */
  predicate Accepts(token: string) {
    Strtoul16(token).end == |token| && Strtoul16(token).value <= 255
  }

  function ByteOf(token: string): Byte
    requires Accepts(token)
  {
    Strtoul16(token).value
  }

  /** The bytes of the leading tokens that are taken when there is room for `room` more. */
  function Taken(ts: seq<string>, room: nat): (r: Bytes)
    ensures |r| <= room && |r| <= |ts|
    ensures forall i :: 0 <= i < |r| ==> Accepts(ts[i]) && r[i] == ByteOf(ts[i])
  {
    if ts == [] || room == 0 || !Accepts(ts[0]) then [] else [ByteOf(ts[0])] + Taken(ts[1..], room - 1)
  }

  /** All tokens must be taken; the first one that is not decides the error. */
  function Verdict(ts: seq<string>, room: nat): Result<Bytes> {
    var r := Taken(ts, room);
    if |r| == |ts| then Ok(r) else if |r| == room then Err(SysEinval) else Err(BadToken)
  }

  function ParseText(s: string, delims: string, maxLen: nat): Result<Bytes> {
    Verdict(Tokens(s, delims), maxLen)
  }

  lemma {:induction false} TakenStops(ts: seq<string>, room: nat)
    ensures var n := |Taken(ts, room)|; n < |ts| && n < room ==> !Accepts(ts[n])
  {
    if ts != [] && room > 0 && Accepts(ts[0]) {
      TakenStops(ts[1..], room - 1);
      var n := |Taken(ts, room)|;
      assert n < |ts| ==> ts[1..][n - 1] == ts[n];
    }
  }

  /**
   Success means: no more tokens than room, every one a byte, and the result lists them in order.
   Too many tokens is the error only if those there is room for are all bytes.
   */
  lemma ParseOkIff(s: string, delims: string, maxLen: nat)
    ensures var ts, r := Tokens(s, delims), ParseText(s, delims, maxLen);
            && (r.Ok? <==> |ts| <= maxLen && forall i :: 0 <= i < |ts| ==> Accepts(ts[i]))
            && (r.Ok? ==> |r.value| == |ts| && forall i :: 0 <= i < |ts| ==> r.value[i] == ByteOf(ts[i]))
            && (r == Err(SysEinval) <==> |ts| > maxLen && forall i :: 0 <= i < maxLen ==> Accepts(ts[i]))
            && (r.Err? ==> r.error == SysEinval || r.error == BadToken)
  {
    TakenStops(Tokens(s, delims), maxLen);
  }

  /** Leading, trailing and repeated delimiters make no difference. */
  lemma ParseIgnoresDelims(x: string, a: string, y: string, y': string, b: string, z: string, delims: string, maxLen: nat)
    requires AllDelims(x, delims) && AllDelims(z, delims)
    requires y != "" && AllDelims(y, delims) && y' != "" && AllDelims(y', delims)
    ensures ParseText(x + (a + y + b) + z, delims, maxLen) == ParseText(a + y' + b, delims, maxLen)
  {
    DelimsAround(x, a + y + b, z, delims);
    DelimsSeparate(a, y, b, delims);
    DelimsSeparate(a, y', b, delims);
  }

  /** The text with colons for hyphens. */
  function Colons(s: string): (r: string)
    ensures |r| == |s|
  {
    seq(|s|, i requires 0 <= i < |s| => if s[i] == '-' then ':' else s[i])
  }

  lemma {:induction false} ColonsTokens(s: string)
    ensures Tokens(Colons(s), DELIMS) == Tokens(s, DELIMS)
    decreases |s|
  {
    if i :| 0 <= i < |s| && s[i] in DELIMS {
      var a, b := s[..i], s[i + 1..];
      assert s == a + [s[i]] + b;
      assert Colons(s) == Colons(a) + [':'] + Colons(b);
      TokensSplit(a, s[i], b, DELIMS);
      TokensSplit(Colons(a), ':', Colons(b), DELIMS);
      ColonsTokens(a);
      ColonsTokens(b);
    } else {
      assert Colons(s) == s;
    }
  }

  /** Bytes can be separated by colons or hyphens, in any mixture. */
  lemma HyphensAsColons(s: string, maxLen: nat)
    ensures ParseText(Colons(s), DELIMS, maxLen) == ParseText(s, DELIMS, maxLen)
  {
    ColonsTokens(s);
  }

  /** Of the tokens `ts` some were taken as `done`; `left` are the others, with room for `room` more. */
  ghost predicate Progress(ts: seq<string>, maxLen: nat, done: Bytes, left: seq<string>, room: nat) {
    |ts| == |done| + |left| && maxLen == |done| + room && Taken(ts, maxLen) == done + Taken(left, room)
  }

  lemma ProgressStart(ts: seq<string>, maxLen: nat)
    ensures Progress(ts, maxLen, [], ts, maxLen)
  {
    assert [] + Taken(ts, maxLen) == Taken(ts, maxLen);
  }

  lemma ProgressStep(ts: seq<string>, maxLen: nat, done: Bytes, left: seq<string>, room: nat,
                     token: string, more: seq<string>, b: Byte)
    requires Progress(ts, maxLen, done, left, room) && room > 0
    requires left == [token] + more && Accepts(token) && b == ByteOf(token)
    ensures Progress(ts, maxLen, done + [b], more, room - 1)
  {
    assert left[0] == token && left[1..] == more;
    assert Taken(left, room) == [b] + Taken(more, room - 1);
    MoveFirst(done, b, Taken(more, room - 1));
  }

  /** When nothing more can be taken, what was taken and why it ended decide the result. */
  lemma ProgressStop(ts: seq<string>, maxLen: nat, done: Bytes, left: seq<string>, room: nat)
    requires Progress(ts, maxLen, done, left, room)
    requires left == [] || room == 0 || !Accepts(left[0])
    ensures Taken(ts, maxLen) == done
    ensures Verdict(ts, maxLen)
         == if left == [] then Ok(done) else if room == 0 then Err(SysEinval) else Err(BadToken)
  {
    assert Taken(left, room) == [] && done + [] == done;
  }

  /** The token loop after i bytes: they are in place, the rest of the destination is as it was. */
  ghost predicate Parsing(now: Bytes, was: Bytes, ts: seq<string>, maxLen: nat, left: seq<string>, i: nat) {
    && i <= maxLen <= |was| == |now| && now[i..] == was[i..]
    && Progress(ts, maxLen, now[..i], left, maxLen - i)
  }

  lemma ParsingStarts(was: Bytes, ts: seq<string>, maxLen: nat)
    requires maxLen <= |was|
    ensures Parsing(was, was, ts, maxLen, ts, 0)
  {
    ProgressStart(ts, maxLen);
    assert was[..0] == [];
  }

  lemma ParsingStep(now: Bytes, was: Bytes, ts: seq<string>, maxLen: nat, left: seq<string>, i: nat,
                    token: string, more: seq<string>)
    requires Parsing(now, was, ts, maxLen, left, i) && i < maxLen
    requires left == [token] + more && Accepts(token)
    ensures Parsing(now[i := ByteOf(token)], was, ts, maxLen, more, i + 1)
  {
    var b := ByteOf(token);
    ProgressStep(ts, maxLen, now[..i], left, maxLen - i, token, more, b);
    assert now[i := b][..i + 1] == now[..i] + [b];
    assert now[i := b][i + 1..] == now[i..][1..] == was[i..][1..] == was[i + 1..];
  }

  lemma ParsingStops(now: Bytes, was: Bytes, ts: seq<string>, maxLen: nat, left: seq<string>, i: nat)
    requires Parsing(now, was, ts, maxLen, left, i)
    requires left == [] || i == maxLen || !Accepts(left[0])
    ensures |Taken(ts, maxLen)| == i && now == Taken(ts, maxLen) + was[i..]
    ensures var r := Verdict(ts, maxLen);
            if left == [] then r.Ok? && |r.value| == i
            else r == Err(if i == maxLen then SysEinval else BadToken)
  {
    ProgressStop(ts, maxLen, now[..i], left, maxLen - i);
    SplitAt(now, i);
  }

  /** The token loop. Bytes taken before an error stay written; nothing else is. */
  method ParseArgByteStreamDelim(sval: string, delims: string, maxLen: nat, dst: array<Byte>)
    returns (rc: Result<nat>)
    requires maxLen <= dst.Length
    modifies dst
    ensures var r := ParseText(sval, delims, maxLen);
            rc == if r.Ok? then Ok(|r.value|) else Err(r.error)
    ensures var t := Taken(Tokens(sval, delims), maxLen);
            dst[..] == t + old(dst[|t|..])
  {
    ghost var ts, was := Tokens(sval, delims), dst[..];
    ghost var left := ts;
    var i := 0;
    var token, rest := Strtok(sval, delims);
    ParsingStarts(was, ts, maxLen);
    while token.Some?
      invariant Parsing(dst[..], was, ts, maxLen, left, i)
      invariant left == if token.None? then [] else [token.value] + Tokens(rest, delims)
      decreases if token.Some? then 1 + |rest| else 0
    {
      if i >= maxLen {
        ParsingStops(dst[..], was, ts, maxLen, left, i);
        return Err(SysEinval);
      }
      var number := Strtoul16(token.value);
      if number.end != |token.value| || number.value > 255 {
        ParsingStops(dst[..], was, ts, maxLen, left, i);
        return Err(BadToken);
      }
      ParsingStep(dst[..], was, ts, maxLen, left, i, token.value, Tokens(rest, delims));
      dst[i] := number.value;
      left := Tokens(rest, delims);
      i := i + 1;
      token, rest := Strtok(rest, delims);
    }
    ParsingStops(dst[..], was, ts, maxLen, left, i);
    return Ok(i);
  }

  method ParseArgByteStream(val: string, maxLen: nat, dst: array<Byte>) returns (rc: Result<nat>)
    requires maxLen <= dst.Length
    modifies dst
    ensures var r := ParseText(val, DELIMS, maxLen);
            rc == if r.Ok? then Ok(|r.value|) else Err(r.error)
    ensures var t := Taken(Tokens(val, DELIMS), maxLen);
            dst[..] == t + old(dst[|t|..])
  {
    rc := ParseArgByteStreamDelim(val, DELIMS, maxLen, dst);
  }

  /** The result of parsing a text that must have exactly `len` bytes. */
  function ParseExact(val: string, len: nat): Result<Bytes> {
    var r := ParseText(val, DELIMS, len);
    if r.Ok? && |r.value| != len then Err(SysEinval) else r
  }

  /** Which result a text gets: the right number of bytes, a wrong number of them, or something else. */
  lemma ParseExactIff(val: string, len: nat)
    ensures var ts, r := Tokens(val, DELIMS), ParseExact(val, len);
            && (r.Ok? <==> |ts| == len && forall i :: 0 <= i < |ts| ==> Accepts(ts[i]))
            && (r.Ok? ==> |r.value| == len && forall i :: 0 <= i < len ==> r.value[i] == ByteOf(ts[i]))
            && (r == Err(SysEinval) <==> |ts| != len && forall i :: 0 <= i < Min(len, |ts|) ==> Accepts(ts[i]))
            && (r.Err? ==> r.error == SysEinval || r.error == BadToken)
  {
    ParseOkIff(val, DELIMS, len);
  }

  method ParseArgByteStreamExactLength(val: string, dst: array<Byte>, len: nat) returns (rc: Result<()>)
    requires len <= dst.Length
    modifies dst
    ensures rc == match ParseExact(val, len) case Ok(_) => Ok(()) case Err(e) => Err(e)
    ensures rc.Ok? ==> dst[..len] == ParseExact(val, len).value
    ensures dst[len..] == old(dst[len..])
  {
    var n := ParseArgByteStream(val, len, dst);
    if n.Err? {
      return Err(n.error);
    }
    if n.value != len {
      return Err(SysEinval);
    }
    return Ok(());
  }

  // ----- parsing inverts printing

  function HexTokens(bs: Bytes): seq<string> {
    seq(|bs|, i requires 0 <= i < |bs| => "0x" + Hex2(bs[i]))
  }

  lemma OneToken(b: Byte)
    ensures Tokens("0x" + Hex2(b), DELIMS) == ["0x" + Hex2(b)]
    ensures Tokens(Hex2(b), DELIMS) == [Hex2(b)]
  {
    DigitRoundTrip(b / 16);
    DigitRoundTrip(b % 16);
    WholeToken("0x" + Hex2(b));
    WholeToken(Hex2(b));
  }

  lemma WholeToken(t: string)
    requires t != "" && forall i :: 0 <= i < |t| ==> t[i] !in DELIMS
    ensures Tokens(t, DELIMS) == [t]
  {
    SpanIs(t, DELIMS, |t|);
    assert t[..|t|] == t && t[|t|..] == "";
    assert Tokens("", DELIMS) == [];
  }

  lemma {:induction false} HexTextTokens(bs: Bytes)
    ensures Tokens(HexText(bs), DELIMS) == HexTokens(bs)
  {
    if bs != [] {
      var front, last := bs[..|bs| - 1], bs[|bs| - 1];
      HexTextTokens(front);
      OneToken(last);
      assert HexTokens(bs) == HexTokens(front) + ["0x" + Hex2(last)];
      if |bs| == 1 {
        assert HexText(front) + HexPiece(true, last) == "0x" + Hex2(last);
      } else {
        assert HexText(bs) == HexText(front) + [':'] + ("0x" + Hex2(last));
        TokensSplit(HexText(front), ':', "0x" + Hex2(last), DELIMS);
      }
    }
  }

  lemma {:induction false} HexTaken(bs: Bytes, room: nat)
    ensures Taken(HexTokens(bs), room) == bs[..Min(|bs|, room)]
  {
    if bs != [] && room > 0 {
      Hex2Read(bs[0]);
      HexTokensTail(bs);
      HexTaken(bs[1..], room - 1);
      ConsPrefix(bs, Min(|bs|, room));
    }
  }

  lemma HexTokensTail(bs: Bytes)
    requires bs != []
    ensures HexTokens(bs) != [] && HexTokens(bs)[0] == "0x" + Hex2(bs[0]) && HexTokens(bs)[1..] == HexTokens(bs[1..])
  {
  }

  lemma ConsPrefix(bs: Bytes, n: nat)
    requires 0 < n <= |bs|
    ensures bs[..n] == [bs[0]] + bs[1..][..n - 1]
  {
  }

  /** Parsing what was printed gives the bytes back, exactly if there is room for them. */
  lemma HexRoundTrip(bs: Bytes, maxLen: nat)
    ensures ParseText(HexText(bs), DELIMS, maxLen) == if |bs| <= maxLen then Ok(bs) else Err(SysEinval)
  {
    HexTextTokens(bs);
    HexTaken(bs, maxLen);
    VerdictOfAll(HexTokens(bs), bs, maxLen);
  }

  lemma VerdictOfAll(ts: seq<string>, bs: Bytes, room: nat)
    requires |ts| == |bs| && Taken(ts, room) == bs[..Min(|bs|, room)]
    ensures Verdict(ts, room) == if |bs| <= room then Ok(bs) else Err(SysEinval)
  {
    assert |bs| <= room ==> bs[..Min(|bs|, room)] == bs;
  }

  /** The string that a buffer reads as, up to its first null character. */
  function CStr(buf: seq<char>): string {
    if buf == [] || buf[0] == '\0' then "" else [buf[0]] + CStr(buf[1..])
  }

  lemma {:induction false} CStringReads(buf: seq<char>, text: string)
    requires CString(buf, text) && '\0' !in text
    ensures CStr(buf) == text
  {
    if text != "" {
      assert buf[0] == text[0];
      assert buf[1..][..|text| - 1] == buf[..|text|][1..];
      CStringReads(buf[1..], text[1..]);
    }
  }

  lemma {:induction false} HexTextNotNull(bs: Bytes)
    ensures '\0' !in HexText(bs)
  {
    if bs != [] {
      HexTextNotNull(bs[..|bs| - 1]);
      PieceNotNull(|bs| == 1, bs[|bs| - 1]);
    }
  }

  lemma PieceNotNull(first: bool, b: Byte)
    ensures '\0' !in HexPiece(first, b)
  {
    DigitRoundTrip(b / 16);
    DigitRoundTrip(b % 16);
  }

  /**
   Printing into a buffer and parsing what the buffer reads as: the bytes come back, for every
   buffer of five characters a byte, and at least one, and every destination with room for them.
   */
  method PrintThenParse(src: Bytes, buf: array<char>, size: nat, dst: array<Byte>, maxLen: nat) returns (rc: Result<nat>)
    requires 1 <= size <= buf.Length && 5 * |src| <= size && |src| <= maxLen <= dst.Length
    modifies buf, dst
    ensures rc == Ok(|src|)
    ensures dst[..] == src + old(dst[|src|..])
  {
    var _ := HexStr(buf, size, src);
    CallerNeverTruncates(src, size);
    HexTextNotNull(src);
    CStringReads(buf[..][..size], HexText(src));
    rc := ParseArgByteStream(CStr(buf[..][..size]), maxLen, dst);
    HexRoundTrip(src, maxLen);
    HexTextTokens(src);
    HexTaken(src, maxLen);
    AllOf(src);
  }
}
