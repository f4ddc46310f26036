/** UUIDs in JSON: numbers for the short ones, the text form of RFC 4122, section 3, for 128 bits. */
module UuidCodec {
  import opened Basics
  import opened CText

  /** The JSON items that matter here; for a number, the integer that the JSON library reports. */
  datatype Json = Numeral(value: int) | Text(text: string) | Other

  const TEXT_LEN: nat := 36
  const VALUE_LEN: nat := 16

  // ----- the text form: 8-4-4-4-12 digits

  predicate IsDash(i: nat) {
    i == 8 || i == 13 || i == 18 || i == 23
  }

  /** Number of dashes among the first i characters. */
  function DashesBefore(i: nat): nat {
    (if i > 8 then 1 else 0) + (if i > 13 then 1 else 0) + (if i > 18 then 1 else 0) + (if i > 23 then 1 else 0)
  }

  /** Where the digit pair of the j-th byte, counted from the most significant one, starts. */
  function PairAt(j: nat): (i: nat)
    requires j < VALUE_LEN
    ensures i + 1 < TEXT_LEN && !IsDash(i) && !IsDash(i + 1)
    ensures i - DashesBefore(i) == 2 * j && DashesBefore(i + 1) == DashesBefore(i)
  {
    if j < 4 then 2 * j
    else if j < 6 then 2 * j + 1
    else if j < 8 then 2 * j + 2
    else if j < 10 then 2 * j + 3
    else 2 * j + 4
  }

  /** Two characters the parser takes for a byte: a digit, after a digit or what strtoul skips. */
  predicate PairOk(a: char, b: char) {
    IsHex(b) && (IsHex(a) || IsSpace(a) || a == '+' || a == '-')
  }

  /** The byte it stores for them. */
  function PairByte(a: char, b: char): Byte
    requires PairOk(a, b)
  {
    if IsHex(a) then DigitValue(a) * 16 + DigitValue(b)
    else if a == '-' then (256 - DigitValue(b)) % 256
    else DigitValue(b)
  }

  lemma TwoChars(a: char, b: char)
    ensures var s := [a, b];
            && SkipDigits(s, 1) == (if IsHex(b) then 2 else 1)
            && SkipDigits(s, 0) == (if !IsHex(a) then 0 else if IsHex(b) then 2 else 1)
            && SkipSpaces(s, 0) == (if !IsSpace(a) then 0 else if IsSpace(b) then 2 else 1)
  {
    var s := [a, b];
    assert SkipDigits(s, 2) == 2 && SkipSpaces(s, 2) == 2;
    assert SkipSpaces(s, 1) == if IsSpace(b) then 2 else 1;
  }

  lemma TwoDigits(a: char, b: char)
    ensures IsHex(b) ==> DigitsValue([a, b], 1, 2) == DigitValue(b)
    ensures IsHex(a) && IsHex(b) ==> DigitsValue([a, b], 0, 2) == DigitValue(a) * 16 + DigitValue(b)
  {
    var s := [a, b];
    if IsHex(b) {
      assert DigitsValue(s, 1, 1) == 0;
      if IsHex(a) {
        assert DigitsValue(s, 0, 0) == 0 && DigitsValue(s, 0, 1) == DigitValue(a);
      }
    }
  }

  /** That is what strtoul makes of every string of two characters. */
  lemma StrtoulPair(a: char, b: char)
    ensures Strtoul16([a, b]).end == 2 <==> PairOk(a, b)
    ensures PairOk(a, b) ==> Strtoul16([a, b]).value % 256 == PairByte(a, b)
  {
    TwoChars(a, b);
    TwoDigits(a, b);
  }

  /** The j-th pair of a text is readable, and its byte. */
  predicate PairOkAt(s: string, j: nat)
    requires |s| >= TEXT_LEN && j < VALUE_LEN
  {
    PairOk(s[PairAt(j)], s[PairAt(j) + 1])
  }

  function PairByteAt(s: string, j: nat): Byte
    requires |s| >= TEXT_LEN && j < VALUE_LEN && PairOkAt(s, j)
  {
    PairByte(s[PairAt(j)], s[PairAt(j) + 1])
  }

  /** The texts the parser accepts: long enough, dashes in place, sixteen readable pairs. */
  predicate UuidText(s: string) {
    && |s| >= TEXT_LEN
    && s[8] == '-' && s[13] == '-' && s[18] == '-' && s[23] == '-'
    && (forall j :: 0 <= j < VALUE_LEN ==> PairOkAt(s, j))
  }

  /** The value of such a text, least significant byte first. */
  function UuidValue(s: string): Bytes
    requires UuidText(s)
  {
    seq(VALUE_LEN, m requires 0 <= m < VALUE_LEN => PairByteAt(s, 15 - m))
  }

  function UuidOf(item: Json): Result<Uuid> {
    match item
    case Numeral(v) => if 1 <= v <= 0xffff then Ok(Uuid16(v)) else Err(SysErange)
    case Text(s) => if UuidText(s) then Ok(Uuid128(UuidValue(s))) else Err(SysErange)
    case Other => Err(SysErange)
  }

  // ----- the loop with two cursors

  /** Pairs read so far, when the text cursor is at i and the value cursor at d. */
  predicate Cursors(i: nat, d: int) {
    i <= TEXT_LEN && -1 <= d < VALUE_LEN && i == 2 * (15 - d) + DashesBefore(i)
  }

  /** At a pair the two cursors agree on which byte it is. */
  lemma AtPair(i: nat, d: int)
    requires Cursors(i, d) && i < TEXT_LEN && !IsDash(i)
    ensures 0 <= d && i == PairAt(15 - d) && i + 1 < TEXT_LEN && Cursors(i + 2, d - 1)
  {
  }

  /** The dash in front of the j-th pair, where one belongs, is there. */
  predicate DashOkBefore(s: string, j: nat)
    requires |s| >= TEXT_LEN && j < VALUE_LEN
  {
    j > 0 && IsDash(PairAt(j) - 1) ==> s[PairAt(j) - 1] == '-'
  }

  /** The loop gets through the first n pairs, and the dashes in front of them. */
  predicate ReadsThrough(s: string, n: nat)
    requires |s| >= TEXT_LEN
  {
    n <= VALUE_LEN && forall k :: 0 <= k < n ==> DashOkBefore(s, k) && PairOkAt(s, k)
  }

  /** That is as far as it gets. There is exactly one such n. */
  predicate StopsAt(s: string, n: nat)
    requires |s| >= TEXT_LEN
  {
    ReadsThrough(s, n) && (n < VALUE_LEN ==> !DashOkBefore(s, n) || !PairOkAt(s, n))
  }

  /** A text is accepted exactly if the loop gets to its end. */
  lemma AllPairsRead(s: string, n: nat)
    requires |s| >= TEXT_LEN && StopsAt(s, n)
    ensures UuidText(s) <==> n == VALUE_LEN
  {
    assert PairAt(4) == 9 && PairAt(6) == 14 && PairAt(8) == 19 && PairAt(10) == 24;
    if n == VALUE_LEN {
      assert DashOkBefore(s, 4) && DashOkBefore(s, 6) && DashOkBefore(s, 8) && DashOkBefore(s, 10);
    }
  }

  /** The value when n pairs have been read: they fill it from its last byte down. */
  function Filled(s: string, n: nat, was: Bytes): (v: Bytes)
    requires |s| >= TEXT_LEN && ReadsThrough(s, n) && |was| == VALUE_LEN
  {
    seq(VALUE_LEN, m requires 0 <= m < VALUE_LEN => if m >= VALUE_LEN - n then PairByteAt(s, 15 - m) else was[m])
  }

  predicate DashesOk(s: string, i: nat)
    requires |s| >= TEXT_LEN
  {
    (i > 8 ==> s[8] == '-') && (i > 13 ==> s[13] == '-') && (i > 18 ==> s[18] == '-') && (i > 23 ==> s[23] == '-')
  }

  /** The loop with the text cursor at i and the value cursor at d; `written` lists the bytes set so far. */
  ghost predicate Reading(s: string, i: nat, d: int, value: Bytes, was: Bytes, written: seq<nat>) {
    && |s| >= TEXT_LEN && |was| == VALUE_LEN && Cursors(i, d) && DashesOk(s, i)
    && ReadsThrough(s, 15 - d)
    && value == Filled(s, 15 - d, was)
    && Downward(written, 15 - d)
  }

  /** The first n of the byte indices, from the last one down, each once. */
  predicate Downward(written: seq<nat>, n: nat) {
    |written| == n && forall j :: 0 <= j < n ==> written[j] == 15 - j
  }

  lemma ReadingStarts(s: string, was: Bytes)
    requires |s| >= TEXT_LEN && |was| == VALUE_LEN
    ensures Reading(s, 0, 15, was, was, [])
  {
  }

  lemma NextIsDash(s: string, i: nat, d: int, value: Bytes, was: Bytes, written: seq<nat>)
    requires Reading(s, i, d, value, was, written) && IsDash(i)
    ensures if s[i] == '-' then Reading(s, i + 1, d, value, was, written) else StopsAt(s, 15 - d) && d >= 0
  {
    assert PairAt(4) == 9 && PairAt(6) == 14 && PairAt(8) == 19 && PairAt(10) == 24;
  }

  lemma NextIsPair(s: string, i: nat, d: int, value: Bytes, was: Bytes, written: seq<nat>, ok: bool, b: Byte)
    requires Reading(s, i, d, value, was, written) && i + 1 < |s| && i < TEXT_LEN && !IsDash(i)
    requires (ok <==> PairOk(s[i], s[i + 1])) && (ok ==> b == PairByte(s[i], s[i + 1]))
    ensures 0 <= d
    ensures if ok then Reading(s, i + 2, d - 1, value[d := b], was, written + [d])
            else StopsAt(s, 15 - d) && d >= 0
  {
    AtPair(i, d);
    DashesSeen(s, i, 15 - d);
    if ok {
      FillOne(s, 15 - d, was, b);
    }
  }

  lemma DashesSeen(s: string, i: nat, j: nat)
    requires |s| >= TEXT_LEN && DashesOk(s, i) && j < VALUE_LEN && i == PairAt(j)
    ensures DashOkBefore(s, j) && DashesOk(s, i + 2)
  {
    assert PairAt(4) == 9 && PairAt(6) == 14 && PairAt(8) == 19 && PairAt(10) == 24;
  }

  lemma FillOne(s: string, n: nat, was: Bytes, b: Byte)
    requires |s| >= TEXT_LEN && ReadsThrough(s, n + 1) && |was| == VALUE_LEN && b == PairByteAt(s, n)
    ensures Filled(s, n + 1, was) == Filled(s, n, was)[15 - n := b]
  {
  }

  lemma ReadingEnds(s: string, i: nat, d: int, value: Bytes, was: Bytes, written: seq<nat>)
    requires Reading(s, i, d, value, was, written) && i >= TEXT_LEN
    ensures d == -1 && UuidText(s) && StopsAt(s, VALUE_LEN) && value == UuidValue(s)
  {
    AllPairsRead(s, VALUE_LEN);
  }

  /** Two characters in a buffer of their own, given to strtoul and cut to a byte. */
  method ReadPair(a: char, b: char) returns (ok: bool, value: Byte)
    ensures ok <==> PairOk(a, b)
    ensures ok ==> value == PairByte(a, b)
  {
    StrtoulPair(a, b);
    var number := Strtoul16([a, b]);
    return number.end == 2, number.value % 256;
  }

  /**
   The bytes of `value` are set from the last one down, each once, as far as the text can be read;
   on a refusal they stay as they are then. A number sets another member of the union.
   */
  method ProcessJsonUuid(item: Json, value: array<Byte>) returns (r: Result<Uuid>, ghost written: seq<nat>)
    requires value.Length == VALUE_LEN
    modifies value
    ensures r == UuidOf(item)
    ensures r.Ok? && r.value.Uuid128? ==> value[..] == r.value.value
    ensures item.Numeral? ==> (r.Ok? <==> 1 <= item.value <= 0xffff)
    ensures item.Numeral? && r.Ok? ==> r.value.Uuid16? && r.value.short == item.value
    ensures item.Other? ==> r.Err?
    ensures r.Err? ==> r.error == SysErange
    ensures item.Text? && |item.text| >= TEXT_LEN ==>
              && StopsAt(item.text, |written|) && Downward(written, |written|)
              && value[..] == Filled(item.text, |written|, old(value[..]))
    ensures r.Err? && !(item.Text? && |item.text| >= TEXT_LEN) ==> value[..] == old(value[..]) && written == []
  {
    written := [];
    if item.Numeral? && 1 <= item.value <= 0xffff {
      r := Ok(Uuid16(item.value));
      return;
    }
    if !item.Text? {
      r := Err(SysErange);
      return;
    }
    var s := item.text;
    if |s| < TEXT_LEN {
      r := Err(SysErange);
      return;
    }
    ghost var was := value[..];
    var i, d := 0, 15;
    ReadingStarts(s, was);
    while i < TEXT_LEN
      invariant Reading(s, i, d, value[..], was, written)
    {
      if i == 8 || i == 13 || i == 18 || i == 23 {
        NextIsDash(s, i, d, value[..], was, written);
        if s[i] != '-' {
          AllPairsRead(s, 15 - d);
          r := Err(SysErange);
          return;
        }
        i := i + 1;
      } else {
        var ok, b := ReadPair(s[i], s[i + 1]);
        ghost var before := value[..];
        NextIsPair(s, i, d, before, was, written, ok, b);
        if !ok {
          AllPairsRead(s, 15 - d);
          r := Err(SysErange);
          return;
        }
        value[d] := b;
        assert value[..] == before[d := b];
        written := written + [d];
        d := d - 1;
        i := i + 2;
      }
    }
    ReadingEnds(s, i, d, value[..], was, written);
    r := Ok(Uuid128(value[..]));
  }

  // ----- printing

  /** The canonical text of a 128-bit value. */
  function UuidPrint(v: Bytes): (s: string)
    requires |v| == VALUE_LEN
    ensures |s| == TEXT_LEN
  {
    seq(TEXT_LEN, i requires 0 <= i < TEXT_LEN => UuidChar(v, i))
  }

  function UuidChar(v: Bytes, i: nat): char
    requires |v| == VALUE_LEN && i < TEXT_LEN
  {
    if IsDash(i) then '-'
    else
      var n := i - DashesBefore(i);
      Hex2(v[15 - n / 2])[n % 2]
  }

  function CreateUuid(u: Uuid): Json
    requires u.Uuid128? ==> |u.value| == VALUE_LEN
  {
    match u
    case Uuid16(v) => Numeral(v)
    case Uuid32(v) => Numeral(v)
    case Uuid128(v) => Text(UuidPrint(v))
  }

  /** The printed digits of the j-th byte stand at the j-th pair. */
  lemma PrintedPair(v: Bytes, j: nat)
    requires |v| == VALUE_LEN && j < VALUE_LEN
    ensures [UuidPrint(v)[PairAt(j)], UuidPrint(v)[PairAt(j) + 1]] == Hex2(v[15 - j])
  {
    var i := PairAt(j);
    assert i - DashesBefore(i) == 2 * j && i + 1 - DashesBefore(i + 1) == 2 * j + 1;
    assert UuidPrint(v)[i] == UuidChar(v, i) && UuidPrint(v)[i + 1] == UuidChar(v, i + 1);
  }

  lemma Hex2Pair(b: Byte)
    ensures var s := Hex2(b); PairOk(s[0], s[1]) && PairByte(s[0], s[1]) == b && IsHex(s[0]) && IsHex(s[1])
    ensures DigitValue(Hex2(b)[1]) == b % 16
  {
    DigitRoundTrip(b / 16);
    DigitRoundTrip(b % 16);
  }

  lemma PrintedPairRead(v: Bytes, j: nat)
    requires |v| == VALUE_LEN && j < VALUE_LEN
    ensures PairOkAt(UuidPrint(v), j) && PairByteAt(UuidPrint(v), j) == v[15 - j]
  {
    PrintedPair(v, j);
    Hex2Pair(v[15 - j]);
    var s := [UuidPrint(v)[PairAt(j)], UuidPrint(v)[PairAt(j) + 1]];
    assert s[0] == UuidPrint(v)[PairAt(j)] && s[1] == UuidPrint(v)[PairAt(j) + 1];
  }

  lemma PrintedDashes(v: Bytes)
    requires |v| == VALUE_LEN
    ensures var s := UuidPrint(v); s[8] == '-' && s[13] == '-' && s[18] == '-' && s[23] == '-'
  {
  }

  /** Every 128-bit value survives printing and parsing. */
  lemma PrintRoundTrip(v: Bytes)
    requires |v| == VALUE_LEN
    ensures UuidText(UuidPrint(v)) && UuidValue(UuidPrint(v)) == v
  {
    PrintedDashes(v);
    forall j | 0 <= j < VALUE_LEN
      ensures PairOkAt(UuidPrint(v), j) && PairByteAt(UuidPrint(v), j) == v[15 - j]
    {
      PrintedPairRead(v, j);
    }
  }

  /** Exactly these UUIDs come back as they were: 128-bit ones, and 16-bit ones other than zero. */
  lemma UuidRoundTripIff(u: Uuid)
    requires match u
             case Uuid16(v) => v <= 0xffff
             case Uuid32(v) => v <= 0xffff_ffff
             case Uuid128(v) => |v| == VALUE_LEN
    ensures UuidOf(CreateUuid(u)) == Ok(u) <==> u.Uuid128? || (u.Uuid16? && u.short > 0)
    ensures u.Uuid32? ==>
              UuidOf(CreateUuid(u)) == if 1 <= u.medium <= 0xffff then Ok(Uuid16(u.medium)) else Err(SysErange)
  {
    if u.Uuid128? {
      PrintRoundTrip(u.value);
    }
  }

  /** Which numbers are read, and that printing the result gives the same number again. */
  lemma NumberRoundTrip(v: int)
    ensures UuidOf(Numeral(v)).Ok? <==> 1 <= v <= 0xffff
    ensures UuidOf(Numeral(v)).Ok? ==> CreateUuid(UuidOf(Numeral(v)).value) == Numeral(v)
    ensures v >= 0 ==> CreateUuid(Uuid16(v)) == CreateUuid(Uuid32(v)) == Numeral(v)
  {
  }

  /** Two UUIDs are printed alike only if they are the same, or the same number in 16 and 32 bits. */
  lemma PrintedAlikeIff(u: Uuid, w: Uuid)
    requires (u.Uuid128? ==> |u.value| == VALUE_LEN) && (w.Uuid128? ==> |w.value| == VALUE_LEN)
    ensures CreateUuid(u) == CreateUuid(w) <==>
              || u == w
              || (u.Uuid16? && w.Uuid32? && u.short == w.medium)
              || (u.Uuid32? && w.Uuid16? && u.medium == w.short)
  {
    if u.Uuid128? && w.Uuid128? {
      PrintRoundTrip(u.value);
      PrintRoundTrip(w.value);
    }
  }

  // ----- what else is accepted

  function Lower(c: char): char {
    if 'A' <= c <= 'F' then (c as int + 32) as char else c
  }

  /** Two digits read as their value; printing that value gives the digits back, in lower case. */
  lemma DigitPair(a: char, b: char)
    requires IsHex(a) && IsHex(b)
    ensures Hex2(PairByte(a, b)) == [Lower(a), Lower(b)]
  {
    DigitPrinted(a);
    DigitPrinted(b);
  }

  lemma DigitPrinted(c: char)
    requires IsHex(c)
    ensures HexDigit(DigitValue(c)) == Lower(c)
  {
  }

  /** 36 characters, dashes in place and digits elsewhere. */
  predicate Canonical(s: string) {
    |s| == TEXT_LEN && forall k :: 0 <= k < TEXT_LEN ==> if IsDash(k) then s[k] == '-' else IsHex(s[k])
  }

  lemma CanonicalPair(s: string, j: nat)
    requires Canonical(s) && j < VALUE_LEN
    ensures PairOkAt(s, j)
    ensures Hex2(PairByteAt(s, j)) == [Lower(s[PairAt(j)]), Lower(s[PairAt(j) + 1])]
  {
    var i := PairAt(j);
    assert IsHex(s[i]) && IsHex(s[i + 1]);
    DigitPair(s[i], s[i + 1]);
  }

  lemma CanonicalAccepted(s: string)
    requires Canonical(s)
    ensures UuidText(s)
  {
    forall j | 0 <= j < VALUE_LEN
      ensures PairOkAt(s, j)
    {
      CanonicalPair(s, j);
    }
    assert IsDash(8) && IsDash(13) && IsDash(18) && IsDash(23);
  }

  /** Which pair a digit of the text belongs to. */
  lemma PairOfDigit(i: nat)
    requires i < TEXT_LEN && !IsDash(i)
    ensures var n := i - DashesBefore(i); 0 <= n < 32 && i == PairAt(n / 2) + n % 2
  {
  }

  /** The other direction: the value of a canonical text prints as the same text in lower case. */
  lemma ParseThenPrint(s: string, i: nat)
    requires Canonical(s) && i < TEXT_LEN
    ensures UuidText(s) && UuidPrint(UuidValue(s))[i] == Lower(s[i])
  {
    CanonicalAccepted(s);
    var v := UuidValue(s);
    if !IsDash(i) {
      PairOfDigit(i);
      var j := (i - DashesBefore(i)) / 2;
      CanonicalPair(s, j);
      assert v[15 - j] == PairByteAt(s, j);
      assert UuidPrint(v)[i] == UuidChar(v, i);
    }
  }

  /** A minus sign in front of the last digit of a printed UUID. */
  function Signed(v: Bytes): (s: string)
    requires |v| == VALUE_LEN
    ensures |s| == TEXT_LEN
  {
    UuidPrint(v)[34 := '-']
  }

  lemma SignedPair(v: Bytes, more: string, j: nat)
    requires |v| == VALUE_LEN && j < VALUE_LEN
    ensures PairOkAt(Signed(v) + more, j)
    ensures j == 15 ==> PairByteAt(Signed(v) + more, j) == (256 - v[0] as int % 16) % 256
  {
    var s, i := Signed(v) + more, PairAt(j);
    PrintedPair(v, j);
    Hex2Pair(v[15 - j]);
    var t := [UuidPrint(v)[i], UuidPrint(v)[i + 1]];
    assert t[0] == UuidPrint(v)[i] && t[1] == UuidPrint(v)[i + 1];
    assert s[i + 1] == UuidPrint(v)[i + 1];
    assert s[i] == if j == 15 then '-' else UuidPrint(v)[i];
  }

  /** Texts that are no UUIDs pass as well: a sign may stand for a digit, and characters may follow. */
  lemma SignAccepted(v: Bytes, more: string)
    requires |v| == VALUE_LEN
    ensures var s := Signed(v) + more;
            UuidText(s) && !Canonical(s) && UuidValue(s)[0] == (256 - v[0] as int % 16) % 256
  {
    PrintedDashes(v);
    var s := Signed(v) + more;
    forall j | 0 <= j < VALUE_LEN
      ensures PairOkAt(s, j)
    {
      SignedPair(v, more, j);
    }
    SignedPair(v, more, 15);
    assert s[34] == '-' && !IsDash(34);
  }
}
