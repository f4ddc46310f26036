/** The parts of the C library that the text codecs rely on: strtoul in base 16, and strtok. */
module CText {
  import opened Basics

  // ----- hexadecimal digits

  function HexDigit(n: nat): char
    requires n < 16
  {
    if n < 10 then ('0' as int + n) as char else ('a' as int + n - 10) as char
  }

  /** "%02x" */
  function Hex2(b: Byte): (s: string)
    ensures |s| == 2
  {
    [HexDigit(b / 16), HexDigit(b % 16)]
  }

  /** The digits are those of lower case hexadecimal. */
  lemma Hex2Digits(b: Byte)
    ensures Hex2(b)[0] == "0123456789abcdef"[b / 16] && Hex2(b)[1] == "0123456789abcdef"[b % 16]
  {
  }

  predicate IsHex(c: char) {
    '0' <= c <= '9' || 'a' <= c <= 'f' || 'A' <= c <= 'F'
  }

  function DigitValue(c: char): (v: nat)
    requires IsHex(c)
    ensures v < 16
  {
    if c <= '9' then c as int - '0' as int
    else if c <= 'F' then c as int - 'A' as int + 10
    else c as int - 'a' as int + 10
  }

  /** The digits in both cases, and what they stand for. */
  lemma HexDigits(c: char)
    ensures IsHex(c) <==> c in "0123456789abcdefABCDEF"
    ensures forall v :: 0 <= v < 16 && (c == "0123456789abcdef"[v] || c == "0123456789ABCDEF"[v]) ==>
              IsHex(c) && DigitValue(c) == v
  {
  }

  lemma DigitRoundTrip(n: nat)
    requires n < 16
    ensures IsHex(HexDigit(n)) && DigitValue(HexDigit(n)) == n
    ensures HexDigit(n) !in ":-xX" && !IsSpace(HexDigit(n)) && HexDigit(n) != '+'
  {
  }

  predicate IsSpace(c: char) {
    c == ' ' || 9 <= c as int <= 13
  }

  // ----- strtoul(s, &end, 16)

  /** The largest unsigned long; values above 255 are told apart nowhere. */
  const ULONG_MAX: nat := 0xffff_ffff_ffff_ffff

  /** The number read, and how many characters were used up; none if there is no number. */
  datatype Number = Number(value: nat, end: nat)

  function SkipSpaces(s: string, i: nat): (j: nat)
    requires i <= |s|
    ensures i <= j <= |s|
    decreases |s| - i
  {
    if i < |s| && IsSpace(s[i]) then SkipSpaces(s, i + 1) else i
  }

  function SkipDigits(s: string, i: nat): (j: nat)
    requires i <= |s|
    ensures i <= j <= |s| && forall k :: i <= k < j ==> IsHex(s[k])
    decreases |s| - i
  {
    if i < |s| && IsHex(s[i]) then SkipDigits(s, i + 1) else i
  }

  /** The value of the digits from i up to j. */
  function DigitsValue(s: string, i: nat, j: nat): nat
    requires i <= j <= |s| && forall k :: i <= k < j ==> IsHex(s[k])
  {
    if i == j then 0 else DigitsValue(s, i, j - 1) * 16 + DigitValue(s[j - 1])
  }

  /** A prefix 0x counts only if a digit follows it. */
  function SkipPrefix(s: string, i: nat): (j: nat)
    requires i <= |s|
    ensures i <= j <= |s|
  {
    if i + 2 < |s| && s[i] == '0' && (s[i + 1] == 'x' || s[i + 1] == 'X') && IsHex(s[i + 2]) then i + 2 else i
  }

  function Strtoul16(s: string): (r: Number)
    ensures r.end <= |s| && r.value <= ULONG_MAX
  {
    var i := SkipSpaces(s, 0);
    var neg := i < |s| && s[i] == '-';
    var j := if i < |s| && (s[i] == '-' || s[i] == '+') then i + 1 else i;
    var d := SkipPrefix(s, j);
    var e := SkipDigits(s, d);
    if e == d then Number(0, 0)
    else
      var v := DigitsValue(s, d, e);
      if v > ULONG_MAX then Number(ULONG_MAX, e)
      else if neg && v > 0 then Number(ULONG_MAX + 1 - v, e)
      else Number(v, e)
  }

  /** "HH" and "0xHH" are read completely, as the byte that was printed. */
  lemma Hex2Read(b: Byte)
    ensures Strtoul16(Hex2(b)) == Number(b, 2)
    ensures Strtoul16("0x" + Hex2(b)) == Number(b, 4)
  {
    DigitRoundTrip(b / 16);
    DigitRoundTrip(b % 16);
    var s := Hex2(b);
    assert SkipSpaces(s, 0) == 0;
    assert SkipDigits(s, 2) == 2 && SkipDigits(s, 1) == 2 && SkipDigits(s, 0) == 2;
    assert DigitsValue(s, 0, 1) == b / 16;
    var t := "0x" + s;
    assert t[0] == '0' && t[1] == 'x' && t[2] == s[0] && t[3] == s[1];
    assert SkipSpaces(t, 0) == 0 && SkipPrefix(t, 0) == 2;
    assert SkipDigits(t, 4) == 4 && SkipDigits(t, 3) == 4 && SkipDigits(t, 2) == 4;
    assert DigitsValue(t, 2, 2) == 0;
    assert DigitsValue(t, 2, 3) == b / 16;
  }

  // ----- exactly what is read completely

  function HexValue(digits: string): nat
    requires AllHex(digits)
  {
    DigitsValue(digits, 0, |digits|)
  }

  predicate AllHex(s: string) {
    forall i :: 0 <= i < |s| ==> IsHex(s[i])
  }

  predicate AllSpaces(s: string) {
    forall i :: 0 <= i < |s| ==> IsSpace(s[i])
  }

  /** Spaces, a sign, a prefix and digits; all but the digits may be absent. */
  predicate Spelled(t: string, ws: string, sign: string, prefix: string, digits: string) {
    && t == ws + sign + prefix + digits
    && AllSpaces(ws) && (sign == "" || sign == "+" || sign == "-")
    && (prefix == "" || prefix == "0x" || prefix == "0X") && digits != "" && AllHex(digits)
  }

  lemma {:induction false} SpacesTo(t: string, i: nat, j: nat)
    requires i <= j <= |t| && (forall k :: i <= k < j ==> IsSpace(t[k])) && (j < |t| ==> !IsSpace(t[j]))
    ensures SkipSpaces(t, i) == j
    decreases j - i
  {
    if i < j {
      SpacesTo(t, i + 1, j);
    }
  }

  lemma {:induction false} DigitsTo(t: string, i: nat)
    requires i <= |t| && forall k :: i <= k < |t| ==> IsHex(t[k])
    ensures SkipDigits(t, i) == |t|
    decreases |t| - i
  {
    if i < |t| {
      DigitsTo(t, i + 1);
    }
  }

  lemma {:induction false} ValueShift(t: string, d: nat, e: nat)
    requires d <= e <= |t| && forall k :: d <= k < |t| ==> IsHex(t[k])
    ensures DigitsValue(t, d, e) == DigitsValue(t[d..], 0, e - d)
  {
    if d < e {
      ValueShift(t, d, e - 1);
      assert t[d..][e - 1 - d] == t[e - 1];
    }
  }

  lemma Parts(a: string, b: string)
    ensures (a + b)[..|a|] == a && (a + b)[|a|..] == b
  {
  }

  lemma FirstChar(sign: string, prefix: string, digits: string)
    requires Spelled(sign + prefix + digits, "", sign, prefix, digits)
    ensures var u := sign + (prefix + digits);
            && u != "" && !IsSpace(u[0])
            && (sign == "" <==> u[0] != '-' && u[0] != '+') && (sign == "-" <==> u[0] == '-')
  {
    if sign == "" {
      if prefix == "" {
        assert (sign + (prefix + digits))[0] == digits[0];
      } else {
        assert (sign + (prefix + digits))[0] == prefix[0];
      }
    } else {
      assert (sign + (prefix + digits))[0] == sign[0];
    }
  }

  lemma PrefixTo(t: string, j: nat, prefix: string, digits: string)
    requires j <= |t| && t[j..] == prefix + digits && digits != "" && AllHex(digits)
    requires prefix == "" || prefix == "0x" || prefix == "0X"
    ensures SkipPrefix(t, j) == j + |prefix|
  {
    var u := prefix + digits;
    assert t[j] == u[0] && (|u| > 1 ==> t[j + 1] == u[1]) && (|u| > 2 ==> t[j + 2] == u[2]);
    if prefix == "" {
      assert u[0] == digits[0] && (|digits| > 1 ==> u[1] == digits[1]);
    } else {
      assert u[0] == prefix[0] && u[1] == prefix[1] && u[2] == digits[0];
    }
  }

  /** The parts in the order in which they are skipped. */
  lemma SpelledParts(t: string, ws: string, sign: string, prefix: string, digits: string)
    requires Spelled(t, ws, sign, prefix, digits)
    ensures t[..|ws|] == ws && t[|ws|..] == sign + (prefix + digits)
    ensures t[|ws| + |sign|..] == prefix + digits && t[|ws| + |sign| + |prefix|..] == digits
    ensures Spelled(sign + prefix + digits, "", sign, prefix, digits)
  {
    Assoc(ws + sign, prefix, digits);
    Assoc(ws, sign, prefix + digits);
    Parts(ws, sign + (prefix + digits));
    Parts(ws + sign, prefix + digits);
    Parts(ws + sign + prefix, digits);
    assert "" + sign == sign;
  }

  lemma SkipsSpelled(t: string, ws: string, sign: string, prefix: string, digits: string)
    requires Spelled(t, ws, sign, prefix, digits)
    ensures SkipSpaces(t, 0) == |ws| < |t|
    ensures sign == "" <==> t[|ws|] != '-' && t[|ws|] != '+'
    ensures sign == "-" <==> t[|ws|] == '-'
    ensures SkipPrefix(t, |ws| + |sign|) == |ws| + |sign| + |prefix|
  {
    SpelledParts(t, ws, sign, prefix, digits);
    FirstChar(sign, prefix, digits);
    assert t[|ws|] == t[|ws|..][0];
    assert forall k :: 0 <= k < |ws| ==> t[k] == t[..|ws|][k];
    SpacesTo(t, 0, |ws|);
    PrefixTo(t, |ws| + |sign|, prefix, digits);
  }

  /** Such a text is read to its end; its value is that of the digits, negated in 64 bits after a minus. */
  lemma SpelledRead(t: string, ws: string, sign: string, prefix: string, digits: string)
    requires Spelled(t, ws, sign, prefix, digits)
    ensures Strtoul16(t).end == |t|
    ensures var v := HexValue(digits);
            Strtoul16(t).value
              == if v > ULONG_MAX then ULONG_MAX else if sign == "-" && v > 0 then ULONG_MAX + 1 - v else v
  {
    SkipsSpelled(t, ws, sign, prefix, digits);
    var i, d := |ws|, |ws| + |sign| + |prefix|;
    SpelledDigits(t, ws, sign, prefix, digits, d);
    StrtoulBy(t, i, i + |sign|, d, sign, HexValue(digits));
  }

  lemma SpelledDigits(t: string, ws: string, sign: string, prefix: string, digits: string, d: nat)
    requires Spelled(t, ws, sign, prefix, digits) && d == |ws| + |sign| + |prefix|
    ensures d < |t| && SkipDigits(t, d) == |t| && DigitsValue(t, d, |t|) == HexValue(digits)
  {
    SpelledParts(t, ws, sign, prefix, digits);
    DigitsPart(t, d, digits);
  }

  lemma DigitsPart(t: string, d: nat, digits: string)
    requires d <= |t| && t[d..] == digits && AllHex(digits)
    ensures SkipDigits(t, d) == |t| && DigitsValue(t, d, |t|) == HexValue(digits)
  {
    assert forall k :: d <= k < |t| ==> t[k] == t[d..][k - d];
    DigitsTo(t, d);
    ValueShift(t, d, |t|);
  }

  lemma StrtoulBy(t: string, i: nat, j: nat, d: nat, sign: string, v: nat)
    requires i < |t| && i == SkipSpaces(t, 0) && (sign == "" || sign == "+" || sign == "-") && j == i + |sign|
    requires (sign == "" <==> t[i] != '-' && t[i] != '+') && (sign == "-" <==> t[i] == '-')
    requires j <= |t| && d == SkipPrefix(t, j) && d < |t| == SkipDigits(t, d) && v == DigitsValue(t, d, |t|)
    ensures Strtoul16(t)
         == Number(if v > ULONG_MAX then ULONG_MAX else if sign == "-" && v > 0 then ULONG_MAX + 1 - v else v, |t|)
  {
  }

  lemma {:induction false} SkippedAreSpaces(t: string, i: nat)
    requires i <= |t|
    ensures forall k :: i <= k < SkipSpaces(t, i) ==> IsSpace(t[k])
    decreases |t| - i
  {
    if i < |t| && IsSpace(t[i]) {
      SkippedAreSpaces(t, i + 1);
    }
  }

  /** And no other text is. */
  lemma ReadIsSpelled(t: string) returns (ws: string, sign: string, prefix: string, digits: string)
    requires t != "" && Strtoul16(t).end == |t|
    ensures Spelled(t, ws, sign, prefix, digits)
  {
    var i := SkipSpaces(t, 0);
    SkippedAreSpaces(t, 0);
    var j := if i < |t| && (t[i] == '-' || t[i] == '+') then i + 1 else i;
    var d := SkipPrefix(t, j);
    ws, sign, prefix, digits := t[..i], t[i..j], t[j..d], t[d..];
    assert SkipDigits(t, d) == |t|;
    CutInFour(t, i, j, d);
    SignIs(t, i, j);
    PrefixIs(t, j, d);
  }

  lemma CutInFour(t: string, i: nat, j: nat, d: nat)
    requires i <= j <= d <= |t|
    ensures t == t[..i] + t[i..j] + t[j..d] + t[d..]
  {
    assert t[..j] == t[..i] + t[i..j];
    assert t[..d] == t[..j] + t[j..d];
  }

  lemma SignIs(t: string, i: nat, j: nat)
    requires i <= j <= |t| && (j == i || (j == i + 1 && (t[i] == '-' || t[i] == '+')))
    ensures t[i..j] == "" || t[i..j] == "+" || t[i..j] == "-"
  {
    assert j > i ==> t[i..j] == [t[i]];
  }

  lemma PrefixIs(t: string, j: nat, d: nat)
    requires j <= |t| && d == SkipPrefix(t, j)
    ensures t[j..d] == "" || t[j..d] == "0x" || t[j..d] == "0X"
  {
    assert d > j ==> t[j..d] == [t[j], t[j + 1]];
  }

  // ----- numbers of any length

  function Pow16(k: nat): nat {
    if k == 0 then 1 else 16 * Pow16(k - 1)
  }

  /** A number in k digits. */
  function HexNumber(n: nat, k: nat): (s: string)
    ensures |s| == k
  {
    if k == 0 then "" else HexNumber(n / 16, k - 1) + [HexDigit(n % 16)]
  }

  lemma {:induction false} ValuePrefix(s: string, c: char, e: nat)
    requires AllHex(s) && IsHex(c) && e <= |s|
    ensures DigitsValue(s + [c], 0, e) == DigitsValue(s, 0, e)
  {
    if e > 0 {
      ValuePrefix(s, c, e - 1);
    }
  }

  /** Digits are positional, leading zeros included. */
  lemma {:induction false} HexNumberRead(n: nat, k: nat)
    requires n < Pow16(k)
    ensures AllHex(HexNumber(n, k)) && HexValue(HexNumber(n, k)) == n
  {
    if k > 0 {
      HexNumberRead(n / 16, k - 1);
      DigitRoundTrip(n % 16);
      ValuePrefix(HexNumber(n / 16, k - 1), HexDigit(n % 16), k - 1);
    }
  }

  // ----- strtok

  /** How many characters at the front are not delimiters. */
  function Span(s: string, delims: string): (n: nat)
    ensures n <= |s| && (forall i :: 0 <= i < n ==> s[i] !in delims)
    ensures n < |s| ==> s[n] in delims
  {
    if s == "" || s[0] in delims then 0 else 1 + Span(s[1..], delims)
  }

  /** The maximal stretches without delimiters: what repeated calls return. */
  function Tokens(s: string, delims: string): seq<string>
    decreases |s|
  {
    if s == "" then []
    else if s[0] in delims then Tokens(s[1..], delims)
    else [s[..Span(s, delims)]] + Tokens(s[Span(s, delims)..], delims)
  }

  lemma SpanIs(s: string, delims: string, n: nat)
    requires n <= |s| && (forall i :: 0 <= i < n ==> s[i] !in delims) && (n < |s| ==> s[n] in delims)
    ensures Span(s, delims) == n
  {
  }

  /** A delimiter separates: what stands before it and behind it is split independently. */
  lemma {:induction false} TokensSplit(a: string, c: char, b: string, delims: string)
    requires c in delims
    ensures Tokens(a + [c] + b, delims) == Tokens(a, delims) + Tokens(b, delims)
    decreases |a|
  {
    var s := a + [c] + b;
    if a == "" {
      assert s[1..] == b;
      assert Tokens(a, delims) == [];
    } else if a[0] in delims {
      assert s[1..] == a[1..] + [c] + b;
      TokensSplit(a[1..], c, b, delims);
    } else {
      var n := Span(a, delims);
      SpanIs(s, delims, n);
      assert s[..n] == a[..n];
      assert s[n..] == a[n..] + [c] + b;
      TokensSplit(a[n..], c, b, delims);
      assert [a[..n]] + Tokens(a[n..], delims) + Tokens(b, delims)
          == [a[..n]] + (Tokens(a[n..], delims) + Tokens(b, delims));
    }
  }

  predicate AllDelims(x: string, delims: string) {
    forall i :: 0 <= i < |x| ==> x[i] in delims
  }

  lemma {:induction false} DelimsOnly(x: string, b: string, delims: string)
    requires AllDelims(x, delims)
    ensures Tokens(x + b, delims) == Tokens(b, delims)
  {
    if x == "" {
      assert x + b == b;
    } else {
      assert (x + b)[1..] == x[1..] + b;
      DelimsOnly(x[1..], b, delims);
    }
  }

  /** Any number of delimiters separates like one. */
  lemma DelimsSeparate(a: string, x: string, b: string, delims: string)
    requires x != "" && AllDelims(x, delims)
    ensures Tokens(a + x + b, delims) == Tokens(a, delims) + Tokens(b, delims)
  {
    assert a + x + b == a + [x[0]] + (x[1..] + b);
    TokensSplit(a, x[0], x[1..] + b, delims);
    DelimsOnly(x[1..], b, delims);
  }

  /** Delimiters in front and behind make no difference. */
  lemma DelimsAround(x: string, a: string, y: string, delims: string)
    requires AllDelims(x, delims) && AllDelims(y, delims)
    ensures Tokens(x + a + y, delims) == Tokens(a, delims)
  {
    assert x + a + y == x + (a + y);
    DelimsOnly(x, a + y, delims);
    if y == "" {
      assert a + y == a;
    } else {
      DelimsSeparate(a, y, "", delims);
      assert a + y + "" == a + y && Tokens("", delims) == [];
    }
  }

  /** One call of strtok. */
  method Strtok(s: string, delims: string) returns (token: Option<string>, rest: string)
    ensures token.None? ==> Tokens(s, delims) == []
    ensures token.Some? ==> |rest| < |s| && Tokens(s, delims) == [token.value] + Tokens(rest, delims)
  {
    var i := 0;
    while i < |s| && s[i] in delims
      invariant i <= |s| && Tokens(s[i..], delims) == Tokens(s, delims)
    {
      assert s[i..][1..] == s[i + 1..];
      i := i + 1;
    }
    var u := s[i..];
    if u == "" {
      return None, "";
    }
    var n := 1;
    while n < |u| && u[n] !in delims
      invariant 1 <= n <= |u| && forall k :: 0 <= k < n ==> u[k] !in delims
    {
      n := n + 1;
    }
    SpanIs(u, delims, n);
    return Some(u[..n]), u[n..];
  }
}
