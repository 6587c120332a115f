/** Hexadecimal text as the three components read and write it: the dispatcher's hexToBytes and
    bytesToHex, and the pool's Buffer encodings. */
module Hex {
  import opened Bytes

  datatype Format = LittleEndian | BigEndian

  predicate IsHex(c: char) {
    '0' <= c <= '9' || 'a' <= c <= 'f' || 'A' <= c <= 'F'
  }

  function DigitValue(c: char): (v: int)
    requires IsHex(c)
    ensures 0 <= v < 16
  {
    if c <= '9' then c as int - '0' as int
    else if c <= 'F' then c as int - 'A' as int + 10
    else c as int - 'a' as int + 10
  }

  /** The lower-case digit. */
  function DigitChar(v: int): (c: char)
    requires 0 <= v < 16
    ensures IsHex(c) && DigitValue(c) == v
  {
    if v < 10 then (v + '0' as int) as char else (v - 10 + 'a' as int) as char
  }

  function HexOfByte(b: byte): (s: string)
    ensures |s| == 2
  {
    [DigitChar(b / 16), DigitChar(b % 16)]
  }

  /** Two lower-case digits per byte, in order. */
  function HexOf(b: seq<byte>): (s: string)
    ensures |s| == 2 * |b|
  {
    if b == [] then [] else HexOfByte(b[0]) + HexOf(b[1..])
  }

  predicate AllHex(s: string) {
    forall i :: 0 <= i < |s| ==> IsHex(s[i])
  }

  /** Buffer.from(s, 'hex'): whole pairs up to the first pair that is not hexadecimal. */
  function JsDecode(s: string): (b: seq<byte>)
    ensures |b| <= |s| / 2
  {
    if |s| < 2 || !IsHex(s[0]) || !IsHex(s[1]) then []
    else [16 * DigitValue(s[0]) + DigitValue(s[1])] + JsDecode(s[2..])
  }

  predicate IsSpace(c: char) {
    c == ' ' || 9 <= c as int <= 13
  }

  /** Blank, tab, line feed, vertical tab, form feed and carriage return. */
  lemma SpacesAre(c: char)
    ensures IsSpace(c) <==> c in " \t\n\U{0B}\U{0C}\r"
  {
    var s := " \t\n\U{0B}\U{0C}\r";
    assert s[0] == 32 as char && s[1] == 9 as char && s[2] == 10 as char && s[3] == 11 as char && s[4] == 12 as char && s[5] == 13 as char;
  }

  /** strtol(base 16) of a two-character string, cast to a byte. */
  function Strtol(c: char, d: char): byte {
    if IsHex(c) then
      if IsHex(d) then 16 * DigitValue(c) + DigitValue(d) else DigitValue(c)
    else if !IsHex(d) then 0
    else if IsSpace(c) || c == '+' then DigitValue(d)
    else if c == '-' then (256 - DigitValue(d)) % 256
    else 0
  }

  // strtol in base 16 on any string: white space, a sign, an optional 0x before a digit, digits.

  function SkipSpaces(s: string): string {
    if s != [] && IsSpace(s[0]) then SkipSpaces(s[1..]) else s
  }

  function LeadingDigits(s: string): string {
    if s != [] && IsHex(s[0]) then [s[0]] + LeadingDigits(s[1..]) else []
  }

  function DigitsValue(s: string): nat {
    if s == [] || !IsHex(s[|s| - 1]) then 0 else 16 * DigitsValue(s[..|s| - 1]) + DigitValue(s[|s| - 1])
  }

  function Unprefixed(s: string): string {
    if |s| > 2 && s[0] == '0' && (s[1] == 'x' || s[1] == 'X') && IsHex(s[2]) then s[2..] else s
  }

  function Number16(s: string): int {
    var t := SkipSpaces(s);
    var u := if t != [] && (t[0] == '+' || t[0] == '-') then t[1..] else t;
    var v: int := DigitsValue(LeadingDigits(Unprefixed(u)));
    if t != [] && t[0] == '-' then -v else v
  }

  /** The two-character case is the general one, modulo 256. */
  lemma StrtolIsNumber(c: char, d: char)
    ensures Strtol(c, d) == Number16([c, d]) % 256
  {
    hide Number16, Strtol, IsHex, IsSpace;
    if IsHex(c) { DigitFirst(c, d); } else if IsSpace(c) { SpaceFirst(c, d); } else { OtherFirst(c, d); }
  }

  lemma DigitFirst(c: char, d: char)
    requires IsHex(c)
    ensures Strtol(c, d) == Number16([c, d]) % 256
  {
    var s := [c, d];
    OneDigit(c);
    OneDigit(d);
    SignsAreNoDigits(c);
    hide DigitValue, IsHex, IsSpace;
    assert s[1..] == [d] && s[..1] == [c];
    assert SkipSpaces(s) == s && Unprefixed(s) == s;
    assert LeadingDigits(s) == [c] + LeadingDigits([d]);
    if IsHex(d) { assert DigitsValue(s) == 16 * DigitsValue([c]) + DigitValue(d); }
  }

  lemma SpaceFirst(c: char, d: char)
    requires IsSpace(c)
    ensures Strtol(c, d) == Number16([c, d]) % 256
  {
    SpacesFirst(c, d);
    OneDigit(d);
    SignsAreNoDigits(c);
    SignsAreNoDigits(d);
    hide DigitValue, IsHex, IsSpace, SkipSpaces, LeadingDigits, DigitsValue;
    NothingRead();
    assert [d][1..] == [];
  }

  lemma OtherFirst(c: char, d: char)
    requires !IsHex(c) && !IsSpace(c)
    ensures Strtol(c, d) == Number16([c, d]) % 256
  {
    var s := [c, d];
    OneDigit(d);
    NothingRead();
    assert s[1..] == [d];
    assert SkipSpaces(s) == s && LeadingDigits(s) == [];
    hide DigitValue, IsHex, IsSpace, SkipSpaces, LeadingDigits, DigitsValue;
  }

  lemma NothingRead()
    ensures LeadingDigits([]) == [] && DigitsValue([]) == 0
  {
  }

  lemma SpacesFirst(c: char, d: char)
    requires IsSpace(c)
    ensures SkipSpaces([c, d]) == if IsSpace(d) then [] else [d]
  {
    assert [c, d][1..] == [d] && [d][1..] == [];
    assert SkipSpaces([c, d]) == SkipSpaces([d]);
  }

  lemma SignsAreNoDigits(c: char)
    ensures IsHex(c) ==> !IsSpace(c) && c != '+' && c != '-'
  {
  }

  lemma OneDigit(c: char)
    ensures LeadingDigits([c]) == if IsHex(c) then [c] else []
    ensures DigitsValue([c]) == if IsHex(c) then DigitValue(c) else 0
    ensures DigitsValue([]) == 0 && (IsHex(c) ==> 0 <= DigitValue(c) < 16)
  {
    assert [c][1..] == [] && [c][..0] == [];
  }

  /** hexToBytes before its optional reversal: every pair gives a byte, an odd last character none. */
  function CppDecode(s: string): (b: seq<byte>)
    ensures |b| == |s| / 2
  {
    if |s| < 2 then [] else [Strtol(s[0], s[1])] + CppDecode(s[2..])
  }

  function Reversed(b: seq<byte>): (r: seq<byte>)
    ensures |r| == |b|
  {
    seq(|b|, i requires 0 <= i < |b| => b[|b| - 1 - i])
  }

  function Ordered(b: seq<byte>, f: Format): (r: seq<byte>)
    ensures |r| == |b|
  {
    if f.LittleEndian? then Reversed(b) else b
  }

  // ----- Round trips -----

  /** Both decoders read back what either side writes. */
  lemma {:induction false} DecodeHexOf(b: seq<byte>)
    ensures JsDecode(HexOf(b)) == b && CppDecode(HexOf(b)) == b && AllHex(HexOf(b))
  {
    if b != [] {
      DecodeHexOf(b[1..]);
      assert HexOf(b)[2..] == HexOf(b[1..]);
    }
  }

  lemma AllHexStep(s: string, n: nat)
    requires 2 <= n <= |s|
    ensures AllHex(s[..n]) <==> IsHex(s[0]) && IsHex(s[1]) && AllHex(s[2..][..n - 2])
  {
    hide IsHex;
    var a, b := s[..n], s[2..][..n - 2];
    assert a[0] == s[0] && a[1] == s[1];
    assert forall i :: 0 <= i < n - 2 ==> b[i] == a[i + 2];
    assert forall i :: 2 <= i < n ==> a[i] == b[i - 2];
  }

  /** The pool and the dispatcher read a string alike exactly when every whole pair is hexadecimal. */
  lemma {:induction false} DecodersAgree(s: string)
    ensures CppDecode(s) == JsDecode(s) <==> AllHex(s[..|s| / 2 * 2])
    decreases |s|
  {
    if |s| >= 2 {
      AllHexStep(s, |s| / 2 * 2);
      DecodersAgree(s[2..]);
      FirstPair(s);
      hide AllHex, IsHex, CppDecode, JsDecode, Strtol;
      if IsHex(s[0]) && IsHex(s[1]) {
        assert CppDecode(s)[1..] == CppDecode(s[2..]) && JsDecode(s)[1..] == JsDecode(s[2..]);
      }
    }
  }

  lemma FirstPair(s: string)
    requires |s| >= 2
    ensures CppDecode(s) == [Strtol(s[0], s[1])] + CppDecode(s[2..])
    ensures JsDecode(s) == if IsHex(s[0]) && IsHex(s[1]) then [Strtol(s[0], s[1])] + JsDecode(s[2..]) else []
  {
    hide IsHex, DigitValue;
  }

  // ----- hexToBytes and bytesToHex -----

  lemma NextPair(s: string, i: nat)
    requires i + 2 <= |s|
    ensures CppDecode(s[i..]) == [Strtol(s[i], s[i + 1])] + CppDecode(s[i + 2..])
  {
    assert s[i..][2..] == s[i + 2..];
  }

  lemma Regrouped(b: seq<byte>, x: byte, rest: seq<byte>)
    ensures b + ([x] + rest) == b + [x] + rest
  {
  }

  method HexToBytes(hex: string, f: Format) returns (b: seq<byte>)
    ensures b == Ordered(CppDecode(hex), f)
  {
    hide CppDecode, Strtol;
    var full := 2 * (|hex| / 2);
    b := [];
    var i := 0;
    ghost var h := 0;
    assert hex[0..] == hex;
    while i < full
      invariant i == 2 * h && h <= |hex| / 2
      invariant b + CppDecode(hex[i..]) == CppDecode(hex)
    {
      NextPair(hex, i);
      Regrouped(b, Strtol(hex[i], hex[i + 1]), CppDecode(hex[i + 2..]));
      b := b + [Strtol(hex[i], hex[i + 1])];
      i := i + 2;
      h := h + 1;
    }
    if f.LittleEndian? { b := ReverseBytes(b); }
  }

  /** reverseBuffer, and std::reverse on a copy. */
  method ReverseBytes(b: seq<byte>) returns (r: seq<byte>)
    ensures r == Reversed(b)
  {
    var out := new byte[|b|];
    var i := |b| - 1;
    while i >= 0
      invariant -1 <= i < |b|
      invariant forall k :: 0 <= k < |b| - 1 - i ==> out[k] == b[|b| - 1 - k]
    {
      out[|b| - i - 1] := b[i];
      i := i - 1;
    }
    r := out[..];
  }

  method BytesToHex(b: seq<byte>, f: Format) returns (s: string)
    ensures s == HexOf(Ordered(b, f))
  {
    hide HexOf, HexOfByte;
    s := "";
    ghost var c := Ordered(b, f);
    assert c[0..] == c;
    for k := 0 to |b|
      invariant s + HexOf(c[k..]) == HexOf(c)
    {
      HexStep(c, k);
      var x: byte;
      if f.BigEndian? { x := b[k]; } else { x := b[|b| - 1 - k]; }
      assert s + HexOfByte(x) + HexOf(c[k + 1..]) == s + (HexOfByte(x) + HexOf(c[k + 1..]));
      s := s + HexOfByte(x);
    }
  }

  lemma HexStep(c: seq<byte>, k: nat)
    requires k < |c|
    ensures HexOf(c[k..]) == HexOfByte(c[k]) + HexOf(c[k + 1..])
  {
    assert c[k..][1..] == c[k + 1..];
  }

  /** What bytesToHex writes, hexToBytes with the same byte order reads back. */
  lemma HexRoundTrip(b: seq<byte>, f: Format)
    ensures Ordered(CppDecode(HexOf(Ordered(b, f))), f) == b
  {
    DecodeHexOf(Ordered(b, f));
    assert Reversed(Reversed(b)) == b;
  }

  /** Different byte strings of one length have different hexadecimal texts. */
  lemma HexInjective(a: seq<byte>, b: seq<byte>)
    requires HexOf(a) == HexOf(b)
    ensures a == b
  {
    DecodeHexOf(a);
    DecodeHexOf(b);
  }
}
