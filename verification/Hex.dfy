// The hexadecimal codec of the TypeScript packages.
module Hex {
  import opened Bytes
  import opened Outcome

  predicate IsHexDigit(c: char) {
    '0' <= c <= '9' || 'a' <= c <= 'f' || 'A' <= c <= 'F'
  }

  predicate AllHex(s: string) {
    forall i :: 0 <= i < |s| ==> IsHexDigit(s[i])
  }

  function DigitValue(c: char): (v: nat)
    requires IsHexDigit(c)
    ensures v < 16
  {
    if '0' <= c <= '9' then c as int - '0' as int
    else if 'a' <= c <= 'f' then c as int - 'a' as int + 10
    else c as int - 'A' as int + 10
  }

  // The lower-case digit that `toString(16)` prints.
  function Digit(v: nat): char
    requires v < 16
  {
    if v < 10 then ('0' as int + v) as char else ('a' as int + v - 10) as char
  }

  function ToLower(c: char): char {
    if 'A' <= c <= 'F' then (c as int - 'A' as int + 'a' as int) as char else c
  }

  function Lower(s: string): (t: string)
    ensures |t| == |s|
  {
    if s == [] then [] else [ToLower(s[0])] + Lower(s[1..])
  }

  // The digits in order, in both cases.
  lemma DigitTable(v: nat)
    requires v < 16
    ensures var lower, upper := "0123456789abcdef", "0123456789ABCDEF";
            && Digit(v) == lower[v] && IsHexDigit(lower[v]) && IsHexDigit(upper[v])
            && DigitValue(lower[v]) == v && DigitValue(upper[v]) == v && ToLower(upper[v]) == lower[v]
  {
  }

  lemma ValueOfDigit(v: nat)
    requires v < 16
    ensures IsHexDigit(Digit(v)) && DigitValue(Digit(v)) == v
  {
  }

  // Two lower-case digits for each byte.
  function HexBody(b: Bytes): (s: string)
    ensures |s| == 2 * |b|
  {
    if b == [] then [] else [Digit(b[0] / 16), Digit(b[0] % 16)] + HexBody(b[1..])
  }

  function BytesToHex(b: Bytes): string {
    "0x" + HexBody(b)
  }

  function StripPrefix(hex: string): string {
    if "0x" <= hex then hex[2..] else hex
  }

  // 0x followed by exactly n hex digits.
  predicate HexString(s: string, n: nat) {
    "0x" <= s && |s| == 2 + n && AllHex(StripPrefix(s))
  }

  // The byte spelled by digits 2 * i and 2 * i + 1.
  function Pair(s: string, i: nat): Byte
    requires AllHex(s) && 2 * i + 1 < |s|
  {
    16 * DigitValue(s[2 * i]) + DigitValue(s[2 * i + 1])
  }

  function Decode(s: string): (b: Bytes)
    requires AllHex(s) && |s| % 2 == 0
    ensures |b| == |s| / 2 && forall i :: 0 <= i < |b| ==> b[i] == Pair(s, i)
  {
    seq(|s| / 2, i requires 0 <= i < |s| / 2 => Pair(s, i))
  }

  // ----- Number.parseInt with radix 16, section 19.2.5 of ECMA-262

  // White space and line terminators.
  predicate IsSpace(c: char) {
    || '\U{0009}' <= c <= '\U{000D}' || c == ' ' || c == '\U{00A0}' || c == '\U{1680}' || '\U{2000}' <= c <= '\U{200A}'
    || c == '\U{2028}' || c == '\U{2029}' || c == '\U{202F}' || c == '\U{205F}' || c == '\U{3000}' || c == '\U{FEFF}'
  }

  lemma SpacesAre(c: char)
    ensures IsSpace(c) <==>
              || c in ['\t', '\n', '\U{000B}', '\U{000C}', '\r', ' ', '\U{00A0}', '\U{1680}']
              || c in ['\U{2000}', '\U{2001}', '\U{2002}', '\U{2003}', '\U{2004}', '\U{2005}', '\U{2006}', '\U{2007}',
                       '\U{2008}', '\U{2009}', '\U{200A}']
              || c in ['\U{2028}', '\U{2029}', '\U{202F}', '\U{205F}', '\U{3000}', '\U{FEFF}']
  {
  }

  function TrimStart(s: string): string {
    if s != [] && IsSpace(s[0]) then TrimStart(s[1..]) else s
  }

  function UnsignedPart(s: string): string {
    if s != [] && (s[0] == '+' || s[0] == '-') then s[1..] else s
  }

  function WithoutRadix(s: string): string {
    if |s| >= 2 && s[0] == '0' && (s[1] == 'x' || s[1] == 'X') then s[2..] else s
  }

  // The digits at the front, up to the first other character.
  function LeadingDigits(s: string): (t: string)
    ensures AllHex(t)
  {
    if s != [] && IsHexDigit(s[0]) then [s[0]] + LeadingDigits(s[1..]) else []
  }

  function NumberOf(s: string): nat
    requires AllHex(s)
  {
    if s == [] then 0 else 16 * NumberOf(s[..|s| - 1]) + DigitValue(s[|s| - 1])
  }

  // None is NaN.
  function ParseInt(s: string): Option<int> {
    var t := TrimStart(s);
    var digits := LeadingDigits(WithoutRadix(UnsignedPart(t)));
    if digits == [] then None
    else Some(if t != [] && t[0] == '-' then 0 - NumberOf(digits) else NumberOf(digits))
  }

  // What a byte array stores for a number: NaN as 0, others modulo 256.
  function ToUint8(n: Option<int>): Byte {
    match n
    case None => 0
    case Some(v) => v % 256
  }

  function StoredPair(s: string, i: nat): Byte
    requires 2 * i + 1 < |s|
  {
    ToUint8(ParseInt(s[2 * i..2 * i + 2]))
  }

  // None is the odd-length exception; no character is refused.
  method HexToBytes(hex: string) returns (r: Option<array<Byte>>)
    ensures r.None? <==> |StripPrefix(hex)| % 2 != 0
    ensures r.Some? ==>
              fresh(r.value) && r.value.Length == |StripPrefix(hex)| / 2
              && forall i :: 0 <= i < r.value.Length ==> r.value[i] == StoredPair(StripPrefix(hex), i)
    ensures r.Some? && AllHex(StripPrefix(hex)) ==> r.value[..] == Decode(StripPrefix(hex))
  {
    var clean := StripPrefix(hex);
    if |clean| % 2 != 0 {
      return None;
    }
    var bytes := new Byte[|clean| / 2];
    var i := 0;
    while i < |clean|
      invariant 0 <= i <= |clean| && i % 2 == 0
      invariant forall k :: 0 <= k < i / 2 ==> bytes[k] == StoredPair(clean, k)
    {
      bytes[i / 2] := ToUint8(ParseInt(clean[i..i + 2]));
      i := i + 2;
    }
    if AllHex(clean) {
      StoredIsDecoded(clean, bytes[..]);
    }
    r := Some(bytes);
  }

  lemma StoredIsDecoded(s: string, b: Bytes)
    requires AllHex(s) && |s| == 2 * |b| && forall i :: 0 <= i < |b| ==> b[i] == StoredPair(s, i)
    ensures b == Decode(s)
  {
    forall i | 0 <= i < |b| ensures b[i] == Pair(s, i) {
      assert s[2 * i..2 * i + 2] == [s[2 * i], s[2 * i + 1]];
      StoredPairIs(s[2 * i], s[2 * i + 1]);
    }
  }

  // Two digits spell a byte; a digit before any other character stands alone,
  // as does one behind a space or a plus sign; behind a minus sign it is
  // subtracted from 256; without a digit there it is 0.
  function LooseByte(c: char, d: char): Byte {
    if IsHexDigit(c) then (if IsHexDigit(d) then 16 * DigitValue(c) + DigitValue(d) else DigitValue(c))
    else if IsHexDigit(d) && c == '-' then (256 - DigitValue(d)) % 256
    else if IsHexDigit(d) && (IsSpace(c) || c == '+') then DigitValue(d)
    else 0
  }

  // The byte stored for two characters, whatever they are.
  lemma StoredPairIs(c: char, d: char)
    ensures ToUint8(ParseInt([c, d])) == LooseByte(c, d)
  {
    if IsSpace(c) {
      ParseAfterSpace(c, d);
    } else if c == '+' || c == '-' {
      ParseAfterSign(c, d);
    } else {
      ParseUnsigned(c, d);
    }
  }

  lemma ParseAfterSpace(c: char, d: char)
    requires IsSpace(c)
    ensures ToUint8(ParseInt([c, d])) == LooseByte(c, d)
  {
    assert [c, d][1..] == [d] && [d][1..] == [];
    assert TrimStart([c, d]) == TrimStart([d]) == if IsSpace(d) then [] else [d];
    DigitsOfOne(d);
    if IsHexDigit(d) {
      assert ParseInt([c, d]) == Some(DigitValue(d));
      StoredDigit(DigitValue(d));
    } else {
      assert ParseInt([c, d]) == None;
    }
  }

  lemma ParseAfterSign(c: char, d: char)
    requires c == '+' || c == '-'
    ensures ToUint8(ParseInt([c, d])) == LooseByte(c, d)
  {
    assert TrimStart([c, d]) == [c, d] && [c, d][1..] == [d];
    DigitsOfOne(d);
    if IsHexDigit(d) {
      assert ParseInt([c, d]) == Some(if c == '-' then 0 - DigitValue(d) else DigitValue(d));
      StoredDigit(DigitValue(d));
    } else {
      assert ParseInt([c, d]) == None;
    }
  }

  lemma StoredDigit(v: nat)
    requires v < 16
    ensures ToUint8(Some(v)) == v && ToUint8(Some(0 - v)) == (256 - v) % 256
  {
  }

  lemma ParseUnsigned(c: char, d: char)
    requires !IsSpace(c) && c != '+' && c != '-'
    ensures ToUint8(ParseInt([c, d])) == LooseByte(c, d)
  {
    UnsignedValue(c, d);
    if IsHexDigit(c) {
      StoredSmall(if IsHexDigit(d) then 16 * DigitValue(c) + DigitValue(d) else DigitValue(c));
    }
  }

  lemma UnsignedValue(c: char, d: char)
    requires !IsSpace(c) && c != '+' && c != '-'
    ensures ParseInt([c, d])
         == if !IsHexDigit(c) || (c == '0' && (d == 'x' || d == 'X')) then None
            else Some(if IsHexDigit(d) then 16 * DigitValue(c) + DigitValue(d) else DigitValue(c))
  {
    assert TrimStart([c, d]) == [c, d] && [c, d][2..] == [];
    DigitsOfTwo(c, d);
  }

  lemma StoredSmall(v: nat)
    requires v < 256
    ensures ToUint8(Some(v)) == v
  {
  }

  lemma DigitsOfOne(d: char)
    ensures LeadingDigits([d]) == if IsHexDigit(d) then [d] else []
    ensures IsHexDigit(d) ==> NumberOf([d]) == DigitValue(d)
  {
    assert [d][1..] == [] && [d][..0] == [];
  }

  lemma DigitsOfTwo(c: char, d: char)
    ensures LeadingDigits([c, d]) == if !IsHexDigit(c) then [] else if IsHexDigit(d) then [c, d] else [c]
    ensures IsHexDigit(c) && IsHexDigit(d) ==> NumberOf([c, d]) == 16 * DigitValue(c) + DigitValue(d)
    ensures IsHexDigit(c) ==> NumberOf([c]) == DigitValue(c)
  {
    assert [c, d][1..] == [d] && [c, d][..1] == [c];
    DigitsOfOne(c);
    DigitsOfOne(d);
  }

  lemma {:induction false} HexBodyDecodes(b: Bytes)
    ensures AllHex(HexBody(b)) && Decode(HexBody(b)) == b
  {
    if b != [] {
      HexBodyDecodes(b[1..]);
      ValueOfDigit(b[0] / 16);
      ValueOfDigit(b[0] % 16);
      var s, t := HexBody(b), HexBody(b[1..]);
      assert forall i :: 2 <= i < |s| ==> s[i] == t[i - 2];
      forall i | 0 <= i < |b| ensures Pair(s, i) == b[i] {
        if i > 0 {
          assert Pair(s, i) == Pair(t, i - 1) == Decode(t)[i - 1];
        }
      }
    }
  }

  // Decoding undoes encoding, and encoding undoes decoding up to letter case.
  lemma EncodeDecode(b: Bytes)
    ensures AllHex(StripPrefix(BytesToHex(b))) && Decode(StripPrefix(BytesToHex(b))) == b
  {
    HexBodyDecodes(b);
    assert StripPrefix(BytesToHex(b)) == HexBody(b);
  }

  lemma SpelledBack(s: string)
    requires "0x" <= s && |s| % 2 == 0 && AllHex(StripPrefix(s))
    ensures BytesToHex(Decode(StripPrefix(s))) == Lower(s)
  {
    DecodeEncode(StripPrefix(s));
    LowerPrefix(s);
  }

  lemma LowerPrefix(s: string)
    requires "0x" <= s
    ensures Lower(s) == "0x" + Lower(s[2..])
  {
    assert s[1..][1..] == s[2..];
  }

  lemma {:induction false} DecodeEncode(s: string)
    requires AllHex(s) && |s| % 2 == 0
    ensures HexBody(Decode(s)) == Lower(s)
    ensures BytesToHex(Decode(s)) == "0x" + Lower(s)
  {
    if s != [] {
      DecodeEncode(s[2..]);
      DecodeTail(s);
      PairDigits(s[0], s[1]);
      LowerOfTwo(s);
    }
  }

  lemma LowerOfTwo(s: string)
    requires |s| >= 2
    ensures Lower(s) == [ToLower(s[0]), ToLower(s[1])] + Lower(s[2..])
  {
    var t := s[1..];
    assert t[0] == s[1] && t[1..] == s[2..];
    assert Lower(s) == [ToLower(s[0])] + Lower(t) && Lower(t) == [ToLower(t[0])] + Lower(t[1..]);
    Associate([ToLower(s[0])], [ToLower(s[1])], Lower(s[2..]));
    assert [ToLower(s[0])] + [ToLower(s[1])] == [ToLower(s[0]), ToLower(s[1])];
  }

  lemma DecodeTail(s: string)
    requires AllHex(s) && |s| % 2 == 0 && s != []
    ensures Decode(s)[0] == 16 * DigitValue(s[0]) + DigitValue(s[1])
    ensures Decode(s)[1..] == Decode(s[2..])
  {
  }

  lemma PairDigits(c: char, d: char)
    requires IsHexDigit(c) && IsHexDigit(d)
    ensures var v := 16 * DigitValue(c) + DigitValue(d);
            v < 256 && Digit(v / 16) == ToLower(c) && Digit(v % 16) == ToLower(d)
  {
  }

  // Two digit strings decode alike exactly when they differ in letter case only.
  lemma SameBytesExactly(s: string, t: string)
    requires AllHex(s) && AllHex(t) && |s| % 2 == 0 && |t| % 2 == 0
    ensures Decode(s) == Decode(t) <==> Lower(s) == Lower(t)
  {
    DecodeEncode(s);
    DecodeEncode(t);
    if Lower(s) == Lower(t) {
      HexBodyDecodes(Decode(s));
      HexBodyDecodes(Decode(t));
    }
  }
}
