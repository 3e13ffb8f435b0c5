// Well-formed UTF-8, by the byte table of section 4 of RFC 3629: what the
// bytes of a Rust string are.
module Utf8 {
  import opened Bytes

  predicate IsTail(b: Byte) {
    0x80 <= b <= 0xBF
  }

  // The bytes that may follow a lead byte: some leads narrow the range.
  predicate FollowsLead(lead: Byte, b: Byte) {
    && IsTail(b)
    && (lead == 0xE0 ==> 0xA0 <= b)
    && (lead == 0xED ==> b <= 0x9F)
    && (lead == 0xF0 ==> 0x90 <= b)
    && (lead == 0xF4 ==> b <= 0x8F)
  }

  // The number of bytes of a character with this lead, 0 if there is none.
  function WidthOf(lead: Byte): (n: nat)
    ensures n <= 4
  {
    if lead <= 0x7F then 1
    else if 0xC2 <= lead <= 0xDF then 2
    else if 0xE0 <= lead <= 0xEF then 3
    else if 0xF0 <= lead <= 0xF4 then 4
    else 0
  }

  // A character stands at the front.
  predicate CharAtFront(s: Bytes) {
    s != []
    && var n := WidthOf(s[0]);
       && 0 < n <= |s|
       && (n >= 2 ==> FollowsLead(s[0], s[1]))
       && forall i :: 2 <= i < n ==> IsTail(s[i])
  }

  predicate WellFormed(s: Bytes) {
    s == [] || (CharAtFront(s) && WellFormed(s[WidthOf(s[0])..]))
  }

  // ----- The characters behind the bytes

  // A code point a string can hold: no surrogate.
  predicate Scalar(c: nat) {
    c < 0xD800 || 0xE000 <= c <= 0x10FFFF
  }

  // The encoding of section 3 of RFC 3629: six bits to a continuation byte, in
  // the fewest bytes that hold the number.
  function Encoded(c: nat): (b: Bytes)
    requires Scalar(c)
    ensures b != []
  {
    if c < 0x80 then [c]
    else if c < 0x800 then [0xC0 + c / 0x40, 0x80 + c % 0x40]
    else if c < 0x1_0000 then [0xE0 + c / 0x40 / 0x40, 0x80 + c / 0x40 % 0x40, 0x80 + c % 0x40]
    else [0xF0 + c / 0x40 / 0x40 / 0x40, 0x80 + c / 0x40 / 0x40 % 0x40, 0x80 + c / 0x40 % 0x40, 0x80 + c % 0x40]
  }

  function EncodedAll(cs: seq<nat>): Bytes
    requires forall i :: 0 <= i < |cs| ==> Scalar(cs[i])
  {
    if cs == [] then [] else Encoded(cs[0]) + EncodedAll(cs[1..])
  }

  // The payload bits of the character at the front.
  function CharOf(s: Bytes): nat
    requires CharAtFront(s)
  {
    match WidthOf(s[0])
    case 1 => s[0]
    case 2 => Append6(s[0] as int - 0xC0, s[1])
    case 3 => Append6(Append6(s[0] as int - 0xE0, s[1]), s[2])
    case _ => Append6(Append6(Append6(s[0] as int - 0xF0, s[1]), s[2]), s[3])
  }

  function Append6(high: nat, b: Byte): (v: nat)
    requires IsTail(b)
    ensures v / 0x40 == high && 0x80 + v % 0x40 == b
    ensures 0x40 * high <= v < 0x40 * (high + 1)
  {
    0x40 * high + (b as int - 0x80)
  }

  lemma CharIsEncoded(s: Bytes)
    requires CharAtFront(s)
    ensures Scalar(CharOf(s)) && Encoded(CharOf(s)) == s[..WidthOf(s[0])]
  {
    match WidthOf(s[0])
    case 1 =>
    case 2 => TwoBytes(s[0], s[1]);
    case 3 => ThreeBytes(s[0], s[1], s[2]);
    case _ => FourBytes(s[0], s[1], s[2], s[3]);
  }

  lemma TwoBytes(a: Byte, b: Byte)
    requires WidthOf(a) == 2 && IsTail(b)
    ensures var c := Append6(a as int - 0xC0, b); Scalar(c) && Encoded(c) == [a, b]
  {
  }

  lemma ThreeBytes(a: Byte, b: Byte, d: Byte)
    requires WidthOf(a) == 3 && FollowsLead(a, b) && IsTail(d)
    ensures var c := Append6(Append6(a as int - 0xE0, b), d); Scalar(c) && Encoded(c) == [a, b, d]
  {
  }

  lemma FourBytes(a: Byte, b: Byte, d: Byte, e: Byte)
    requires WidthOf(a) == 4 && FollowsLead(a, b) && IsTail(d) && IsTail(e)
    ensures var c := Append6(Append6(Append6(a as int - 0xF0, b), d), e); Scalar(c) && Encoded(c) == [a, b, d, e]
  {
    var v := Append6(a as int - 0xF0, b);
    var w := Append6(v, d);
    assert 0x10 <= v < 0x110;
    assert 0x400 <= w < 0x4400;
    EncodedInFour(Append6(w, e), w, v);
  }

  lemma EncodedInFour(c: nat, w: nat, v: nat)
    requires 0x1_0000 <= c <= 0x10FFFF && c / 0x40 == w && w / 0x40 == v
    ensures Encoded(c) == [0xF0 + v / 0x40, 0x80 + v % 0x40, 0x80 + w % 0x40, 0x80 + c % 0x40]
  {
  }

  lemma EncodedIsChar(c: nat, rest: Bytes)
    requires Scalar(c)
    ensures CharAtFront(Encoded(c) + rest) && WidthOf(Encoded(c)[0]) == |Encoded(c)|
  {
  }

  // The byte table admits exactly the encodings of characters.
  lemma {:induction false} WellFormedExactly(s: Bytes)
    ensures WellFormed(s) <==>
              exists cs: seq<nat> :: (forall i :: 0 <= i < |cs| ==> Scalar(cs[i])) && EncodedAll(cs) == s
  {
    if WellFormed(s) {
      var cs := Characters(s);
      assert forall i :: 0 <= i < |cs| ==> Scalar(cs[i]);
    }
    if cs: seq<nat> :| (forall i :: 0 <= i < |cs| ==> Scalar(cs[i])) && EncodedAll(cs) == s {
      EncodedIsWellFormed(cs);
    }
  }

  function {:induction false} Characters(s: Bytes): (cs: seq<nat>)
    requires WellFormed(s)
    ensures (forall i :: 0 <= i < |cs| ==> Scalar(cs[i])) && EncodedAll(cs) == s
  {
    if s == [] then []
    else
      CharIsEncoded(s);
      var rest := Characters(s[WidthOf(s[0])..]);
      OneMore(CharOf(s), rest, s, WidthOf(s[0]));
      [CharOf(s)] + rest
  }

  lemma OneMore(c: nat, cs: seq<nat>, s: Bytes, n: nat)
    requires Scalar(c) && forall i :: 0 <= i < |cs| ==> Scalar(cs[i])
    requires n <= |s| && Encoded(c) == s[..n] && EncodedAll(cs) == s[n..]
    ensures EncodedAll([c] + cs) == s
  {
    assert ([c] + cs)[1..] == cs;
  }

  lemma {:induction false} EncodedIsWellFormed(cs: seq<nat>)
    requires forall i :: 0 <= i < |cs| ==> Scalar(cs[i])
    ensures WellFormed(EncodedAll(cs))
  {
    if cs != [] {
      var rest := EncodedAll(cs[1..]);
      EncodedIsWellFormed(cs[1..]);
      EncodedIsChar(cs[0], rest);
      assert EncodedAll(cs)[|Encoded(cs[0])|..] == rest;
    }
  }

  // A zero byte is a character of its own, so it cuts a well-formed string
  // into two well-formed parts.
  lemma {:induction false} ZeroCuts(u: Bytes, w: Bytes)
    ensures WellFormed(u + [0] + w) <==> WellFormed(u) && WellFormed(w)
  {
    var s := u + [0] + w;
    if u == [] {
      assert s == [0] + w && s[1..] == w;
    } else {
      FrontBeforeZero(u, w);
      if CharAtFront(u) {
        var n := WidthOf(u[0]);
        assert s[n..] == u[n..] + [0] + w;
        ZeroCuts(u[n..], w);
      }
    }
  }

  lemma CutAtZero(s: Bytes, i: nat)
    requires WellFormed(s) && i < |s| && s[i] == 0
    ensures WellFormed(s[..i])
  {
    ZeroCuts(s[..i], s[i + 1..]);
    assert s == s[..i] + [0] + s[i + 1..];
  }

  lemma FrontBeforeZero(u: Bytes, w: Bytes)
    requires u != []
    ensures (u + [0] + w)[0] == u[0]
    ensures CharAtFront(u + [0] + w) <==> CharAtFront(u)
  {
    var s, n := u + [0] + w, WidthOf(u[0]);
    assert s[|u|] == 0;
    assert forall i :: 0 <= i < |u| ==> s[i] == u[i];
  }
}
