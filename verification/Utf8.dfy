/** UTF-8 and UTF-16 as the encodings header reads and writes them. The arithmetic forms
    are the definitions of section 3 of RFC 3629 and section 2 of RFC 2781; the methods are
    the code's own bit operations, proved equal to them. */
module Utf8 {
  import opened Bytes
  import opened Bits

  const MAX_CODEPOINT := 0x10FFFF

  predicate IsScalar(cp: int) {
    0 <= cp <= 0xD7FF || 0xE000 <= cp <= MAX_CODEPOINT
  }

  /** The bytes of a code point; surrogates too, since the encoder does not refuse them. */
  function Encoding(cp: nat): (r: Text)
    requires cp <= MAX_CODEPOINT
    ensures 1 <= |r| <= 4
    ensures |r| == 4 ==> cp > 0xFFFF
  {
    if cp <= 0x7F then [cp]
    else if cp <= 0x7FF then [0xC0 + cp / 64, 0x80 + cp % 64]
    else if cp <= 0xFFFF then [0xE0 + cp / 4096, 0x80 + cp / 64 % 64, 0x80 + cp % 64]
    else [0xF0 + cp / 262144, 0x80 + cp / 4096 % 64, 0x80 + cp / 64 % 64, 0x80 + cp % 64]
  }

  lemma LeadMarks(top: nat)
    ensures top < 32 ==> Or(0xC0, top) == 0xC0 + top
    ensures top < 16 ==> Or(0xE0, top) == 0xE0 + top
    ensures top < 8 ==> Or(0xF0, top) == 0xF0 + top
  {
    Powers();
    if top < 32 { OrDisjoint(0xC0, 5, top); }
    if top < 16 { OrDisjoint(0xE0, 4, top); }
    if top < 8 { OrDisjoint(0xF0, 3, top); }
  }

  lemma TailMark(low: nat)
    requires low < 64
    ensures Or(0x80, low) == 0x80 + low
  {
    Powers();
    OrDisjoint(0x80, 6, low);
  }

  /** The first byte of a longer sequence: its mark over the top bits of the code point. */
  method LeadByte(mark: Byte, top: nat) returns (b: Byte)
    requires (mark == 0xC0 && top < 32) || (mark == 0xE0 && top < 16) || (mark == 0xF0 && top < 8)
    ensures b == mark + top
  {
    hide And, Or, Pow2;
    Masks(top);
    LeadMarks(top);
    b := Or(mark, And(top, 0xFF));
  }

  method LowByte(x: nat) returns (b: Byte)
    ensures b == x % 256
  {
    Masks(x);
    b := And(x, 0xFF);
  }

  /** A continuation byte: the six low bits of what is left of the code point. */
  method TailByte(rest: nat) returns (b: Byte)
    ensures b == 0x80 + rest % 64
  {
    Masks(rest);
    TailMark(rest % 64);
    b := Or(0x80, And(rest, 0x3F));
  }

  /** Appends a code point to an output stream. */
  method Encode(os: Text, codepoint: nat) returns (out: Text)
    requires codepoint <= MAX_CODEPOINT
    ensures out == os + Encoding(codepoint)
  {
    hide Shr, And, Or;
    Shifts(codepoint);
    if codepoint <= 0x7F {
      var only := LowByte(codepoint);
      out := os + [only];
    } else if codepoint <= 0x7FF {
      var lead := LeadByte(0xC0, Shr(codepoint, 6));
      var last := TailByte(codepoint);
      out := os + [lead, last];
    } else if codepoint <= 0xFFFF {
      var lead := LeadByte(0xE0, Shr(codepoint, 12));
      var second := TailByte(Shr(codepoint, 6));
      var last := TailByte(codepoint);
      out := os + [lead, second, last];
    } else {
      var lead := LeadByte(0xF0, Shr(codepoint, 18));
      var third := TailByte(Shr(codepoint, 12));
      var second := TailByte(Shr(codepoint, 6));
      var last := TailByte(codepoint);
      out := os + [lead, third, second, last];
    }
  }

  // ---------- decoding ----------

  datatype Coded = Coded(pos: nat, codepoint: nat)

  predicate IsTail(c: Byte) {
    0x80 <= c <= 0xBF
  }

  /** The bytes that may follow a lead byte: section 4 of RFC 3629. */
  predicate IsSecond(lead: Byte, c: Byte) {
    if lead == 0xE0 then 0xA0 <= c <= 0xBF
    else if lead == 0xED then 0x80 <= c <= 0x9F
    else if lead == 0xF0 then 0x90 <= c <= 0xBF
    else if lead == 0xF4 then 0x80 <= c <= 0x8F
    else IsTail(c)
  }

  /** Length of the sequence that a lead byte announces; 1 for bytes that lead nothing. */
  function SequenceLength(lead: Byte): nat {
    if 0xC2 <= lead <= 0xDF then 2
    else if 0xE0 <= lead <= 0xEF then 3
    else if 0xF0 <= lead <= 0xF4 then 4
    else 1
  }

  /** The code point of the well-formed sequence at i, if there is one. */
  function DecodeAt(s: Text, i: nat): (r: Option<Coded>)
    ensures r.Some? && i < |s| ==> i < r.value.pos <= |s|
    ensures r.Some? ==> IsScalar(r.value.codepoint)
  {
    var c, c1, c2, c3 := Peek(s, i), Peek(s, i + 1), Peek(s, i + 2), Peek(s, i + 3);
    if c < 0x80 then Some(Coded(i + 1, c))
    else if SequenceLength(c) == 2 && IsSecond(c, c1) then
      Some(Coded(i + 2, (c - 0xC0) * 64 + (c1 - 0x80)))
    else if SequenceLength(c) == 3 && IsSecond(c, c1) && IsTail(c2) then
      Some(Coded(i + 3, (c - 0xE0) * 4096 + (c1 - 0x80) * 64 + (c2 - 0x80)))
    else if SequenceLength(c) == 4 && IsSecond(c, c1) && IsTail(c2) && IsTail(c3) then
      Some(Coded(i + 4, (c - 0xF0) * 262144 + (c1 - 0x80) * 4096 + (c2 - 0x80) * 64 + (c3 - 0x80)))
    else None
  }

  /** A number is its digits in base 64. */
  lemma Base64Digits(x: nat)
    ensures x == x / 64 * 64 + x % 64
    ensures x == x / 4096 * 4096 + x / 64 % 64 * 64 + x % 64
    ensures x == x / 262144 * 262144 + x / 4096 % 64 * 4096 + x / 64 % 64 * 64 + x % 64
  {
    RemainderUnique(x, 4096, x / 64 / 64, x / 64 % 64 * 64 + x % 64);
    RemainderUnique(x, 262144, x / 4096 / 64, x / 4096 % 64 * 4096 + x % 4096);
  }

  lemma Base64Number(a: nat, b: nat, c: nat, d: nat)
    requires b < 64 && c < 64 && d < 64
    ensures var x := a * 262144 + b * 4096 + c * 64 + d;
            x / 262144 == a && x / 4096 == a * 64 + b && x / 4096 % 64 == b && x / 64 % 64 == c && x % 64 == d
  {
    var x := a * 262144 + b * 4096 + c * 64 + d;
    RemainderUnique(x, 262144, a, b * 4096 + c * 64 + d);
    RemainderUnique(x, 4096, a * 64 + b, c * 64 + d);
    RemainderUnique(a * 64 + b, 64, a, b);
    RemainderUnique(x, 64, a * 4096 + b * 64 + c, d);
    RemainderUnique(a * 4096 + b * 64 + c, 64, a * 64 + b, c);
  }

  lemma DecodeInvertsEncode(s: Text, i: nat, cp: nat)
    requires IsScalar(cp) && Holds(s, i, Encoding(cp))
    ensures DecodeAt(s, i) == Some(Coded(i + |Encoding(cp)|, cp))
  {
    var e := Encoding(cp);
    HoldsPeek(s, i, e, 0);
    if |e| > 1 { HoldsPeek(s, i, e, 1); }
    if |e| > 2 { HoldsPeek(s, i, e, 2); }
    if |e| > 3 { HoldsPeek(s, i, e, 3); }
    hide DecodeAt;
    if 0x80 <= cp < 0x800 {
      DoubleDecoding(s, i, cp);
    } else if 0x800 <= cp < 0x10000 {
      TripleDecoding(s, i, cp);
    } else if 0x10000 <= cp {
      QuadrupleDecoding(s, i, cp);
    } else {
      SingleDecoding(s, i);
    }
  }

  lemma SingleDecoding(s: Text, i: nat)
    requires Peek(s, i) < 0x80
    ensures DecodeAt(s, i) == Some(Coded(i + 1, Peek(s, i)))
  {
  }

  lemma DoubleDecoding(s: Text, i: nat, cp: nat)
    requires 0x80 <= cp < 0x800 && Peek(s, i) == 0xC0 + cp / 64 && Peek(s, i + 1) == 0x80 + cp % 64
    ensures DecodeAt(s, i) == Some(Coded(i + 2, cp))
  {
  }

  lemma TripleDecoding(s: Text, i: nat, cp: nat)
    requires 0x800 <= cp < 0x10000 && IsScalar(cp) && Peek(s, i) == 0xE0 + cp / 4096
    requires Peek(s, i + 1) == 0x80 + cp / 64 % 64 && Peek(s, i + 2) == 0x80 + cp % 64
    ensures DecodeAt(s, i) == Some(Coded(i + 3, cp))
  {
    Base64Digits(cp);
  }

  lemma QuadrupleDecoding(s: Text, i: nat, cp: nat)
    requires 0x10000 <= cp && IsScalar(cp) && Peek(s, i) == 0xF0 + cp / 262144
    requires Peek(s, i + 1) == 0x80 + cp / 4096 % 64
    requires Peek(s, i + 2) == 0x80 + cp / 64 % 64 && Peek(s, i + 3) == 0x80 + cp % 64
    ensures DecodeAt(s, i) == Some(Coded(i + 4, cp))
  {
    Base64Digits(cp);
  }

  lemma SingleEncoding(c: Byte)
    requires c < 0x80
    ensures Encoding(c) == [c]
  {
  }

  lemma DoubleEncoding(c: Byte, c1: Byte)
    requires SequenceLength(c) == 2 && IsTail(c1)
    ensures Encoding((c - 0xC0) * 64 + (c1 - 0x80)) == [c, c1]
  {
    Base64Number(0, 0, c - 0xC0, c1 - 0x80);
  }

  lemma TripleEncoding(c: Byte, c1: Byte, c2: Byte)
    requires SequenceLength(c) == 3 && IsSecond(c, c1) && IsTail(c2)
    ensures Encoding((c - 0xE0) * 4096 + (c1 - 0x80) * 64 + (c2 - 0x80)) == [c, c1, c2]
  {
    Base64Number(0, c - 0xE0, c1 - 0x80, c2 - 0x80);
  }

  lemma QuadrupleEncoding(c: Byte, c1: Byte, c2: Byte, c3: Byte)
    requires SequenceLength(c) == 4 && IsSecond(c, c1) && IsTail(c2) && IsTail(c3)
    ensures Encoding((c - 0xF0) * 262144 + (c1 - 0x80) * 4096 + (c2 - 0x80) * 64 + (c3 - 0x80)) == [c, c1, c2, c3]
  {
    Base64Number(c - 0xF0, c1 - 0x80, c2 - 0x80, c3 - 0x80);
  }

  lemma EncodeInvertsDecode(s: Text, i: nat)
    requires i < |s| && DecodeAt(s, i).Some?
    ensures var u := DecodeAt(s, i).value; s[i..u.pos] == Encoding(u.codepoint)
  {
    hide Encoding;
    var u, c := DecodeAt(s, i).value, s[i];
    if SequenceLength(c) == 1 {
      SingleEncoding(c);
    } else if SequenceLength(c) == 2 {
      DoubleEncoding(c, s[i + 1]);
    } else if SequenceLength(c) == 3 {
      TripleEncoding(c, s[i + 1], s[i + 2]);
    } else if SequenceLength(c) == 4 {
      QuadrupleEncoding(c, s[i + 1], s[i + 2], s[i + 3]);
    }
  }
}
