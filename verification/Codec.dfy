/** The table-driven UTF-8 decoder and validator, the UTF-16 coder, and whole strings:
    validation, and transcoding in both directions. */
module Codec {
  import opened Bytes
  import opened Bits
  import opened Utf8

  // ---------- UTF-8, one sequence ----------

  /** The decoder's table: 2 to 6, 10 and 11 announce sequences, 8 leads nothing, and the
      single bits 0x10, 0x20 and 0x40 classify continuation bytes. */
  function GetRange(c: Byte): Byte {
    if c < 0x80 then 0
    else if c < 0x90 then 0x10
    else if c < 0xA0 then 0x40
    else if c < 0xC0 then 0x20
    else if c < 0xC2 then 8
    else if c < 0xE0 then 2
    else if c == 0xE0 then 10
    else if c == 0xED then 4
    else if c < 0xF0 then 3
    else if c == 0xF0 then 11
    else if c < 0xF4 then 6
    else if c == 0xF4 then 5
    else 8
  }

  /** The continuation bytes that a mask of the table admits. */
  predicate Admits(mask: Byte, c: Byte) {
    if mask == 0x70 then 0x80 <= c <= 0xBF
    else if mask == 0x50 then 0x80 <= c <= 0x9F
    else if mask == 0x10 then 0x80 <= c <= 0x8F
    else if mask == 0x20 then 0xA0 <= c <= 0xBF
    else mask == 0x60 && 0x90 <= c <= 0xBF
  }

  /** Testing a table entry against a mask tells whether the mask admits the byte. */
  lemma MaskAdmits(mask: Byte, c: Byte)
    requires mask in {0x10, 0x20, 0x50, 0x60, 0x70}
    ensures And(GetRange(c), mask) != 0 <==> Admits(mask, c)
  {
    var r := GetRange(c);
    if r < 16 {
      assert Pow2(4) == 16;
      LowAgainstHigh(r, mask, 4);
    } else {
      MaskBits(mask);
    }
  }

  lemma MaskBits(mask: Byte)
    requires mask in {0x10, 0x20, 0x50, 0x60, 0x70}
    ensures And(0x10, mask) != 0 <==> mask in {0x10, 0x50, 0x70}
    ensures And(0x20, mask) != 0 <==> mask in {0x20, 0x60, 0x70}
    ensures And(0x40, mask) != 0 <==> mask in {0x50, 0x60, 0x70}
  {
    assert Pow2(4) == 0x10 && Pow2(5) == 0x20 && Pow2(6) == 0x40;
    SingleBit(mask, 4);
    SingleBit(mask, 5);
    SingleBit(mask, 6);
    MaskTable();
  }

  lemma MaskTable()
    ensures forall m: nat :: m in {0x10, 0x50, 0x70} ==> Bit(m, 4)
    ensures !Bit(0x20, 4) && !Bit(0x60, 4)
    ensures forall m: nat :: m in {0x20, 0x60, 0x70} ==> Bit(m, 5)
    ensures !Bit(0x10, 5) && !Bit(0x50, 5)
    ensures forall m: nat :: m in {0x50, 0x60, 0x70} ==> Bit(m, 6)
    ensures !Bit(0x10, 6) && !Bit(0x20, 6)
  {
  }

  predicate Bit(x: nat, k: nat) {
    if k == 0 then x % 2 == 1 else Bit(x / 2, k - 1)
  }

  lemma {:induction false} SingleBit(mask: nat, k: nat)
    ensures And(Pow2(k), mask) != 0 <==> Bit(mask, k)
    decreases k
  {
    if mask == 0 {
      NoBits(k);
    } else if k == 0 {
      assert And(1, mask) == (if mask % 2 == 1 then 1 else 0) + 2 * And(0, mask / 2);
    } else {
      var p := Pow2(k - 1);
      SingleBit(mask / 2, k - 1);
      assert (2 * p) / 2 == p && (2 * p) % 2 == 0;
    }
  }

  lemma NoBits(k: nat)
    ensures !Bit(0, k)
  {
    if k > 0 { NoBits(k - 1); }
  }

  lemma {:induction false} LowAgainstHigh(r: nat, mask: nat, k: nat)
    requires r < Pow2(k) && mask % Pow2(k) == 0
    ensures And(r, mask) == 0
    decreases k
  {
    if k > 0 {
      RemainderOfDouble(mask, Pow2(k - 1));
      LowAgainstHigh(r / 2, mask / 2, k - 1);
    }
  }

  /** The bits of a lead byte that belong to the code point. */
  method LeadBits(c: Byte) returns (bits: nat)
    requires SequenceLength(c) > 1
    ensures bits == c - (if SequenceLength(c) == 2 then 0xC0 else if SequenceLength(c) == 3 then 0xE0 else 0xF0)
  {
    LeadShift(c);
    bits := And(Shr(0xFF, GetRange(c)), c);
  }

  lemma LeadShift(c: Byte)
    requires SequenceLength(c) > 1
    ensures And(Shr(0xFF, GetRange(c)), c) ==
            c - (if SequenceLength(c) == 2 then 0xC0 else if SequenceLength(c) == 3 then 0xE0 else 0xF0)
  {
    hide And, Shr, Pow2, GetRange;
    var range := GetRange(c);
    LeadRanges(c);
    if range >= 10 {
      AllShiftedOut(range);
      NothingInCommon(c);
    } else {
      LowMask(range);
      AndLowBits(c, 8 - range);
      AndCommutes(c, Pow2(8 - range) - 1);
      LeadRemainder(c);
    }
  }

  lemma LeadRanges(c: Byte)
    requires SequenceLength(c) > 1
    ensures GetRange(c) in {2, 3, 4, 5, 6, 10, 11}
    ensures GetRange(c) >= 10 ==>
            c == (if SequenceLength(c) == 2 then 0xC0 else if SequenceLength(c) == 3 then 0xE0 else 0xF0)
  {
  }

  lemma AllShiftedOut(range: nat)
    requires range == 10 || range == 11
    ensures Shr(0xFF, range) == 0
  {
    assert Shr(0xFF, 4) == 15;
    assert Shr(0xFF, 8) == 0;
  }

  lemma NothingInCommon(c: nat)
    ensures And(0, c) == 0
  {
  }

  lemma LeadRemainder(c: Byte)
    requires 2 <= GetRange(c) <= 6
    ensures c - (if SequenceLength(c) == 2 then 0xC0 else if SequenceLength(c) == 3 then 0xE0 else 0xF0) ==
            match GetRange(c) case 2 => c % 64 case 3 => c % 32 case 4 => c % 16 case 5 => c % 8 case _ => c % 4
  {
  }

  lemma LowMask(range: nat)
    requires 2 <= range <= 6
    ensures Shr(0xFF, range) == Pow2(8 - range) - 1
    ensures Pow2(8 - range) == if range == 2 then 64 else if range == 3 then 32 else if range == 4 then 16
                               else if range == 5 then 8 else 4
  {
    assert Pow2(2) == 4 && Pow2(3) == 8 && Pow2(4) == 16 && Pow2(5) == 32 && Pow2(6) == 64;
  }

  /** Takes one continuation byte: six more bits, and whether the mask admits it. */
  method TakeTail(s: Text, pos: nat, codepoint: nat, mask: Byte) returns (next: nat, bits: nat, admitted: bool)
    requires mask in {0x10, 0x20, 0x50, 0x60, 0x70}
    ensures next == pos + 1
    ensures bits == codepoint * 64 + Peek(s, pos) % 64
    ensures admitted <==> Admits(mask, Peek(s, pos))
  {
    var c := Peek(s, pos);
    next := pos + 1;
    bits := AppendBits(codepoint, c);
    admitted := TestRange(c, mask);
  }

  method AppendBits(codepoint: nat, c: Byte) returns (bits: nat)
    ensures bits == codepoint * 64 + c % 64
  {
    Masks(c);
    assert Pow2(6) == 64;
    OrDisjoint(codepoint * 64, 6, c % 64);
    bits := Or(Shl(codepoint, 6), And(c, 0x3F));
  }

  method TestRange(c: Byte, mask: Byte) returns (admitted: bool)
    requires mask in {0x10, 0x20, 0x50, 0x60, 0x70}
    ensures admitted <==> Admits(mask, c)
  {
    MaskAdmits(mask, c);
    admitted := And(GetRange(c), mask) != 0;
  }

  /** The mask that the table row of a lead byte applies to the second byte. */
  function SecondMask(range: Byte): Byte {
    if range == 4 then 0x50 else if range == 5 then 0x10
    else if range == 10 then 0x20 else if range == 11 then 0x60 else 0x70
  }

  /** The table row of a lead byte tells the length of its sequence. */
  lemma RangeLengths(c: Byte)
    ensures c < 0x80 ==> SequenceLength(c) == 1
    ensures SequenceLength(c) == 2 <==> GetRange(c) == 2
    ensures SequenceLength(c) == 3 <==> GetRange(c) in {3, 4, 10}
    ensures SequenceLength(c) == 4 <==> GetRange(c) in {5, 6, 11}
    ensures SequenceLength(c) in {1, 2, 3, 4}
  {
  }

  lemma DecodesOne(s: Text, i: nat)
    requires SequenceLength(Peek(s, i)) == 1
    ensures DecodeAt(s, i) == if Peek(s, i) < 0x80 then Some(Coded(i + 1, Peek(s, i))) else None
  {
  }

  lemma DecodesTwo(s: Text, i: nat, bits: nat)
    requires SequenceLength(Peek(s, i)) == 2
    requires bits == (Peek(s, i) - 0xC0) * 64 + Peek(s, i + 1) % 64
    ensures DecodeAt(s, i) ==
            if Admits(SecondMask(GetRange(Peek(s, i))), Peek(s, i + 1)) then Some(Coded(i + 2, bits)) else None
  {
  }

  lemma DecodesThree(s: Text, i: nat, bits: nat)
    requires SequenceLength(Peek(s, i)) == 3
    requires bits == ((Peek(s, i) - 0xE0) * 64 + Peek(s, i + 1) % 64) * 64 + Peek(s, i + 2) % 64
    ensures DecodeAt(s, i) ==
            if Admits(SecondMask(GetRange(Peek(s, i))), Peek(s, i + 1)) && Admits(0x70, Peek(s, i + 2)) then
              Some(Coded(i + 3, bits))
            else None
  {
  }

  lemma DecodesFour(s: Text, i: nat, bits: nat)
    requires SequenceLength(Peek(s, i)) == 4
    requires bits ==
             (((Peek(s, i) - 0xF0) * 64 + Peek(s, i + 1) % 64) * 64 + Peek(s, i + 2) % 64) * 64 + Peek(s, i + 3) % 64
    ensures DecodeAt(s, i) ==
            if Admits(SecondMask(GetRange(Peek(s, i))), Peek(s, i + 1))
               && Admits(0x70, Peek(s, i + 2)) && Admits(0x70, Peek(s, i + 3)) then
              Some(Coded(i + 4, bits))
            else None
  {
  }

  /** Decodes one code point. It fails exactly on what RFC 3629 calls ill-formed, and it
      consumes as many bytes as the lead byte announces either way. */
  method Decode(s: Text, pos: nat) returns (ok: bool, codepoint: nat, next: nat)
    ensures next == pos + SequenceLength(Peek(s, pos))
    ensures DecodeAt(s, pos) == if ok then Some(Coded(next, codepoint)) else None
  {
    hide DecodeAt, SequenceLength, GetRange, Admits, Peek;
    var c := Peek(s, pos);
    RangeLengths(c);
    next := pos + 1;
    codepoint := c;
    if c < 0x80 {
      DecodesOne(s, pos);
      return true, codepoint, next;
    }
    var range := GetRange(c);
    if range !in {2, 3, 4, 5, 6, 10, 11} {
      DecodesOne(s, pos);
      return false, codepoint, next;
    }
    codepoint := LeadBits(c);
    next, codepoint, ok := TakeTail(s, next, codepoint, SecondMask(range));
    var left := if range == 2 then 0 else if range in {3, 4, 10} then 1 else 2;
    if left == 0 {
      DecodesTwo(s, pos, codepoint);
    }
    if left >= 1 {
      var admitted;
      next, codepoint, admitted := TakeTail(s, next, codepoint, 0x70);
      ok := ok && admitted;
    }
    if left == 1 {
      DecodesThree(s, pos, codepoint);
    }
    if left == 2 {
      var admitted;
      next, codepoint, admitted := TakeTail(s, next, codepoint, 0x70);
      ok := ok && admitted;
      DecodesFour(s, pos, codepoint);
    }
  }

  /** The n bytes that the stream shows from i, terminators included. */
  function Shown(s: Text, i: nat, n: nat): Text {
    if n == 0 then [] else Shown(s, i, n - 1) + [Peek(s, i + n - 1)]
  }

  /** Validates one code point and copies its bytes. */
  method Validate(s: Text, pos: nat, os: Text) returns (ok: bool, next: nat, out: Text)
    ensures next == pos + SequenceLength(Peek(s, pos))
    ensures ok <==> DecodeAt(s, pos).Some?
    ensures out == os + Shown(s, pos, next - pos)
  {
    var c := Peek(s, pos);
    next := pos + 1;
    out := os + [c];
    if c < 0x80 {
      return true, next, out;
    }
    var range := GetRange(c);
    if range !in {2, 3, 4, 5, 6, 10, 11} {
      return false, next, out;
    }
    assert out == os + Shown(s, pos, 1);
    out := out + [Peek(s, next)];
    assert out == os + Shown(s, pos, 2);
    ok := TestRange(Peek(s, next), SecondMask(range));
    next := next + 1;
    var left := if range == 2 then 0 else if range in {3, 4, 10} then 1 else 2;
    if left >= 1 {
      out := out + [Peek(s, next)];
      assert out == os + Shown(s, pos, 3);
      var admitted := TestRange(Peek(s, next), 0x70);
      ok := ok && admitted;
      next := next + 1;
    }
    if left == 2 {
      out := out + [Peek(s, next)];
      assert out == os + Shown(s, pos, 4);
      var admitted := TestRange(Peek(s, next), 0x70);
      ok := ok && admitted;
      next := next + 1;
    }
  }

  // ---------- UTF-8, whole strings ----------

  function EncodeAll(cps: seq<nat>): Text
    requires AllScalar(cps)
  {
    if cps == [] then [] else
    assert IsScalar(cps[0]);
    Encoding(cps[0]) + EncodeAll(cps[1..])
  }

  predicate AllScalar(cps: seq<nat>) {
    forall k :: 0 <= k < |cps| ==> IsScalar(cps[k])
  }

  /** A byte string is well-formed UTF-8 when it is the encoding of some scalar values. */
  ghost predicate WellFormed(s: Text) {
    exists cps: seq<nat> :: AllScalar(cps) && s == EncodeAll(cps)
  }

  /** Sequence after sequence decodes from i to the end. */
  predicate ValidFrom(s: Text, i: nat)
    requires i <= |s|
    decreases |s| - i
  {
    i == |s| || (DecodeAt(s, i).Some? && ValidFrom(s, DecodeAt(s, i).value.pos))
  }

  function Codepoints(s: Text, i: nat): (r: seq<nat>)
    requires i <= |s| && ValidFrom(s, i)
    ensures AllScalar(r)
    decreases |s| - i
  {
    if i == |s| then [] else
    var u := DecodeAt(s, i).value;
    [u.codepoint] + Codepoints(s, u.pos)
  }

  lemma CodepointsStep(s: Text, i: nat)
    requires i <= |s| && ValidFrom(s, i)
    ensures i == |s| ==> EncodeAll(Codepoints(s, i)) == []
    ensures i < |s| ==>
              DecodeAt(s, i).Some? &&
              var u := DecodeAt(s, i).value;
              i < u.pos <= |s| && ValidFrom(s, u.pos) && IsScalar(u.codepoint) && u.codepoint <= MAX_CODEPOINT
              && Codepoints(s, i) == [u.codepoint] + Codepoints(s, u.pos)
  {
    hide DecodeAt, Encoding;
  }

  lemma EncodeAllFirst(cp: nat, cps: seq<nat>)
    requires IsScalar(cp) && AllScalar(cps)
    ensures cp <= MAX_CODEPOINT && AllScalar([cp] + cps) && EncodeAll([cp] + cps) == Encoding(cp) + EncodeAll(cps)
  {
    hide Encoding;
    assert ([cp] + cps)[1..] == cps;
  }

  lemma {:induction false} CodepointsEncode(s: Text, i: nat)
    requires i <= |s| && ValidFrom(s, i)
    ensures EncodeAll(Codepoints(s, i)) == s[i..]
    decreases |s| - i
  {
    hide *;
    CodepointsStep(s, i);
    if i < |s| {
      var u := DecodeAt(s, i).value;
      CodepointsEncode(s, u.pos);
      EncodeInvertsDecode(s, i);
      EncodeAllFirst(u.codepoint, Codepoints(s, u.pos));
      assert s[i..] == s[i..u.pos] + s[u.pos..];
    }
  }

  lemma SuffixSplit(s: Text, i: nat, e: Text, rest: Text)
    requires i <= |s| && s[i..] == e + rest
    ensures i + |e| <= |s| && Holds(s, i, e) && s[i + |e|..] == rest
  {
    assert s[i..i + |e|] == s[i..][..|e|];
    assert s[i + |e|..] == s[i..][|e|..];
  }

  lemma {:induction false} EncodedIsValid(s: Text, i: nat, cps: seq<nat>)
    requires AllScalar(cps) && i <= |s| && s[i..] == EncodeAll(cps)
    ensures ValidFrom(s, i) && Codepoints(s, i) == cps
    decreases |cps|
  {
    hide DecodeAt, Encoding;
    if cps != [] {
      var e, rest := Encoding(cps[0]), EncodeAll(cps[1..]);
      SuffixSplit(s, i, e, rest);
      DecodeInvertsEncode(s, i, cps[0]);
      EncodedIsValid(s, i + |e|, cps[1..]);
    }
  }

  lemma ValidIffWellFormed(s: Text)
    ensures ValidFrom(s, 0) <==> WellFormed(s)
  {
    if ValidFrom(s, 0) {
      CodepointsEncode(s, 0);
    }
    if WellFormed(s) {
      var cps: seq<nat> :| AllScalar(cps) && s == EncodeAll(cps);
      EncodedIsValid(s, 0, cps);
    }
  }

  /** Repeated Validate: it consumes the whole string, copying it, exactly when the string is
      well-formed UTF-8. */
  method ValidateAll(s: Text) returns (ok: bool, out: Text)
    ensures ok <==> WellFormed(s)
    ensures ok ==> out == s
  {
    hide WellFormed, Shown;
    ValidIffWellFormed(s);
    var pos := 0;
    out := [];
    while pos < |s|
      invariant pos <= |s| && out == s[..pos]
      invariant ValidFrom(s, 0) <==> ValidFrom(s, pos)
      decreases |s| - pos
    {
      var start := pos;
      ok, pos, out := Validate(s, pos, out);
      if !ok {
        return false, out;
      }
      ShownIsText(s, start, pos - start);
    }
    ok := true;
  }

  lemma ShownIsText(s: Text, i: nat, n: nat)
    requires i + n <= |s|
    ensures Shown(s, i, n) == s[i..i + n]
  {
    if n > 0 {
      ShownIsText(s, i, n - 1);
    }
  }

  // ---------- UTF-16 ----------

  type Unit = u: int | 0 <= u < 0x10000

  function UnitAt(u: seq<Unit>, i: nat): Unit {
    if i < |u| then u[i] else 0
  }

  function Encoding16(cp: nat): (r: seq<Unit>)
    requires IsScalar(cp)
    ensures 1 <= |r| <= 2
  {
    if cp <= 0xFFFF then [cp]
    else [0xD800 + (cp - 0x10000) / 1024, 0xDC00 + (cp - 0x10000) % 1024]
  }

  lemma SurrogateBits(v: nat)
    requires v <= 0xFFFFF
    ensures Or(Shr(v, 10), 0xD800) == 0xD800 + v / 1024
    ensures Or(And(v, 0x3FF), 0xDC00) == 0xDC00 + v % 1024
  {
    Shifts(v);
    Masks(v);
    assert Pow2(10) == 1024;
    OrDisjoint(0xD800, 10, v / 1024);
    OrDisjoint(0xDC00, 10, v % 1024);
  }

  method Encode16(os: seq<Unit>, codepoint: nat) returns (out: seq<Unit>)
    requires IsScalar(codepoint)
    ensures out == os + Encoding16(codepoint)
  {
    if codepoint <= 0xFFFF {
      out := os + [codepoint];
    } else {
      var lead, trail := Surrogates(codepoint - 0x10000);
      out := os + [lead, trail];
    }
  }

  method Surrogates(v: nat) returns (lead: Unit, trail: Unit)
    requires v <= 0xFFFFF
    ensures lead == 0xD800 + v / 1024 && trail == 0xDC00 + v % 1024
  {
    SurrogateBits(v);
    lead := Or(Shr(v, 10), 0xD800);
    trail := Or(And(v, 0x3FF), 0xDC00);
  }

  function DecodeAt16(u: seq<Unit>, i: nat): (r: Option<Coded>)
    ensures r.Some? && i < |u| ==> i < r.value.pos <= |u|
    ensures r.Some? ==> IsScalar(r.value.codepoint)
  {
    var c, c1 := UnitAt(u, i), UnitAt(u, i + 1);
    if c < 0xD800 || c > 0xDFFF then Some(Coded(i + 1, c))
    else if c <= 0xDBFF && 0xDC00 <= c1 <= 0xDFFF then
      Some(Coded(i + 2, (c - 0xD800) * 1024 + (c1 - 0xDC00) + 0x10000))
    else None
  }

  method Decode16(u: seq<Unit>, pos: nat) returns (ok: bool, codepoint: nat, next: nat)
    ensures DecodeAt16(u, pos) == if ok then Some(Coded(next, codepoint)) else None
  {
    var c := UnitAt(u, pos);
    next := pos + 1;
    codepoint := c;
    if c < 0xD800 || c > 0xDFFF {
      return true, codepoint, next;
    }
    if c > 0xDBFF {
      return false, codepoint, next;
    }
    codepoint := JoinSurrogates(c, UnitAt(u, next));
    c := UnitAt(u, next);
    next := next + 1;
    ok := 0xDC00 <= c <= 0xDFFF;
  }

  method JoinSurrogates(lead: Unit, trail: Unit) returns (codepoint: nat)
    ensures codepoint == lead % 1024 * 1024 + trail % 1024 + 0x10000
  {
    Masks(lead);
    Masks(trail);
    assert Pow2(10) == 1024;
    OrDisjoint(lead % 1024 * 1024, 10, trail % 1024);
    codepoint := Or(Shl(And(lead, 0x3FF), 10), And(trail, 0x3FF));
    codepoint := codepoint + 0x10000;
  }

  lemma DecodeInvertsEncode16(u: seq<Unit>, i: nat, cp: nat)
    requires IsScalar(cp) && i + |Encoding16(cp)| <= |u|
    requires u[i..i + |Encoding16(cp)|] == Encoding16(cp)
    ensures DecodeAt16(u, i) == Some(Coded(i + |Encoding16(cp)|, cp))
  {
    var e := Encoding16(cp);
    assert u[i] == u[i..i + |e|][0];
    if |e| == 2 {
      assert u[i + 1] == u[i..i + |e|][1];
    }
  }

  lemma EncodeInvertsDecode16(u: seq<Unit>, i: nat)
    requires i < |u| && DecodeAt16(u, i).Some?
    ensures var d := DecodeAt16(u, i).value; u[i..d.pos] == Encoding16(d.codepoint)
  {
    var d := DecodeAt16(u, i).value;
    if d.pos == i + 2 {
      RemainderUnique(d.codepoint - 0x10000, 1024, u[i] - 0xD800, u[i + 1] - 0xDC00);
    }
  }

  function EncodeAll16(cps: seq<nat>): seq<Unit>
    requires AllScalar(cps)
  {
    if cps == [] then [] else
    assert IsScalar(cps[0]);
    Encoding16(cps[0]) + EncodeAll16(cps[1..])
  }

  /** The UTF-16 encodings of scalar values. */
  ghost predicate WellFormed16(u: seq<Unit>) {
    exists cps: seq<nat> :: AllScalar(cps) && u == EncodeAll16(cps)
  }

  predicate ValidFrom16(u: seq<Unit>, i: nat)
    requires i <= |u|
    decreases |u| - i
  {
    i == |u| || (DecodeAt16(u, i).Some? && ValidFrom16(u, DecodeAt16(u, i).value.pos))
  }

  function Codepoints16(u: seq<Unit>, i: nat): (r: seq<nat>)
    requires i <= |u| && ValidFrom16(u, i)
    ensures AllScalar(r)
    decreases |u| - i
  {
    if i == |u| then [] else
    var d := DecodeAt16(u, i).value;
    [d.codepoint] + Codepoints16(u, d.pos)
  }

  lemma CodepointsStep16(u: seq<Unit>, i: nat)
    requires i <= |u| && ValidFrom16(u, i)
    ensures i == |u| ==> EncodeAll16(Codepoints16(u, i)) == []
    ensures i < |u| ==>
              DecodeAt16(u, i).Some? &&
              var d := DecodeAt16(u, i).value;
              i < d.pos <= |u| && ValidFrom16(u, d.pos) && IsScalar(d.codepoint)
              && Codepoints16(u, i) == [d.codepoint] + Codepoints16(u, d.pos)
  {
    hide DecodeAt16, Encoding16;
  }

  lemma EncodeAllFirst16(cp: nat, cps: seq<nat>)
    requires IsScalar(cp) && AllScalar(cps)
    ensures AllScalar([cp] + cps) && EncodeAll16([cp] + cps) == Encoding16(cp) + EncodeAll16(cps)
  {
    hide Encoding16;
    assert ([cp] + cps)[1..] == cps;
  }

  lemma {:induction false} CodepointsEncode16(u: seq<Unit>, i: nat)
    requires i <= |u| && ValidFrom16(u, i)
    ensures EncodeAll16(Codepoints16(u, i)) == u[i..]
    decreases |u| - i
  {
    hide *;
    CodepointsStep16(u, i);
    if i < |u| {
      var d := DecodeAt16(u, i).value;
      CodepointsEncode16(u, d.pos);
      EncodeInvertsDecode16(u, i);
      EncodeAllFirst16(d.codepoint, Codepoints16(u, d.pos));
      assert u[i..] == u[i..d.pos] + u[d.pos..];
    }
  }

  lemma SuffixSplit16(u: seq<Unit>, i: nat, e: seq<Unit>, rest: seq<Unit>)
    requires i <= |u| && u[i..] == e + rest
    ensures i + |e| <= |u| && u[i..i + |e|] == e && u[i + |e|..] == rest
  {
    assert u[i..i + |e|] == u[i..][..|e|];
    assert u[i + |e|..] == u[i..][|e|..];
  }

  lemma {:induction false} EncodedIsValid16(u: seq<Unit>, i: nat, cps: seq<nat>)
    requires AllScalar(cps) && i <= |u| && u[i..] == EncodeAll16(cps)
    ensures ValidFrom16(u, i) && Codepoints16(u, i) == cps
    decreases |cps|
  {
    hide DecodeAt16, Encoding16;
    if cps != [] {
      var e, rest := Encoding16(cps[0]), EncodeAll16(cps[1..]);
      SuffixSplit16(u, i, e, rest);
      DecodeInvertsEncode16(u, i, cps[0]);
      EncodedIsValid16(u, i + |e|, cps[1..]);
    }
  }

  // ---------- transcoding ----------

  /** Repeated Transcode, from position i on, after the output so far. */
  function To16From(s: Text, i: nat, out: seq<Unit>): Option<seq<Unit>>
    requires i <= |s|
    decreases |s| - i
  {
    if i == |s| then Some(out) else
    match DecodeAt(s, i)
    case None => None
    case Some(d) => To16From(s, d.pos, out + Encoding16(d.codepoint))
  }

  function To16(s: Text): Option<seq<Unit>> {
    To16From(s, 0, [])
  }

  lemma Next16(s: Text, i: nat)
    requires i < |s| && ValidFrom(s, i)
    ensures var d := DecodeAt(s, i).value;
            EncodeAll16(Codepoints(s, i)) == Encoding16(d.codepoint) + EncodeAll16(Codepoints(s, d.pos))
  {
    assert Codepoints(s, i)[1..] == Codepoints(s, DecodeAt(s, i).value.pos);
  }

  lemma {:induction false} To16Encodes(s: Text, i: nat, out: seq<Unit>)
    requires i <= |s|
    ensures To16From(s, i, out) == if ValidFrom(s, i) then Some(out + EncodeAll16(Codepoints(s, i))) else None
    decreases |s| - i
  {
    if i < |s| {
      match DecodeAt(s, i)
      case None =>
      case Some(d) =>
        To16Encodes(s, d.pos, out + Encoding16(d.codepoint));
        if ValidFrom(s, i) {
          var first, rest := Encoding16(d.codepoint), EncodeAll16(Codepoints(s, d.pos));
          Next16(s, i);
          assert out + first + rest == out + (first + rest);
        }
    } else {
      assert out + [] == out;
    }
  }

  method Transcode8To16(s: Text) returns (r: Option<seq<Unit>>)
    ensures r == To16(s)
  {
    var pos, out: seq<Unit> := 0, [];
    while pos < |s|
      invariant pos <= |s|
      invariant To16From(s, pos, out) == To16(s)
      decreases |s| - pos
    {
      var ok, codepoint, next := Decode(s, pos);
      if !ok {
        return None;
      }
      out := Encode16(out, codepoint);
      pos := next;
    }
    r := Some(out);
  }

  /** Repeated Transcode, from position i on, after the output so far. */
  function To8From(u: seq<Unit>, i: nat, out: Text): Option<Text>
    requires i <= |u|
    decreases |u| - i
  {
    if i == |u| then Some(out) else
    match DecodeAt16(u, i)
    case None => None
    case Some(d) => To8From(u, d.pos, out + Encoding(d.codepoint))
  }

  function To8(u: seq<Unit>): Option<Text> {
    To8From(u, 0, [])
  }

  lemma Next8(u: seq<Unit>, i: nat)
    requires i < |u| && ValidFrom16(u, i)
    ensures var d := DecodeAt16(u, i).value;
            EncodeAll(Codepoints16(u, i)) == Encoding(d.codepoint) + EncodeAll(Codepoints16(u, d.pos))
  {
    assert Codepoints16(u, i)[1..] == Codepoints16(u, DecodeAt16(u, i).value.pos);
  }

  lemma {:induction false} To8Encodes(u: seq<Unit>, i: nat, out: Text)
    requires i <= |u|
    ensures To8From(u, i, out) == if ValidFrom16(u, i) then Some(out + EncodeAll(Codepoints16(u, i))) else None
    decreases |u| - i
  {
    if i < |u| {
      match DecodeAt16(u, i)
      case None =>
      case Some(d) =>
        To8Encodes(u, d.pos, out + Encoding(d.codepoint));
        if ValidFrom16(u, i) {
          var first, rest := Encoding(d.codepoint), EncodeAll(Codepoints16(u, d.pos));
          Next8(u, i);
          assert out + first + rest == out + (first + rest);
        }
    } else {
      assert out + [] == out;
    }
  }

  method Transcode16To8(u: seq<Unit>) returns (r: Option<Text>)
    ensures r == To8(u)
  {
    var pos, out: Text := 0, [];
    while pos < |u|
      invariant pos <= |u|
      invariant To8From(u, pos, out) == To8(u)
      decreases |u| - pos
    {
      var ok, codepoint, next := Decode16(u, pos);
      if !ok {
        return None;
      }
      out := Encode(out, codepoint);
      pos := next;
    }
    r := Some(out);
  }

  /** Transcoding to UTF-16 succeeds exactly on well-formed strings, and transcoding back
      is then the identity. */
  lemma TranscodingRoundTrip(s: Text)
    ensures To16(s).Some? <==> WellFormed(s)
    ensures WellFormed(s) ==> To8(To16(s).value) == Some(s)
  {
    ValidIffWellFormed(s);
    To16Encodes(s, 0, []);
    if ValidFrom(s, 0) {
      var cps := Codepoints(s, 0);
      To8Encodes(EncodeAll16(cps), 0, []);
      EncodedIsValid16(EncodeAll16(cps), 0, cps);
      CodepointsEncode(s, 0);
      assert [] + EncodeAll16(cps) == EncodeAll16(cps) && [] + EncodeAll(cps) == s;
    }
  }

  /** The same starting from UTF-16: what decodes comes back. */
  lemma TranscodingRoundTrip16(u: seq<Unit>)
    ensures To8(u).Some? <==> WellFormed16(u)
    ensures WellFormed16(u) ==> To16(To8(u).value) == Some(u)
  {
    hide To8From, To16From, DecodeAt16, Encoding16;
    if WellFormed16(u) {
      var cps: seq<nat> :| AllScalar(cps) && u == EncodeAll16(cps);
      EncodedIsValid16(u, 0, cps);
    }
    To8Encodes(u, 0, []);
    if ValidFrom16(u, 0) {
      var cps := Codepoints16(u, 0);
      To16Encodes(EncodeAll(cps), 0, []);
      EncodedIsValid(EncodeAll(cps), 0, cps);
      CodepointsEncode16(u, 0);
      assert [] + EncodeAll(cps) == EncodeAll(cps) && [] + EncodeAll16(cps) == u;
    }
  }
}
