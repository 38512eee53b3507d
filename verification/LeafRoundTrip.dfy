/** Printed strings and numbers are read back: the leaves of the print-parse round trip. */
module LeafRoundTrip {
  import opened Bytes
  import opened Json
  import opened Utf8
  import opened WriterSpec
  import opened ReaderSpec
  import opened Document

  // ---------- strings ----------

  lemma HexLetterReads(d: nat)
    requires d < 16
    ensures HexDigit(HexLetter(d)) == Some(d)
  {
  }

  lemma HexDigitsOf(u: nat)
    requires u < 0x10000
    ensures u == u / 4096 * 4096 + u / 256 % 16 * 256 + u / 16 % 16 * 16 + u % 16 && u / 4096 < 16
  {
    assert u / 256 == u / 4096 * 16 + u / 256 % 16;
    assert u / 16 == u / 256 * 16 + u / 16 % 16;
  }

  lemma UnitParses(s: Text, i: nat, u: nat)
    requires u < 0x10000 && Holds(s, i, UnitEscape(u))
    ensures Peek(s, i) == BACKSLASH && Peek(s, i + 1) == LOWER_U && Hex4(s, i + 2) == Some(u)
    ensures i + 6 <= |s|
  {
    var t := UnitEscape(u);
    HoldsPeek(s, i, t, 0); HoldsPeek(s, i, t, 1); HoldsPeek(s, i, t, 2);
    HoldsPeek(s, i, t, 3); HoldsPeek(s, i, t, 4); HoldsPeek(s, i, t, 5);
    HexLetterReads(u / 4096); HexLetterReads(u / 256 % 16); HexLetterReads(u / 16 % 16); HexLetterReads(u % 16);
    HexDigits(s, i + 2);
    HexDigitsOf(u);
  }

  /** An escaped code point is read back as that code point. */
  lemma CodepointParses(s: Text, i: nat, cp: nat)
    requires IsScalar(cp) && Holds(s, i, CodepointEscape(cp))
    ensures Peek(s, i) == BACKSLASH && Peek(s, i + 1) == LOWER_U
    ensures UnicodeEscape(s, i + 2) == Some(Coded(i + |CodepointEscape(cp)|, cp))
  {
    hide Hex4, Peek, UnicodeEscape;
    if cp <= 0xFFFF {
      UnitParses(s, i, cp);
      UnitReads(s, i, cp);
    } else {
      var v := cp - 0x10000;
      var lead, trail := v / 1024 + 0xD800, v % 1024 + 0xDC00;
      HoldsSplit(s, i, UnitEscape(lead), UnitEscape(trail));
      UnitParses(s, i, lead);
      UnitParses(s, i + 6, trail);
      assert v == v / 1024 * 1024 + v % 1024;
      PairReads(s, i, lead, trail);
    }
  }

  lemma UnitReads(s: Text, i: nat, u: nat)
    requires Hex4(s, i + 2) == Some(u) && !(0xD800 <= u <= 0xDBFF)
    ensures UnicodeEscape(s, i + 2) == Some(Coded(i + 6, u))
  {
  }

  lemma PairReads(s: Text, i: nat, lead: nat, trail: nat)
    requires 0xD800 <= lead <= 0xDBFF && 0xDC00 <= trail <= 0xDFFF
    requires Hex4(s, i + 2) == Some(lead) && Hex4(s, i + 8) == Some(trail)
    requires Peek(s, i + 6) == BACKSLASH && Peek(s, i + 7) == LOWER_U
    ensures UnicodeEscape(s, i + 2) == Some(Coded(i + 12, (lead - 0xD800) * 0x400 + (trail - 0xDC00) + 0x10000))
  {
    hide Hex4, Peek;
    assert Peek(s, i + 2 + 4) == BACKSLASH && Peek(s, i + 2 + 5) == LOWER_U && Hex4(s, i + 2 + 6) == Some(trail);
  }

  /** What one written byte makes of the string body that is being decoded. */
  lemma ByteParses(s: Text, i: nat, c: Byte, acc: Text)
    requires Holds(s, i, ByteText(c))
    ensures StringBody(s, i, acc) == StringBody(s, i + |ByteText(c)|, acc + [c])
  {
    var t := ByteText(c);
    HoldsPeek(s, i, t, 0);
    if EscapeLetter(c) == LOWER_U {
      CodepointParses(s, i, c);
      assert Encoding(c) == [c];
    } else if EscapeLetter(c) != NUL {
      HoldsPeek(s, i, t, 1);
    }
  }

  lemma EscapeParses(s: Text, i: nat, cp: nat, acc: Text)
    requires IsScalar(cp) && Holds(s, i, CodepointEscape(cp))
    ensures StringBody(s, i, acc) == StringBody(s, i + |CodepointEscape(cp)|, acc + Encoding(cp))
  {
    CodepointParses(s, i, cp);
  }

  lemma QuoteParses(s: Text, i: nat, acc: Text)
    requires Holds(s, i, [QUOTE])
    ensures StringBody(s, i, acc) == Some(Scanned(i + 1, acc))
  {
    HoldsPeek(s, i, [QUOTE], 0);
  }

  /** The text of what stands at byte k, and where the next piece starts. */
  function PieceText(ascii: bool, str: Text, k: nat): Text
    requires k < |str|
  {
    if ascii && str[k] >= 0x80 then
      match DecodeAt(str, k)
      case None => []
      case Some(u) => CodepointEscape(u.codepoint)
    else ByteText(str[k])
  }

  function PieceEnd(ascii: bool, str: Text, k: nat): (n: nat)
    requires k < |str|
    ensures k < n <= |str|
  {
    if ascii && str[k] >= 0x80 && DecodeAt(str, k).Some? then DecodeAt(str, k).value.pos else k + 1
  }

  lemma BodyUnfold(ascii: bool, str: Text, k: nat)
    requires k <= |str| && BodyFrom(ascii, str, k).Some?
    ensures k == |str| ==> BodyFrom(ascii, str, k).value == []
    ensures k < |str| ==>
              var n := PieceEnd(ascii, str, k);
              && BodyFrom(ascii, str, n).Some?
              && BodyFrom(ascii, str, k).value == PieceText(ascii, str, k) + BodyFrom(ascii, str, n).value
  {
  }

  lemma NextDecodes(ascii: bool, str: Text, k: nat)
    requires k < |str| && BodyFrom(ascii, str, k).Some? && ascii && str[k] >= 0x80
    ensures DecodeAt(str, k).Some?
  {
    hide DecodeAt;
  }

  lemma PieceParses(ascii: bool, str: Text, k: nat, s: Text, i: nat, acc: Text)
    requires k < |str| && BodyFrom(ascii, str, k).Some? && Holds(s, i, PieceText(ascii, str, k))
    ensures var n := PieceEnd(ascii, str, k);
            StringBody(s, i, acc) == StringBody(s, i + |PieceText(ascii, str, k)|, acc + str[k..n])
  {
    hide StringBody, DecodeAt, CodepointEscape, ByteText;
    if ascii && str[k] >= 0x80 {
      NextDecodes(ascii, str, k);
      EncodeInvertsDecode(str, k);
      EscapeParses(s, i, DecodeAt(str, k).value.codepoint, acc);
    } else {
      ByteParses(s, i, str[k], acc);
      assert str[k..k + 1] == [str[k]];
    }
  }

  lemma {:induction false} BodyParses(ascii: bool, str: Text, k: nat, s: Text, i: nat, acc: Text)
    requires k <= |str| && BodyFrom(ascii, str, k).Some?
    requires Holds(s, i, BodyFrom(ascii, str, k).value + [QUOTE])
    ensures StringBody(s, i, acc) ==
            Some(Scanned(i + |BodyFrom(ascii, str, k).value| + 1, acc + str[k..]))
    decreases |str| - k
  {
    hide *;
    BodyUnfold(ascii, str, k);
    var body := BodyFrom(ascii, str, k).value;
    if k == |str| {
      assert body + [QUOTE] == [QUOTE];
      QuoteParses(s, i, acc);
      assert acc + str[k..] == acc;
    } else {
      var n, piece := PieceEnd(ascii, str, k), PieceText(ascii, str, k);
      var rest := BodyFrom(ascii, str, n).value;
      assert body + [QUOTE] == piece + (rest + [QUOTE]);
      HoldsSplit(s, i, piece, rest + [QUOTE]);
      PieceParses(ascii, str, k, s, i, acc);
      BodyParses(ascii, str, n, s, i + |piece|, acc + str[k..n]);
      assert acc + str[k..n] + str[n..] == acc + str[k..];
    }
  }

  /** A printed string is read back, as a name or as a value. */
  lemma StringParses(ascii: bool, str: Text, s: Text, c: Cursor, isKey: bool)
    requires StringText(ascii, str).Some? && Holds(s, c.pos, StringText(ascii, str).value)
    ensures c.pos < |s| && Peek(s, c.pos) == QUOTE
    ensures StringAt(s, c, isKey) ==
            Some(Emit(c, c.pos + |StringText(ascii, str).value|, if isKey then OnKey(str) else OnString(str)))
  {
    hide BodyFrom, StringBody;
    var body := BodyFrom(ascii, str, 0).value;
    assert [QUOTE] + body + [QUOTE] == [QUOTE] + (body + [QUOTE]);
    HoldsSplit(s, c.pos, [QUOTE], body + [QUOTE]);
    HoldsPeek(s, c.pos, [QUOTE], 0);
    BodyParses(ascii, str, 0, s, c.pos + 1, []);
    assert [] + str[0..] == str;
  }

  // ---------- integers ----------

  /** Bytes that cannot continue a number. */
  predicate Stops(c: Byte) {
    !IsDigit(c) && c != DOT && !IsExponentMark(c)
  }

  lemma {:induction false} DigitsShape(n: nat)
    ensures forall k :: 0 <= k < |Digits(n)| ==> IsDigit(Digits(n)[k])
    ensures if n == 0 then Digits(n) == [DIGIT_0] else Digits(n)[0] != DIGIT_0
  {
    if n >= 10 {
      DigitsShape(n / 10);
    }
  }

  lemma {:induction false} DigitsReach(s: Text, i: nat, j: nat)
    requires i <= j <= |s| && !IsDigit(Peek(s, j))
    requires forall k :: i <= k < j ==> IsDigit(s[k])
    ensures DigitsEnd(s, i) == j
    decreases j - i
  {
    if i < j {
      assert IsDigit(s[i]);
      DigitsReach(s, i + 1, j);
    }
  }

  lemma HoldsDigits(s: Text, i: nat, n: nat)
    requires Holds(s, i, Digits(n))
    ensures forall k :: i <= k < i + |Digits(n)| ==> IsDigit(s[k])
  {
    DigitsShape(n);
    forall k | i <= k < i + |Digits(n)| ensures IsDigit(s[k]) {
      HoldsPeek(s, i, Digits(n), k - i);
    }
  }

  lemma {:induction false} DecimalOfDigits(s: Text, i: nat, n: nat)
    requires Holds(s, i, Digits(n))
    requires forall k :: i <= k < i + |Digits(n)| ==> IsDigit(s[k])
    ensures Decimal(s, i, i + |Digits(n)|) == n
  {
    var last := |Digits(n)| - 1;
    HoldsPeek(s, i, Digits(n), last);
    if n >= 10 {
      HoldsSplit(s, i, Digits(n / 10), [DIGIT_0 + n % 10]);
      DecimalOfDigits(s, i, n / 10);
    } else {
      assert Decimal(s, i, i) == 0;
    }
  }

  lemma MagnitudeParses(s: Text, i: nat, n: nat)
    requires Holds(s, i, Digits(n)) && Stops(Peek(s, i + |Digits(n)|))
    ensures forall k :: i <= k < i + |Digits(n)| ==> IsDigit(s[k])
    ensures IntegerEnd(s, i) == Some(i + |Digits(n)|)
    ensures Decimal(s, i, i + |Digits(n)|) == n
    ensures Peek(s, i) != MINUS
  {
    HoldsDigits(s, i, n);
    DigitsShape(n);
    HoldsPeek(s, i, Digits(n), 0);
    DigitsReach(s, i, i + |Digits(n)|);
    DecimalOfDigits(s, i, n);
  }

  /** A printed integer of 64 bits is read back exactly, by the event of its range. */
  lemma IntegerParses(f: Flags, s: Text, i: nat, n: int)
    requires INT64_MIN <= n <= UINT64_MAX
    requires Holds(s, i, IntegerText(n)) && Stops(Peek(s, i + |IntegerText(n)|))
    ensures Number(f, s, i) == Some(Literal(i + |IntegerText(n)|, NumberEvent(FromText, n)))
  {
    hide *;
    IntegerShape(n);
    if n < 0 {
      HoldsSplit(s, i, [MINUS], Digits(-n));
      HoldsPeek(s, i, [MINUS], 0);
      MagnitudeParses(s, i + 1, -n);
      NumberEndsAt(f, s, i, true, i + 1 + |Digits(-n)|);
    } else {
      MagnitudeParses(s, i, n);
      NumberEndsAt(f, s, i, false, i + |Digits(n)|);
    }
  }

  lemma IntegerShape(n: int)
    requires INT64_MIN <= n <= UINT64_MAX
    ensures n < 0 ==> IntegerText(n) == [MINUS] + Digits(-n) && IntegerEvent(true, -n) == Some(NumberEvent(FromText, n))
    ensures n >= 0 ==> IntegerText(n) == Digits(n) && IntegerEvent(false, n) == Some(NumberEvent(FromText, n))
  {
  }

  /** A literal that ends with its integer part. */
  lemma NumberEndsAt(f: Flags, s: Text, i: nat, minus: bool, j: nat)
    requires i <= |s| && (minus <==> Peek(s, i) == MINUS)
    requires var start := if minus then i + 1 else i;
             && start <= j <= |s| && IntegerEnd(s, start) == Some(j) && Stops(Peek(s, j))
             && (forall k :: start <= k < j ==> IsDigit(s[k]))
             && IntegerEvent(minus, Decimal(s, start, j)).Some?
    ensures Number(f, s, i) ==
            Some(Literal(j, IntegerEvent(minus, Decimal(s, if minus then i + 1 else i, j)).value))
  {
    hide IntegerEnd, Decimal, IntegerEvent;
  }

  /** The integer that an event carries. */
  function Carried(e: Event): Option<int> {
    match e
    case OnInt(i) => Some(i)
    case OnUint(i) => Some(i)
    case OnInt64(i) => Some(i)
    case OnUint64(i) => Some(i)
    case _ => None
  }

  /** An integer literal of any length: the event carries exactly its value, in the narrowest
      of the types for its sign, precisely when one of the 64-bit types can hold it; otherwise
      it is a double. */
  lemma IntegerLiteralExact(f: Flags, s: Text, i: nat)
    requires i <= |s| && Number(f, s, i).Some?
    requires var start := if Peek(s, i) == MINUS then i + 1 else i;
             IntegerEnd(s, start) == Some(Number(f, s, i).value.pos)
    ensures var minus, j, e := Peek(s, i) == MINUS, Number(f, s, i).value.pos, Number(f, s, i).value.event;
            var start := if minus then i + 1 else i;
            && (forall k :: start <= k < j ==> IsDigit(s[k]))
            && var n := if minus then -(Decimal(s, start, j) as int) else Decimal(s, start, j);
            && (Carried(e) == Some(n) <==> INT64_MIN <= n <= UINT64_MAX)
            && (Carried(e).None? <==> e.OnDouble?)
            && (Carried(e).Some? ==> InWidth(e) && Carried(e) == Some(n))
            && (e.OnInt64? ==> n < INT32_MIN) && (e.OnUint64? ==> n > UINT32_MAX)
  {
    hide Decimal, IntegerEnd, FractionEnd, ExponentEnd;
    IntegerEndIsDigits(s, if Peek(s, i) == MINUS then i + 1 else i);
  }
}
