/** What the writer escapes: the text of a string is the shortest JSON text that denotes it, and
    for an ASCII target the shortest one of ASCII bytes. Its hex digits are capital letters. */
module ShortestStrings {
  import opened Bytes
  import opened Utf8
  import W = WriterSpec
  import S = Syntax

  // ---------- UTF-8 ----------

  /** Bytes from position k on stand one by one. */
  lemma ByteLengths(c: Byte)
    ensures c >= 0x20 && c != 0x22 && c != 0x5C ==> |W.ByteText(c)| == 1
    ensures c in {0x22, 0x5C, 0x08, 0x09, 0x0A, 0x0C, 0x0D} ==> |W.ByteText(c)| == 2
    ensures |W.ByteText(c)| <= 6
  {
  }

  /** What a piece stands for cannot be written in fewer bytes. */
  function Cost(bytes: Text): nat {
    if bytes == [] then 0 else |W.ByteText(bytes[0])| + Cost(bytes[1..])
  }

  lemma {:induction false} CostJoin(a: Text, b: Text)
    ensures Cost(a + b) == Cost(a) + Cost(b)
    decreases |a|
  {
    hide W.ByteText;
    if a == [] {
      assert [] + b == b;
    } else {
      assert (a + b)[0] == a[0] && (a + b)[1..] == a[1..] + b;
      CostJoin(a[1..], b);
    }
  }

  lemma {:induction false} HighCost(bytes: Text)
    requires forall k :: 0 <= k < |bytes| ==> bytes[k] >= 0x80
    ensures Cost(bytes) == |bytes|
    decreases |bytes|
  {
    if bytes != [] {
      ByteLengths(bytes[0]);
      HighCost(bytes[1..]);
    }
  }

  lemma EncodingLength(cp: nat)
    requires cp <= 0x10FFFF
    ensures cp < 0x80 ==> Encoding(cp) == [cp]
    ensures 0x80 <= cp <= 0xFFFF ==> |Encoding(cp)| <= 3
    ensures |Encoding(cp)| <= 4
    ensures cp >= 0x80 ==> forall k :: 0 <= k < |Encoding(cp)| ==> Encoding(cp)[k] >= 0x80
  {
  }

  lemma OneCost(c: Byte)
    ensures Cost([c]) == |W.ByteText(c)|
  {
    assert [c][1..] == [];
  }

  lemma PieceCost(p: S.Piece)
    requires S.PieceOk(p)
    ensures Cost(S.PieceBytes(p)) <= |S.PieceText(p)|
  {
    hide W.ByteText, Encoding, S.HexNumber;
    match p
    case Raw(c) =>
      OneCost(c);
      ByteLengths(c);
    case Short(letter) =>
      OneCost(S.Letter(letter).value);
      ByteLengths(S.Letter(letter).value);
    case Unit(hex) =>
      var cp := S.HexNumber(hex);
      EncodingLength(cp);
      if cp < 0x80 {
        OneCost(cp);
        ByteLengths(cp);
      } else {
        HighCost(Encoding(cp));
      }
    case Pair(high, low) =>
      var cp := 0x10000 + (S.HexNumber(high) - 0xD800) * 0x400 + (S.HexNumber(low) - 0xDC00);
      EncodingLength(cp);
      HighCost(Encoding(cp));
  }

  lemma {:induction false} PiecesCost(pieces: seq<S.Piece>)
    requires S.PiecesOk(pieces)
    ensures Cost(S.PiecesBytes(pieces)) <= |S.PiecesText(pieces)|
    decreases |pieces|
  {
    if pieces != [] {
      hide S.PieceBytes, S.PieceText;
      PieceCost(pieces[0]);
      PiecesCost(pieces[1..]);
      CostJoin(S.PieceBytes(pieces[0]), S.PiecesBytes(pieces[1..]));
    }
  }

  lemma {:induction false} BodyCost(s: Text, k: nat)
    requires k <= |s|
    ensures |W.BodyFrom(false, s, k).value| == Cost(s[k..])
    decreases |s| - k
  {
    hide W.ByteText;
    if k < |s| {
      assert s[k..][0] == s[k] && s[k..][1..] == s[k + 1..];
      BodyCost(s, k + 1);
    }
  }

  /** No JSON string that denotes the same bytes is shorter. */
  lemma Shortest(s: Text, pieces: seq<S.Piece>)
    requires S.PiecesOk(pieces) && S.PiecesBytes(pieces) == s
    ensures W.StringText(false, s).Some? && |W.StringText(false, s).value| <= |S.StringText(pieces)|
  {
    hide W.BodyFrom, S.PiecesText, S.PiecesBytes;
    PiecesCost(pieces);
    BodyCost(s, 0);
    assert s[0..] == s;
  }

  // ---------- ASCII ----------

  predicate Ascii(t: Text) {
    forall k :: 0 <= k < |t| ==> t[k] < 0x80
  }

  /** A lone surrogate is not well-formed UTF-8. */
  lemma SurrogateFails(s: Text, k: nat, cp: nat)
    requires 0xD800 <= cp <= 0xDFFF && k + 3 <= |s| && s[k] == 0xE0 + cp / 4096 && s[k + 1] == 0x80 + cp / 64 % 64
    ensures DecodeAt(s, k) == None
  {
    assert s[k] == 0xED;
    assert s[k + 1] >= 0xA0;
  }

  lemma SurrogateEncoding(cp: nat)
    requires 0xD800 <= cp <= 0xDFFF
    ensures |Encoding(cp)| == 3 && Encoding(cp)[0] == 0xE0 + cp / 4096 && Encoding(cp)[1] == 0x80 + cp / 64 % 64
  {
  }

  lemma EscapeLength(cp: nat)
    requires IsScalar(cp)
    ensures |W.CodepointEscape(cp)| == if cp <= 0xFFFF then 6 else 12
  {
  }

  lemma BodyHigh(s: Text, k: nat)
    requires k < |s| && s[k] >= 0x80 && W.BodyFrom(true, s, k).Some?
    ensures DecodeAt(s, k).Some?
    ensures var u := DecodeAt(s, k).value;
            && u.pos <= |s| && W.BodyFrom(true, s, u.pos).Some?
            && |W.BodyFrom(true, s, k).value| == |W.CodepointEscape(u.codepoint)| + |W.BodyFrom(true, s, u.pos).value|
  {
    hide DecodeAt, W.CodepointEscape;
  }

  lemma BodyLow(s: Text, k: nat)
    requires k < |s| && s[k] < 0x80 && W.BodyFrom(true, s, k).Some?
    ensures W.BodyFrom(true, s, k + 1).Some?
    ensures |W.BodyFrom(true, s, k).value| == |W.ByteText(s[k])| + |W.BodyFrom(true, s, k + 1).value|
  {
    hide DecodeAt, W.CodepointEscape, W.ByteText;
  }

  /** One code point, written by a \\u escape in any JSON text. */
  lemma CodepointStands(s: Text, k: nat, cp: nat, length: nat)
    requires k <= |s| && cp <= 0x10FFFF && Holds(s, k, Encoding(cp)) && W.BodyFrom(true, s, k).Some?
    requires length >= if cp <= 0xFFFF then 6 else 12
    ensures k + |Encoding(cp)| <= |s| && W.BodyFrom(true, s, k + |Encoding(cp)|).Some?
    ensures |W.BodyFrom(true, s, k).value| <= length + |W.BodyFrom(true, s, k + |Encoding(cp)|).value|
  {
    hide W.BodyFrom, DecodeAt, W.CodepointEscape, W.ByteText, Encoding;
    var e := Encoding(cp);
    EncodingLength(cp);
    HoldsPeek(s, k, e, 0);
    if cp < 0x80 {
      BodyLow(s, k);
      ByteLengths(cp);
    } else {
      if 0xD800 <= cp <= 0xDFFF {
        SurrogateEncoding(cp);
        HoldsPeek(s, k, e, 1);
        SurrogateFails(s, k, cp);
        BodyHigh(s, k);
        assert false;
      }
      DecodeInvertsEncode(s, k, cp);
      BodyHigh(s, k);
      EscapeLength(cp);
    }
  }

  lemma PieceStands(s: Text, k: nat, p: S.Piece)
    requires S.PieceOk(p) && Ascii(S.PieceText(p))
    requires k <= |s| && Holds(s, k, S.PieceBytes(p)) && W.BodyFrom(true, s, k).Some?
    ensures k + |S.PieceBytes(p)| <= |s| && W.BodyFrom(true, s, k + |S.PieceBytes(p)|).Some?
    ensures |W.BodyFrom(true, s, k).value| <= |S.PieceText(p)| + |W.BodyFrom(true, s, k + |S.PieceBytes(p)|).value|
  {
    hide W.BodyFrom, W.ByteText, Encoding, S.HexNumber, W.CodepointEscape;
    match p
    case Raw(c) =>
      HoldsPeek(s, k, [c], 0);
      assert S.PieceText(p)[0] == c;
      BodyLow(s, k);
      ByteLengths(c);
    case Short(letter) =>
      HoldsPeek(s, k, [S.Letter(letter).value], 0);
      BodyLow(s, k);
      ByteLengths(s[k]);
    case Unit(hex) =>
      CodepointStands(s, k, S.HexNumber(hex), 6);
    case Pair(high, low) =>
      CodepointStands(s, k, 0x10000 + (S.HexNumber(high) - 0xD800) * 0x400 + (S.HexNumber(low) - 0xDC00), 12);
  }

  lemma {:induction false} PiecesStand(s: Text, k: nat, pieces: seq<S.Piece>)
    requires S.PiecesOk(pieces) && Ascii(S.PiecesText(pieces))
    requires k <= |s| && s[k..] == S.PiecesBytes(pieces) && W.BodyFrom(true, s, k).Some?
    ensures |W.BodyFrom(true, s, k).value| <= |S.PiecesText(pieces)|
    decreases |pieces|
  {
    hide *;
    if pieces == [] {
      NoPieces();
      assert k == |s|;
    } else {
      PiecesFirst(pieces);
      var first, rest := S.PieceBytes(pieces[0]), S.PiecesBytes(pieces[1..]);
      SliceHolds(s, k, first, rest);
      AsciiParts(S.PieceText(pieces[0]), S.PiecesText(pieces[1..]));
      PieceStands(s, k, pieces[0]);
      PiecesStand(s, k + |first|, pieces[1..]);
    }
  }

  lemma NoPieces()
    ensures S.PiecesBytes([]) == [] && S.PiecesText([]) == []
    ensures forall s: Text :: W.BodyFrom(true, s, |s|) == Some([])
  {
  }

  lemma PiecesFirst(pieces: seq<S.Piece>)
    requires pieces != [] && S.PiecesOk(pieces)
    ensures S.PieceOk(pieces[0]) && S.PiecesOk(pieces[1..])
    ensures S.PiecesText(pieces) == S.PieceText(pieces[0]) + S.PiecesText(pieces[1..])
    ensures S.PiecesBytes(pieces) == S.PieceBytes(pieces[0]) + S.PiecesBytes(pieces[1..])
  {
    hide S.PieceBytes, S.PieceText, S.PieceOk;
  }

  lemma SliceHolds(s: Text, k: nat, first: Text, rest: Text)
    requires k <= |s| && s[k..] == first + rest
    ensures k + |first| <= |s| && Holds(s, k, first) && s[k + |first|..] == rest
  {
    assert s[k..k + |first|] == s[k..][..|first|];
    assert s[k + |first|..] == s[k..][|first|..];
  }

  lemma AsciiParts(a: Text, b: Text)
    requires Ascii(a + b)
    ensures Ascii(a) && Ascii(b)
  {
    assert forall k :: 0 <= k < |a| ==> (a + b)[k] == a[k];
    assert forall k :: 0 <= k < |b| ==> (a + b)[|a| + k] == b[k];
  }

  /** No JSON string of ASCII bytes that denotes the same bytes is shorter. */
  lemma ShortestAscii(s: Text, pieces: seq<S.Piece>)
    requires S.PiecesOk(pieces) && S.PiecesBytes(pieces) == s && Ascii(S.PiecesText(pieces))
    requires W.StringText(true, s).Some?
    ensures |W.StringText(true, s).value| <= |S.StringText(pieces)|
  {
    hide W.BodyFrom, S.PiecesText, S.PiecesBytes;
    assert s[0..] == s;
    PiecesStand(s, 0, pieces);
  }

  /** Escapes are written with capital hex digits, each the digit it stands for. */
  lemma CapitalHex(u: nat)
    requires u < 0x10000
    ensures var t := W.UnitEscape(u);
            && |t| == 6 && t[0] == 0x5C && t[1] == 0x75
            && S.IsHex(t[2..]) && S.HexNumber(t[2..]) == u
            && forall k :: 2 <= k < 6 ==> 0x30 <= t[k] <= 0x39 || 0x41 <= t[k] <= 0x46
  {
    var a, b, c, d := u / 4096, u / 256 % 16, u / 16 % 16, u % 16;
    FourDigits(u);
    CapitalLetter(a); CapitalLetter(b); CapitalLetter(c); CapitalLetter(d);
  }

  lemma FourDigits(u: nat)
    requires u < 0x10000
    ensures u == u / 4096 * 4096 + u / 256 % 16 * 256 + u / 16 % 16 * 16 + u % 16 && u / 4096 < 16
  {
    assert u / 256 == u / 4096 * 16 + u / 256 % 16;
    assert u / 16 == u / 256 * 16 + u / 16 % 16;
  }

  lemma CapitalLetter(d: nat)
    requires d < 16
    ensures var c := W.HexLetter(d); S.HexDigit(c) == Some(d) && (0x30 <= c <= 0x39 || 0x41 <= c <= 0x46)
  {
  }
}
