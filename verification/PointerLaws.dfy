/** JSON Pointers as RFC 6901 says them: names by replacing escapes, strings one to one with
    token lists, fragments by percent-decoding, and what each error means. */
module PointerLaws {
  import opened Bytes
  import opened Utf8
  import opened PointerSpec
  import WriterSpec

  // ---------- names, by section 4 of RFC 6901 ----------

  /** Every "~" followed by this digit becomes that byte, from the left. */
  function Replaced(t: Text, digit: Byte, c: Byte): Text {
    if t == [] then []
    else if |t| > 1 && t[0] == 0x7E && t[1] == digit then [c] + Replaced(t[2..], digit, c)
    else [t[0]] + Replaced(t[1..], digit, c)
  }

  /** What the name looks like when only "~1" has been replaced. */
  function HalfWritten(name: Text): Text {
    if name == [] then []
    else (if name[0] == 0x7E then [0x7E, 0x30] else [name[0]]) + HalfWritten(name[1..])
  }

  function Written(name: Text): Text {
    NameText(false, name, 0).value
  }

  lemma {:induction false} NameTextFrom(name: Text, k: nat)
    requires k <= |name|
    ensures NameText(false, name, k) == NameText(false, name[k..], 0)
    ensures k < |name| ==>
              NameText(false, name, k).value ==
              (if name[k] == 0x7E then [0x7E, 0x30] else if name[k] == 0x2F then [0x7E, 0x31] else [name[k]])
              + NameText(false, name, k + 1).value
    decreases |name| - k
  {
    if k < |name| {
      var rest := name[k..];
      NameTextFrom(name, k + 1);
      NameTextSuffix(name, k, 0);
    }
  }

  lemma {:induction false} NameTextSuffix(name: Text, k: nat, j: nat)
    requires k + j <= |name|
    ensures NameText(false, name, k + j) == NameText(false, name[k..], j)
    decreases |name| - k - j
  {
    if k + j < |name| {
      NameTextSuffix(name, k, j + 1);
    }
  }

  /** One byte of a name is written as an escape or as itself. */
  lemma WrittenFirst(name: Text)
    requires name != []
    ensures Written(name) ==
            (if name[0] == 0x7E then [0x7E, 0x30] else if name[0] == 0x2F then [0x7E, 0x31] else [name[0]])
            + Written(name[1..])
  {
    NameTextFrom(name, 0);
    NameTextFrom(name, 1);
  }

  lemma WrittenNothing()
    ensures Written([]) == []
  {
  }

  lemma {:induction false} FirstReplacement(name: Text)
    ensures Replaced(Written(name), 0x31, 0x2F) == HalfWritten(name)
    decreases |name|
  {
    hide Written;
    if name == [] {
      WrittenNothing();
    } else {
      WrittenFirst(name);
      FirstReplacement(name[1..]);
      var rest := Written(name[1..]);
      if name[0] == 0x7E {
        assert ([0x7E, 0x30] + rest)[1..] == [0x30] + rest;
        assert ([0x30] + rest)[1..] == rest;
        assert [0x7E] + ([0x30] + HalfWritten(name[1..])) == [0x7E, 0x30] + HalfWritten(name[1..]);
      } else if name[0] == 0x2F {
        assert ([0x7E, 0x31] + rest)[2..] == rest;
      } else {
        assert ([name[0]] + rest)[1..] == rest;
      }
    }
  }

  lemma {:induction false} SecondReplacement(name: Text)
    ensures Replaced(HalfWritten(name), 0x30, 0x7E) == name
    decreases |name|
  {
    if name != [] {
      SecondReplacement(name[1..]);
      var rest := HalfWritten(name[1..]);
      if name[0] == 0x7E {
        assert ([0x7E, 0x30] + rest)[2..] == rest;
      } else {
        assert ([name[0]] + rest)[1..] == rest;
      }
      assert [name[0]] + name[1..] == name;
    }
  }

  /** The name that a written name stands for: first "~1" becomes "/", then "~0" becomes "~". */
  lemma NameByReplacing(name: Text)
    ensures Replaced(Replaced(Written(name), 0x31, 0x2F), 0x30, 0x7E) == name
    ensures forall k :: 0 <= k < |Written(name)| ==> Written(name)[k] != 0x2F
  {
    hide Written;
    FirstReplacement(name);
    SecondReplacement(name);
    NoSolidus(name);
  }

  lemma {:induction false} NoSolidus(name: Text)
    ensures forall k :: 0 <= k < |Written(name)| ==> Written(name)[k] != 0x2F
    decreases |name|
  {
    hide Written;
    if name == [] {
      WrittenNothing();
    } else {
      WrittenFirst(name);
      NoSolidus(name[1..]);
    }
  }

  // ---------- strings ----------

  lemma WrittenOne(c: Byte)
    ensures Written([c]) == if c == 0x7E then [0x7E, 0x30] else if c == 0x2F then [0x7E, 0x31] else [c]
  {
    hide Written;
    WrittenFirst([c]);
    WrittenNothing();
    assert [c][1..] == [];
  }

  lemma {:induction false} WrittenJoin(a: Text, b: Text)
    ensures Written(a + b) == Written(a) + Written(b)
    decreases |a|
  {
    hide Written;
    if a == [] {
      WrittenNothing();
      assert [] + b == b;
    } else {
      WrittenFirst(a);
      WrittenFirst(a + b);
      assert (a + b)[0] == a[0] && (a + b)[1..] == a[1..] + b;
      WrittenJoin(a[1..], b);
    }
  }

  lemma UnescapeWritten(s: Text, i: nat)
    requires i < |s| && s[i] != SLASH && Unescape(s, s[i], i + 1).Piece?
    ensures var p := Unescape(s, s[i], i + 1); s[i..p.pos] == Written(p.bytes)
  {
    hide Written;
    var p := Unescape(s, s[i], i + 1);
    WrittenOne(p.bytes[0]);
    assert p.bytes == [p.bytes[0]];
    if s[i] == TILDE { assert s[i..i + 2] == [s[i], s[i + 1]]; }
  }

  lemma {:induction false} NameIsWritten(s: Text, i: nat, read: Text)
    requires i <= |s| && NameAt(s, i, false, read).Piece?
    ensures var p := NameAt(s, i, false, read);
            && read <= p.bytes && p.pos <= |s| && s[i..p.pos] == Written(p.bytes[|read|..])
    decreases |s| - i
  {
    hide Written, Unescape;
    if AtSolidusOrEnd(s, i) {
      WrittenNothing();
      assert read[|read|..] == [];
    } else {
      var piece := NextPiece(s, i, false);
      UnescapeWritten(s, i);
      NameIsWritten(s, piece.pos, read + piece.bytes);
      var p := NameAt(s, i, false, read);
      var rest := p.bytes[|read + piece.bytes|..];
      WrittenJoin(piece.bytes, rest);
      assert p.bytes[|read|..] == piece.bytes + rest;
      assert s[i..p.pos] == s[i..piece.pos] + s[piece.pos..p.pos];
    }
  }

  lemma TokensTextFirst(tokens: seq<Token>)
    requires tokens != []
    ensures TokensText(false, tokens).value == [SLASH] + Written(tokens[0].name) + TokensText(false, tokens[1..]).value
  {
  }

  lemma {:induction false} TokensAreWritten(s: Text, i: nat, read: seq<Token>)
    requires AtSolidusOrEnd(s, i) && TokensFrom(s, i, false, read).Tokens?
    ensures var tokens := TokensFrom(s, i, false, read).tokens;
            read <= tokens && s[i..] == TokensText(false, tokens[|read|..]).value
    decreases |s| - i
  {
    hide Written, NameAt, IndexOf, TokensText;
    var tokens := TokensFrom(s, i, false, read).tokens;
    if i == |s| {
      NoTokens();
      assert read[|read|..] == [] && s[i..] == [];
    } else {
      var p := NameAt(s, i + 1, false, []);
      var token := Token(p.bytes, IndexOf(p.bytes));
      NameIsWritten(s, i + 1, []);
      TokensAreWritten(s, p.pos, read + [token]);
      assert tokens[|read|..] == [token] + tokens[|read| + 1..];
      TokensTextFirst(tokens[|read|..]);
      assert tokens[|read|..][1..] == tokens[|read| + 1..];
      assert p.bytes[0..] == p.bytes;
      assert s[i..] == [SLASH] + s[i + 1..p.pos] + s[p.pos..];
    }
  }

  lemma NoTokens()
    ensures TokensText(false, []) == Some([])
  {
  }

  /** A text that is no fragment parses to these tokens exactly when it is the text of these
      tokens and their indices belong to their names. */
  lemma StringFormIff(s: Text, tokens: seq<Token>)
    requires s == [] || s[0] != 0x23
    ensures Parse(s) == Tokens(tokens) <==> Canonical(tokens) && Stringify(false, tokens) == Some(s)
  {
    hide TokensFrom, TokensText;
    if Parse(s) == Tokens(tokens) {
      TokensAreWritten(s, 0, []);
      TokensAreCanonical(s, 0, false, []);
      assert tokens[0..] == tokens && s[0..] == s && [] + s == s;
    }
    if Canonical(tokens) && Stringify(false, tokens) == Some(s) {
      StringifyParseRoundTrip(false, tokens);
    }
  }

  // ---------- fragments ----------

  /** Percent-decoding from position i on: section 2.1 of RFC 3986. */
  function Decoded(s: Text, i: nat): Text
    requires i <= |s|
    decreases |s| - i
  {
    if i == |s| then []
    else
      match Triplet(s, i)
      case Some(b) => [b] + Decoded(s, i + 3)
      case None => [s[i]] + Decoded(s, i + 1)
  }

  /** How many of the triplets from i on stand for a solidus. */
  function EncodedSolidi(s: Text, i: nat): nat
    requires i <= |s|
    decreases |s| - i
  {
    if i == |s| then 0
    else
      match Triplet(s, i)
      case Some(b) => (if b == 0x2F then 1 else 0) + EncodedSolidi(s, i + 3)
      case None => EncodedSolidi(s, i + 1)
  }

  lemma DecodedStep(s: Text, i: nat)
    requires i < |s|
    ensures match Triplet(s, i)
            case Some(b) =>
              && i + 3 <= |s| && Decoded(s, i) == [b] + Decoded(s, i + 3)
              && EncodedSolidi(s, i) == (if b == 0x2F then 1 else 0) + EncodedSolidi(s, i + 3)
            case None => Decoded(s, i) == [s[i]] + Decoded(s, i + 1) && EncodedSolidi(s, i) == EncodedSolidi(s, i + 1)
  {
    hide Triplet;
  }

  lemma TripletsStep(s: Text, i: nat)
    requires Triplets(s, i) != []
    ensures Triplet(s, i) == Some(Triplets(s, i)[0]) && i + 3 <= |s|
    ensures Triplets(s, i) == [Triplets(s, i)[0]] + Triplets(s, i + 3)
  {
    hide Triplet;
  }

  predicate High(t: Text) {
    forall k :: 0 <= k < |t| ==> t[k] >= 0x80
  }

  lemma {:induction false} DecodedTriplets(s: Text, i: nat, n: nat)
    requires i <= |s| && n <= |Triplets(s, i)| && High(Triplets(s, i)[..n])
    ensures i + 3 * n <= |s| && Decoded(s, i) == Triplets(s, i)[..n] + Decoded(s, i + 3 * n)
    ensures EncodedSolidi(s, i) == EncodedSolidi(s, i + 3 * n)
    decreases n
  {
    hide Triplets, Triplet, Decoded, EncodedSolidi;
    if n > 0 {
      TripletsStep(s, i);
      DecodedStep(s, i);
      var t, rest := Triplets(s, i), Triplets(s, i + 3);
      assert t[..n] == [t[0]] + rest[..n - 1];
      HighParts([t[0]], rest[..n - 1]);
      DecodedTriplets(s, i + 3, n - 1);
    } else {
      assert Triplets(s, i)[..0] + Decoded(s, i) == Decoded(s, i);
    }
  }

  lemma HighParts(a: Text, b: Text)
    requires High(a + b)
    ensures High(a) && High(b)
  {
    assert forall k :: 0 <= k < |a| ==> (a + b)[k] == a[k];
    assert forall k :: 0 <= k < |b| ==> (a + b)[|a| + k] == b[k];
  }

  lemma {:induction false} HighWritten(t: Text)
    requires High(t)
    ensures Written(t) == t
    decreases |t|
  {
    hide Written;
    if t == [] {
      WrittenNothing();
    } else {
      WrittenFirst(t);
      HighWritten(t[1..]);
      assert [t[0]] + t[1..] == t;
    }
  }

  lemma SequenceHigh(t: Text)
    requires t != [] && DecodeAt(t, 0).Some?
    ensures var n := DecodeAt(t, 0).value.pos; 1 <= n <= |t| && if n > 1 then High(t[..n]) else t[0] < 0x80
  {
  }

  /** What a piece of a fragment decodes to: its bytes as a string pointer writes them, unless it
      is a triplet for the solidus. */
  lemma PieceDecoded(s: Text, i: nat)
    requires i < |s| && s[i] != SLASH && NextPiece(s, i, true).Piece?
    ensures var p, solidus := NextPiece(s, i, true), Triplet(s, i) == Some(SLASH);
            && (solidus ==> p.bytes == [SLASH])
            && Decoded(s, i) == (if solidus then [SLASH] else Written(p.bytes)) + Decoded(s, p.pos)
            && EncodedSolidi(s, i) == (if solidus then 1 else 0) + EncodedSolidi(s, p.pos)
  {
    hide Written, Triplets, DecodeAt, Decoded, EncodedSolidi;
    var p := NextPiece(s, i, true);
    DecodedStep(s, i);
    if s[i] == PERCENT {
      var t := Triplets(s, i);
      SequenceHigh(t);
      TripletsStep(s, i);
      var n := DecodeAt(t, 0).value.pos;
      if n > 1 {
        DecodedTriplets(s, i, n);
        HighWritten(t[..n]);
        assert t[..n][0] == t[0];
      } else {
        UnescapeDecoded(s, t[0], i + 3);
      }
    } else {
      UnescapeDecoded(s, s[i], i + 1);
    }
  }

  /** A byte of a fragment, or what its triplet stands for, and the digit behind a tilde. */
  lemma UnescapeDecoded(s: Text, c: Byte, j: nat)
    requires j <= |s| && Unescape(s, c, j).Piece?
    ensures var p := Unescape(s, c, j);
            && (c != SLASH ==> [c] + Decoded(s, j) == Written(p.bytes) + Decoded(s, p.pos))
            && (c == SLASH ==> p.bytes == [SLASH] && p.pos == j)
            && EncodedSolidi(s, j) == EncodedSolidi(s, p.pos)
  {
    hide Written, Decoded, EncodedSolidi;
    var p := Unescape(s, c, j);
    assert p.bytes == [p.bytes[0]];
    WrittenOne(p.bytes[0]);
    if c == TILDE {
      DecodedStep(s, j);
      assert [c] + ([s[j]] + Decoded(s, j + 1)) == [c, s[j]] + Decoded(s, j + 1);
    }
  }

  function Solidi(t: Text): nat {
    if t == [] then 0 else (if t[0] == 0x2F then 1 else 0) + Solidi(t[1..])
  }

  lemma {:induction false} SolidiJoin(a: Text, b: Text)
    ensures Solidi(a + b) == Solidi(a) + Solidi(b)
    decreases |a|
  {
    if a == [] {
      assert [] + b == b;
    } else {
      assert (a + b)[0] == a[0] && (a + b)[1..] == a[1..] + b;
      SolidiJoin(a[1..], b);
    }
  }

  lemma {:induction false} NoSolidi(t: Text)
    requires forall k :: 0 <= k < |t| ==> t[k] != 0x2F
    ensures Solidi(t) == 0
    decreases |t|
  {
    if t != [] { NoSolidi(t[1..]); }
  }

  lemma WrittenSolidi(name: Text)
    ensures Solidi(Written(name)) == 0
  {
    hide Written;
    NoSolidus(name);
    NoSolidi(Written(name));
  }

  lemma {:induction false} TokensTextSolidi(tokens: seq<Token>)
    ensures Solidi(TokensText(false, tokens).value) == |tokens|
    decreases |tokens|
  {
    hide Written, TokensText;
    if tokens == [] {
      NoTokens();
    } else {
      TokensTextFirst(tokens);
      var name, rest := Written(tokens[0].name), TokensText(false, tokens[1..]).value;
      WrittenSolidi(tokens[0].name);
      TokensTextSolidi(tokens[1..]);
      SolidiJoin([SLASH] + name, rest);
      SolidiJoin([SLASH], name);
      assert [SLASH][1..] == [];
    }
  }

  /** A name of a fragment, decoded. */
  lemma {:induction false} NameDecoded(s: Text, i: nat, read: Text)
    requires i <= |s| && NameAt(s, i, true, read).Piece?
    ensures var p := NameAt(s, i, true, read);
            && read <= p.bytes && i <= p.pos <= |s| && EncodedSolidi(s, p.pos) <= EncodedSolidi(s, i)
            && (EncodedSolidi(s, i) == EncodedSolidi(s, p.pos) ==>
                  Decoded(s, i) == Written(p.bytes[|read|..]) + Decoded(s, p.pos))
            && Solidi(Decoded(s, i)) == Solidi(Decoded(s, p.pos)) + EncodedSolidi(s, i) - EncodedSolidi(s, p.pos)
    decreases |s| - i
  {
    hide Written, NextPiece, Decoded, EncodedSolidi, Triplet;
    if AtSolidusOrEnd(s, i) {
      WrittenNothing();
      assert read[|read|..] == [] && [] + Decoded(s, i) == Decoded(s, i);
    } else {
      var piece, solidus := NextPiece(s, i, true), Triplet(s, i) == Some(SLASH);
      PieceDecoded(s, i);
      NameDecoded(s, piece.pos, read + piece.bytes);
      var p := NameAt(s, i, true, read);
      var first, rest := if solidus then [SLASH] else Written(piece.bytes), p.bytes[|read + piece.bytes|..];
      WrittenJoin(piece.bytes, rest);
      assert p.bytes[|read|..] == piece.bytes + rest;
      WrittenSolidi(piece.bytes);
      SolidiJoin(first, Decoded(s, piece.pos));
      assert [SLASH][1..] == [];
      var tail := Decoded(s, p.pos);
      assert Written(piece.bytes) + (Written(rest) + tail) == Written(piece.bytes) + Written(rest) + tail;
    }
  }

  lemma {:induction false} TokensDecoded(s: Text, i: nat, read: seq<Token>)
    requires AtSolidusOrEnd(s, i) && TokensFrom(s, i, true, read).Tokens?
    ensures var tokens := TokensFrom(s, i, true, read).tokens;
            && read <= tokens
            && (EncodedSolidi(s, i) == 0 ==> Decoded(s, i) == TokensText(false, tokens[|read|..]).value)
            && Solidi(Decoded(s, i)) == |tokens| - |read| + EncodedSolidi(s, i)
    decreases |s| - i
  {
    hide Written, NameAt, IndexOf, TokensText, Decoded, EncodedSolidi;
    var tokens := TokensFrom(s, i, true, read).tokens;
    if i == |s| {
      NoTokens();
      DecodedEnd(s);
      assert read[|read|..] == [];
    } else {
      var p := NameAt(s, i + 1, true, []);
      var token := Token(p.bytes, IndexOf(p.bytes));
      DecodedStep(s, i);
      NameDecoded(s, i + 1, []);
      TokensDecoded(s, p.pos, read + [token]);
      assert tokens[|read|..] == [token] + tokens[|read| + 1..];
      TokensTextFirst(tokens[|read|..]);
      assert tokens[|read|..][1..] == tokens[|read| + 1..];
      assert p.bytes[0..] == p.bytes;
      SolidiJoin([SLASH], Decoded(s, i + 1));
      assert [SLASH][1..] == [];
      assert [SLASH] + (Written(p.bytes) + Decoded(s, p.pos)) == [SLASH] + Written(p.bytes) + Decoded(s, p.pos);
    }
  }

  lemma DecodedEnd(s: Text)
    ensures Decoded(s, |s|) == [] && EncodedSolidi(s, |s|) == 0
  {
  }

  lemma DecodedStarts(s: Text)
    requires s != [] && s[0] == 0x23 && AtSolidusOrEnd(s, 1)
    ensures Decoded(s, 1) != [] ==> Decoded(s, 1)[0] != 0x23
  {
    if 1 < |s| { DecodedStep(s, 1); }
  }

  /** Section 6 of RFC 6901: a fragment means what its percent-decoded text means as a string. It
      does exactly when no triplet stands for a solidus, which the parser takes into the name. */
  lemma FragmentIffDecoded(s: Text)
    requires s != [] && s[0] == 0x23 && Parse(s).Tokens?
    ensures Parse(Decoded(s, 1)) == Parse(s) <==> EncodedSolidi(s, 1) == 0
  {
    hide TokensFrom, TokensText, Decoded, EncodedSolidi;
    var tokens, t := Parse(s).tokens, Decoded(s, 1);
    TokensDecoded(s, 1, []);
    TokensAreCanonical(s, 1, true, []);
    assert tokens[0..] == tokens;
    DecodedStarts(s);
    TokensTextSolidi(tokens);
    assert [] + t == t;
    StringFormIff(t, tokens);
    assert [] + TokensText(false, tokens).value == TokensText(false, tokens).value;
  }

  const ENCODED_SOLIDUS: Text := [0x23, 0x2F, 0x61, 0x25, 0x32, 0x46, 0x62]

  /** A fragment where it does not: "#/a%2Fb" has the one name "a/b", its decoded text two. */
  lemma EncodedSolidusStays()
    ensures var s := ENCODED_SOLIDUS;
            && Parse(s) == Tokens([Token([0x61, 0x2F, 0x62], INVALID_INDEX)])
            && Decoded(s, 1) == [0x2F, 0x61, 0x2F, 0x62] && EncodedSolidi(s, 1) == 1
  {
    hide NextPiece, Triplet, Triplets;
    var s := ENCODED_SOLIDUS;
    SolidusTriplets();
    SolidusPieces();
    assert Decoded(s, 7) == [] && Decoded(s, 6) == [0x62] && Decoded(s, 3) == [0x2F, 0x62];
    assert Decoded(s, 2) == [0x61, 0x2F, 0x62];
    assert NameAt(s, 7, true, [0x61, 0x2F, 0x62]) == Piece([0x61, 0x2F, 0x62], 7);
    assert NameAt(s, 6, true, [0x61, 0x2F]) == Piece([0x61, 0x2F, 0x62], 7);
    assert NameAt(s, 3, true, [0x61]) == Piece([0x61, 0x2F, 0x62], 7);
    assert NameAt(s, 2, true, []) == Piece([0x61, 0x2F, 0x62], 7);
  }

  lemma SolidusTriplets()
    ensures var s := ENCODED_SOLIDUS;
            && Triplet(s, 3) == Some(0x2F) && Triplet(s, 1) == None && Triplet(s, 2) == None && Triplet(s, 6) == None
            && Triplets(s, 3) == [0x2F]
  {
    assert Triplets(ENCODED_SOLIDUS, 6) == [];
  }

  lemma SolidusPieces()
    ensures var s := ENCODED_SOLIDUS;
            && NextPiece(s, 2, true) == Piece([0x61], 3) && NextPiece(s, 3, true) == Piece([0x2F], 6)
            && NextPiece(s, 6, true) == Piece([0x62], 7)
  {
    hide Triplet, Triplets;
    SolidusTriplets();
  }

  // ---------- errors ----------

  predicate Unreserved(c: Byte) {
    0x30 <= c <= 0x39 || 0x41 <= c <= 0x5A || 0x61 <= c <= 0x7A || c in {0x2D, 0x2E, 0x5F, 0x7E}
  }

  lemma UnreservedIff(c: Byte)
    ensures Unreserved(c) <==> !NeedPercentEncode(c)
  {
  }

  /** What is wrong at the offset that an error reports. */
  ghost predicate WrongAt(s: Text, fragment: bool, fault: Fault, offset: nat) {
    match fault
    case MustBeginWithSolidus => offset < |s| && s[offset] != 0x2F
    case CharacterMustPercentEncode => fragment && offset < |s| && s[offset] !in {0x25, 0x2F} && !Unreserved(s[offset])
    case InvalidPercentEncoding =>
      fragment && offset < |s| && s[offset] == 0x25
      && (Triplets(s, offset) == [] || DecodeAt(Triplets(s, offset), 0) == None)
    case InvalidEscape =>
      && offset <= |s| && !(offset < |s| && s[offset] in {0x30, 0x31})
      && ((offset >= 1 && s[offset - 1] == 0x7E) || (fragment && offset >= 3 && Triplet(s, offset - 3) == Some(0x7E)))
  }

  lemma PieceWrong(s: Text, i: nat, fragment: bool)
    requires i < |s| && s[i] != SLASH && NextPiece(s, i, fragment).Bad?
    ensures var p := NextPiece(s, i, fragment);
            p.fault != MustBeginWithSolidus && WrongAt(s, fragment, p.fault, p.offset)
  {
    hide DecodeAt, Triplet;
    UnreservedIff(s[i]);
    if fragment && s[i] == PERCENT && Triplets(s, i) != [] { TripletsStep(s, i); }
  }

  lemma {:induction false} NameWrong(s: Text, i: nat, fragment: bool, read: Text)
    requires i <= |s| && NameAt(s, i, fragment, read).Bad?
    ensures var p := NameAt(s, i, fragment, read);
            p.fault != MustBeginWithSolidus && WrongAt(s, fragment, p.fault, p.offset)
    decreases |s| - i
  {
    hide NextPiece, WrongAt;
    if NextPiece(s, i, fragment).Bad? {
      PieceWrong(s, i, fragment);
    } else {
      NameWrong(s, NextPiece(s, i, fragment).pos, fragment, read + NextPiece(s, i, fragment).bytes);
    }
  }

  lemma {:induction false} TokensWrong(s: Text, i: nat, fragment: bool, read: seq<Token>)
    requires AtSolidusOrEnd(s, i) && TokensFrom(s, i, fragment, read).Rejected?
    ensures var r := TokensFrom(s, i, fragment, read);
            r.fault != MustBeginWithSolidus && WrongAt(s, fragment, r.fault, r.offset)
    decreases |s| - i
  {
    hide NameAt, WrongAt, IndexOf;
    var p := NameAt(s, i + 1, fragment, []);
    if p.Bad? {
      NameWrong(s, i + 1, fragment, []);
    } else {
      TokensWrong(s, p.pos, fragment, read + [Token(p.bytes, IndexOf(p.bytes))]);
    }
  }

  /** An error names what is wrong at its offset. */
  lemma RejectedFor(s: Text)
    requires Parse(s).Rejected?
    ensures WrongAt(s, IsFragment(s), Parse(s).fault, Parse(s).offset)
    ensures Parse(s).fault == MustBeginWithSolidus <==> !AtSolidusOrEnd(s, if IsFragment(s) then 1 else 0)
  {
    hide TokensFrom;
    var i := if IsFragment(s) then 1 else 0;
    if AtSolidusOrEnd(s, i) { TokensWrong(s, i, IsFragment(s), []); }
  }

  // ---------- what is percent-encoded ----------

  function Percents(t: Text): nat {
    if t == [] then 0 else (if t[0] == 0x25 then 1 else 0) + Percents(t[1..])
  }

  /** The bytes of a name that a fragment must encode. */
  function Reserved(name: Text): nat {
    if name == [] then 0 else (if Unreserved(name[0]) || name[0] == 0x2F then 0 else 1) + Reserved(name[1..])
  }

  lemma {:induction false} PercentsJoin(a: Text, b: Text)
    ensures Percents(a + b) == Percents(a) + Percents(b)
    decreases |a|
  {
    if a == [] {
      assert [] + b == b;
    } else {
      assert (a + b)[0] == a[0] && (a + b)[1..] == a[1..] + b;
      PercentsJoin(a[1..], b);
    }
  }

  lemma {:induction false} ReservedJoin(a: Text, b: Text)
    ensures Reserved(a + b) == Reserved(a) + Reserved(b)
    decreases |a|
  {
    if a == [] {
      assert [] + b == b;
    } else {
      assert (a + b)[0] == a[0] && (a + b)[1..] == a[1..] + b;
      ReservedJoin(a[1..], b);
    }
  }

  lemma TripletPercents(b: Byte)
    ensures Percents([PERCENT, WriterSpec.HexLetter(b / 16), WriterSpec.HexLetter(b % 16)]) == 1
  {
    var t := [PERCENT, WriterSpec.HexLetter(b / 16), WriterSpec.HexLetter(b % 16)];
    assert t[1..] == [t[1], t[2]] && t[1..][1..] == [t[2]] && t[1..][1..][1..] == [];
    assert Percents([t[2]]) == 0;
    assert Percents([t[1], t[2]]) == 0;
  }

  lemma {:induction false} PercentTextPercents(bytes: Text)
    ensures Percents(PercentText(bytes)) == |bytes|
    decreases |bytes|
  {
    if bytes != [] {
      var t := [PERCENT, WriterSpec.HexLetter(bytes[0] / 16), WriterSpec.HexLetter(bytes[0] % 16)];
      TripletPercents(bytes[0]);
      PercentTextPercents(bytes[1..]);
      PercentsJoin(t, PercentText(bytes[1..]));
    }
  }

  lemma {:induction false} HighReserved(t: Text)
    requires High(t)
    ensures Reserved(t) == |t|
    decreases |t|
  {
    if t != [] { HighReserved(t[1..]); }
  }

  lemma StepPercents(name: Text, k: nat)
    requires k < |name| && StepText(true, name, k).Some?
    ensures var (own, next) := StepText(true, name, k).value; Percents(own) == Reserved(name[k..next])
  {
    hide PercentText, DecodeAt;
    var (own, next) := StepText(true, name, k).value;
    UnreservedIff(name[k]);
    if name[k] != TILDE && name[k] != SLASH && NeedPercentEncode(name[k]) {
      PercentTextPercents(name[k..next]);
      SequenceReserved(name, k);
    } else {
      assert name[k..next] == [name[k]] && [name[k]][1..] == [];
      NoPercents(own);
    }
  }

  lemma NoPercents(t: Text)
    requires |t| == 1 || |t| == 2
    requires forall k :: 0 <= k < |t| ==> t[k] != 0x25
    ensures Percents(t) == 0
  {
    if |t| == 2 { NoPercents(t[1..]); } else { assert t[1..] == []; }
  }

  lemma SequenceReserved(name: Text, k: nat)
    requires k < |name| && DecodeAt(name, k).Some? && !Unreserved(name[k]) && name[k] != 0x2F
    ensures var n := DecodeAt(name, k).value.pos; k < n <= |name| && Reserved(name[k..n]) == n - k
  {
    var n := DecodeAt(name, k).value.pos;
    if n == k + 1 {
      assert name[k..n] == [name[k]] && [name[k]][1..] == [];
    } else {
      HighReserved(name[k..n]);
    }
  }

  lemma {:induction false} NamePercents(name: Text, k: nat)
    requires k <= |name| && NameText(true, name, k).Some?
    ensures Percents(NameText(true, name, k).value) == Reserved(name[k..])
    decreases |name| - k
  {
    hide StepText, NameText;
    if k < |name| {
      NameSplits(true, name, k);
      var (own, next) := StepText(true, name, k).value;
      NamePercents(name, next);
      StepPercents(name, k);
      PercentsJoin(own, NameText(true, name, next).value);
      ReservedJoin(name[k..next], name[next..]);
      assert name[k..] == name[k..next] + name[next..];
    } else {
      NameEnds(true, name);
    }
  }

  /** A fragment has one percent sign for each reserved byte of a name, and no others. */
  lemma OnlyReservedEncoded(name: Text)
    requires NameText(true, name, 0).Some?
    ensures Percents(NameText(true, name, 0).value) == Reserved(name)
  {
    hide NameText;
    NamePercents(name, 0);
    assert name[0..] == name;
  }
}
