/** JSON Pointers: what their text means, as a string and as a URI fragment, and that
    stringifying and parsing undo each other. */
module PointerSpec {
  import opened Bytes
  import opened Utf8
  import opened WriterSpec
  import Bits
  import Codec
  import ReaderSpec

  const UNDERSCORE: Byte := 0x5F
  const UPPER_Z: Byte := 0x5A
  const LOWER_Z: Byte := 0x7A
  const INVALID_INDEX := 0xFFFF_FFFF
  const TWO_TO_32 := 0x1_0000_0000

  /** A name and the array index it stands for, INVALID_INDEX if none. */
  datatype Token = Token(name: Text, index: nat)

  datatype Fault = MustBeginWithSolidus | InvalidEscape | InvalidPercentEncoding | CharacterMustPercentEncode

  datatype Parsed = Tokens(tokens: seq<Token>) | Rejected(fault: Fault, offset: nat)

  /** Everything but the unreserved characters of section 2.3 of RFC 3986. */
  predicate NeedPercentEncode(c: Byte) {
    !(IsDigit(c) || UPPER_A <= c <= UPPER_Z || LOWER_A <= c <= LOWER_Z
      || c == MINUS || c == DOT || c == UNDERSCORE || c == TILDE)
  }

  // ---------- array indices ----------

  predicate AllDigits(name: Text) {
    forall k :: 0 <= k < |name| ==> IsDigit(name[k])
  }

  /** Digits only, and no leading zero. */
  predicate IsNumeric(name: Text) {
    name != [] && AllDigits(name) && (|name| > 1 ==> name[0] != DIGIT_0)
  }

  /** The 32-bit accumulation of the digits from k on; None where it shrinks. */
  function Accumulate(name: Text, k: nat, n: nat): (r: Option<nat>)
    requires k <= |name| && AllDigits(name) && n < TWO_TO_32
    ensures r.Some? ==> r.value < TWO_TO_32
    decreases |name| - k
  {
    if k == |name| then Some(n)
    else
      var m := (n * 10 + (name[k] - DIGIT_0)) % TWO_TO_32;
      if m < n then None else Accumulate(name, k + 1, m)
  }

  function IndexOf(name: Text): nat {
    if !IsNumeric(name) then INVALID_INDEX
    else
      match Accumulate(name, 0, 0)
      case None => INVALID_INDEX
      case Some(n) => n
  }

  // ---------- parsing ----------

  /** The byte that a %XY triplet at i stands for. */
  function Triplet(s: Text, i: nat): (r: Option<Byte>)
    ensures r.Some? ==> i + 3 <= |s|
  {
    if Peek(s, i) != PERCENT || i + 3 > |s| then None
    else
      match (ReaderSpec.HexDigit(s[i + 1]), ReaderSpec.HexDigit(s[i + 2]))
      case (Some(high), Some(low)) => Some(16 * high + low)
      case _ => None
  }

  /** The bytes of consecutive triplets from i on. */
  function Triplets(s: Text, i: nat): (r: Text)
    ensures r != [] ==> i + 3 * |r| <= |s|
    decreases |s| - i
  {
    match Triplet(s, i)
    case None => []
    case Some(b) => [b] + Triplets(s, i + 3)
  }

  /** What one step of the inner loop reads: some bytes of the name, and where it stops. */
  datatype Piece = Piece(bytes: Text, pos: nat) | Bad(fault: Fault, offset: nat)

  /** `~0` and `~1`; `j` is the position after the character c. */
  function Unescape(s: Text, c: Byte, j: nat): (r: Piece)
    requires j <= |s|
    ensures r.Piece? ==> |r.bytes| == 1 && j <= r.pos <= |s|
  {
    if c != TILDE then Piece([c], j)
    else if Peek(s, j) == DIGIT_0 && j < |s| then Piece([TILDE], j + 1)
    else if Peek(s, j) == DIGIT_1 && j < |s| then Piece([SLASH], j + 1)
    else Bad(InvalidEscape, j)
  }

  function NextPiece(s: Text, i: nat, fragment: bool): (r: Piece)
    requires i < |s|
    ensures r.Piece? ==> i < r.pos <= |s| && 0 < |r.bytes| <= r.pos - i
  {
    if fragment && s[i] == PERCENT then PercentPiece(s, i)
    else if fragment && NeedPercentEncode(s[i]) then Bad(CharacterMustPercentEncode, i)
    else Unescape(s, s[i], i + 1)
  }

  /** A percent-encoded UTF-8 sequence; one that is a single byte may still begin an escape. */
  function PercentPiece(s: Text, i: nat): (r: Piece)
    requires i < |s|
    ensures r.Piece? ==> i + 3 <= r.pos <= |s| && 0 < |r.bytes| <= r.pos - i
  {
    var t := Triplets(s, i);
    if t == [] then Bad(InvalidPercentEncoding, i)
    else
      match DecodeAt(t, 0)
      case None => Bad(InvalidPercentEncoding, i)
      case Some(u) => if u.pos > 1 then Piece(t[..u.pos], i + 3 * u.pos) else Unescape(s, t[0], i + 3)
  }

  predicate AtSolidusOrEnd(s: Text, i: nat) {
    i == |s| || (i < |s| && s[i] == SLASH)
  }

  /** A name from i to the next solidus or the end, after the bytes already read. */
  function NameAt(s: Text, i: nat, fragment: bool, read: Text): (r: Piece)
    requires i <= |s|
    ensures r.Piece? ==> i <= r.pos && AtSolidusOrEnd(s, r.pos)
    decreases |s| - i
  {
    if AtSolidusOrEnd(s, i) then Piece(read, i)
    else
      match NextPiece(s, i, fragment)
      case Bad(fault, offset) => Bad(fault, offset)
      case Piece(bytes, j) => NameAt(s, j, fragment, read + bytes)
  }

  function TokensFrom(s: Text, i: nat, fragment: bool, read: seq<Token>): Parsed
    requires AtSolidusOrEnd(s, i)
    decreases |s| - i
  {
    if i == |s| then Tokens(read)
    else
      match NameAt(s, i + 1, fragment, [])
      case Bad(fault, offset) => Rejected(fault, offset)
      case Piece(name, j) => TokensFrom(s, j, fragment, read + [Token(name, IndexOf(name))])
  }

  predicate IsFragment(s: Text) {
    Peek(s, 0) == HASH
  }

  function Parse(s: Text): Parsed {
    var i := if IsFragment(s) then 1 else 0;
    if !AtSolidusOrEnd(s, i) then Rejected(MustBeginWithSolidus, i)
    else TokensFrom(s, i, IsFragment(s), [])
  }

  // ---------- stringifying ----------

  function PercentText(bytes: Text): Text {
    if bytes == [] then []
    else [PERCENT, HexLetter(bytes[0] / 16), HexLetter(bytes[0] % 16)] + PercentText(bytes[1..])
  }

  /** The text of a name from byte k on; None when a fragment meets bytes that are not UTF-8. */
  function NameText(fragment: bool, name: Text, k: nat): (r: Option<Text>)
    requires k <= |name|
    ensures !fragment ==> r.Some?
    decreases |name| - k
  {
    if k == |name| then Some([])
    else if name[k] == TILDE then Prepended([TILDE, DIGIT_0], NameText(fragment, name, k + 1))
    else if name[k] == SLASH then Prepended([TILDE, DIGIT_1], NameText(fragment, name, k + 1))
    else if fragment && NeedPercentEncode(name[k]) then
      match DecodeAt(name, k)
      case None => None
      case Some(u) => Prepended(PercentText(name[k..u.pos]), NameText(fragment, name, u.pos))
    else Prepended([name[k]], NameText(fragment, name, k + 1))
  }

  function TokensText(fragment: bool, tokens: seq<Token>): (r: Option<Text>)
    ensures !fragment ==> r.Some?
  {
    if tokens == [] then Some([])
    else
      match NameText(fragment, tokens[0].name, 0)
      case None => None
      case Some(t) => Prepended([SLASH] + t, TokensText(fragment, tokens[1..]))
  }

  function Stringify(fragment: bool, tokens: seq<Token>): (r: Option<Text>)
    ensures !fragment ==> r.Some?
  {
    Prepended(if fragment then [HASH] else [], TokensText(fragment, tokens))
  }

  // ---------- the round trip ----------

  lemma TripletOf(s: Text, i: nat, b: Byte)
    requires Holds(s, i, [PERCENT, HexLetter(b / 16), HexLetter(b % 16)])
    ensures Triplet(s, i) == Some(b)
  {
    var t := [PERCENT, HexLetter(b / 16), HexLetter(b % 16)];
    HoldsPeek(s, i, t, 0);
    HoldsPeek(s, i, t, 1);
    HoldsPeek(s, i, t, 2);
  }

  lemma {:induction false} TripletsOf(s: Text, i: nat, bytes: Text)
    requires Holds(s, i, PercentText(bytes))
    ensures bytes <= Triplets(s, i) && |PercentText(bytes)| == 3 * |bytes|
    decreases |bytes|
  {
    if bytes != [] {
      var t := [PERCENT, HexLetter(bytes[0] / 16), HexLetter(bytes[0] % 16)];
      HoldsSplit(s, i, t, PercentText(bytes[1..]));
      TripletOf(s, i, bytes[0]);
      TripletsOf(s, i + 3, bytes[1..]);
      assert bytes == [bytes[0]] + bytes[1..];
    }
  }

  lemma PercentPieceOf(s: Text, i: nat, name: Text, k: nat)
    requires k < |name| && NeedPercentEncode(name[k]) && DecodeAt(name, k).Some?
    requires var u := DecodeAt(name, k).value; Holds(s, i, PercentText(name[k..u.pos]))
    ensures var u := DecodeAt(name, k).value;
            i < |s| && s[i] == PERCENT && PercentPiece(s, i) == Piece(name[k..u.pos], i + 3 * (u.pos - k))
            && |PercentText(name[k..u.pos])| == 3 * (u.pos - k)
  {
    var u := DecodeAt(name, k).value;
    var bytes, t := name[k..u.pos], Triplets(s, i);
    EncodeInvertsDecode(name, k);
    TripletsOf(s, i, bytes);
    HoldsPeek(s, i, PercentText(bytes), 0);
    assert Holds(t, 0, bytes) by { assert t[..|bytes|] == bytes; }
    DecodeInvertsEncode(t, 0, u.codepoint);
    assert t[0] == bytes[0] == name[k];
  }

  /** What one byte, or one UTF-8 sequence, of a name is written as. */
  function StepText(fragment: bool, name: Text, k: nat): (r: Option<(Text, nat)>)
    requires k < |name|
    ensures r.Some? ==> k < r.value.1 <= |name|
  {
    if name[k] == TILDE then Some(([TILDE, DIGIT_0], k + 1))
    else if name[k] == SLASH then Some(([TILDE, DIGIT_1], k + 1))
    else if fragment && NeedPercentEncode(name[k]) then
      match DecodeAt(name, k)
      case None => None
      case Some(u) => Some((PercentText(name[k..u.pos]), u.pos))
    else Some(([name[k]], k + 1))
  }

  lemma NameSplits(fragment: bool, name: Text, k: nat)
    requires k < |name|
    ensures NameText(fragment, name, k) ==
            match StepText(fragment, name, k)
            case None => None
            case Some(step) => Prepended(step.0, NameText(fragment, name, step.1))
  {
    hide Prepended;
  }

  /** Each step is read back by one turn of the inner loop. */
  lemma StepParses(s: Text, i: nat, fragment: bool, name: Text, k: nat)
    requires k < |name| && StepText(fragment, name, k).Some?
    requires Holds(s, i, StepText(fragment, name, k).value.0)
    ensures var (own, next) := StepText(fragment, name, k).value;
            && !AtSolidusOrEnd(s, i) && i < |s| && own != []
            && NextPiece(s, i, fragment) == Piece(name[k..next], i + |own|)
  {
    hide PercentText, PercentPiece;
    var (own, next) := StepText(fragment, name, k).value;
    if name[k] == TILDE || name[k] == SLASH {
      HoldsPeek(s, i, own, 0);
      HoldsPeek(s, i, own, 1);
    } else if fragment && NeedPercentEncode(name[k]) {
      PercentPieceOf(s, i, name, k);
    } else {
      HoldsPeek(s, i, own, 0);
      assert own == name[k..next];
    }
  }

  lemma {:induction false} NameParses(s: Text, i: nat, fragment: bool, name: Text, k: nat, read: Text, t: Text)
    requires k <= |name| && NameText(fragment, name, k) == Some(t)
    requires Holds(s, i, t) && AtSolidusOrEnd(s, i + |t|)
    ensures NameAt(s, i, fragment, read) == Piece(read + name[k..], i + |t|)
    decreases |name| - k
  {
    hide StepText, NextPiece, NameText;
    if k < |name| {
      NameSplits(fragment, name, k);
      var (own, next) := StepText(fragment, name, k).value;
      var rest := NameText(fragment, name, next).value;
      HoldsSplit(s, i, own, rest);
      StepParses(s, i, fragment, name, k);
      NameParses(s, i + |own|, fragment, name, next, read + name[k..next], rest);
      assert read + name[k..next] + name[next..] == read + name[k..];
    } else {
      NameEnds(fragment, name);
      assert read + [] == read;
    }
  }

  lemma NameEnds(fragment: bool, name: Text)
    ensures NameText(fragment, name, |name|) == Some([])
  {
  }

  predicate Canonical(tokens: seq<Token>) {
    forall k :: 0 <= k < |tokens| ==> tokens[k].index == IndexOf(tokens[k].name)
  }

  /** The text of tokens is empty or starts with a solidus. */
  lemma TokensTextStarts(fragment: bool, tokens: seq<Token>)
    requires TokensText(fragment, tokens).Some?
    ensures var t := TokensText(fragment, tokens).value; (t == [] <==> tokens == []) && (t != [] ==> t[0] == SLASH)
  {
  }

  lemma TokensTextSplits(fragment: bool, tokens: seq<Token>)
    requires tokens != [] && TokensText(fragment, tokens).Some?
    ensures NameText(fragment, tokens[0].name, 0).Some? && TokensText(fragment, tokens[1..]).Some?
    ensures TokensText(fragment, tokens).value ==
            [SLASH] + NameText(fragment, tokens[0].name, 0).value + TokensText(fragment, tokens[1..]).value
  {
    hide NameText;
  }

  /** The parts of a text that starts with a token. */
  lemma FirstToken(s: Text, i: nat, name: Text, rest: Text)
    requires i <= |s| && s[i..] == [SLASH] + name + rest && (rest == [] || rest[0] == SLASH)
    ensures var j := i + 1 + |name|;
            && i < |s| && s[i] == SLASH && j <= |s| && Holds(s, i + 1, name)
            && s[j..] == rest && AtSolidusOrEnd(s, j)
  {
    var j := i + 1 + |name|;
    assert s[i] == s[i..][0];
    assert s[i + 1..j] == s[i..][1..1 + |name|] == name;
    assert s[j..] == s[i..][1 + |name|..] == rest;
    if rest != [] { assert s[j] == s[j..][0]; }
  }

  lemma {:induction false} TokensParse(s: Text, i: nat, fragment: bool, tokens: seq<Token>, read: seq<Token>)
    requires TokensText(fragment, tokens).Some? && Canonical(tokens)
    requires i <= |s| && s[i..] == TokensText(fragment, tokens).value
    ensures AtSolidusOrEnd(s, i) && TokensFrom(s, i, fragment, read) == Tokens(read + tokens)
    decreases |tokens|
  {
    hide TokensText, NameText, NameAt, IndexOf, Holds;
    TokensTextStarts(fragment, tokens);
    if tokens == [] {
      assert read + tokens == read;
    } else {
      TokensTextSplits(fragment, tokens);
      var name, rest := NameText(fragment, tokens[0].name, 0).value, TokensText(fragment, tokens[1..]).value;
      TokensTextStarts(fragment, tokens[1..]);
      FirstToken(s, i, name, rest);
      var j := i + 1 + |name|;
      NameParses(s, i + 1, fragment, tokens[0].name, 0, [], name);
      assert [] + tokens[0].name[0..] == tokens[0].name;
      TokensParse(s, j, fragment, tokens[1..], read + [tokens[0]]);
      assert read + [tokens[0]] + tokens[1..] == read + tokens;
    }
  }

  /** Stringify, then parse: the same tokens, as a string always and as a fragment whenever
      there is one. */
  lemma StringifyParseRoundTrip(fragment: bool, tokens: seq<Token>)
    requires Canonical(tokens) && Stringify(fragment, tokens).Some?
    ensures Parse(Stringify(fragment, tokens).value) == Tokens(tokens)
  {
    hide TokensText, TokensFrom;
    var s, t := Stringify(fragment, tokens).value, TokensText(fragment, tokens).value;
    TokensTextStarts(fragment, tokens);
    assert s[if fragment then 1 else 0..] == t;
    TokensParse(s, if fragment then 1 else 0, fragment, tokens, []);
    assert [] + tokens == tokens;
  }

  lemma {:induction false} TokensAreCanonical(s: Text, i: nat, fragment: bool, read: seq<Token>)
    requires AtSolidusOrEnd(s, i) && Canonical(read)
    ensures TokensFrom(s, i, fragment, read).Tokens? ==> Canonical(TokensFrom(s, i, fragment, read).tokens)
    decreases |s| - i
  {
    hide NameAt, IndexOf;
    if i < |s| {
      match NameAt(s, i + 1, fragment, [])
      case Bad(_, _) =>
      case Piece(name, j) => TokensAreCanonical(s, j, fragment, read + [Token(name, IndexOf(name))]);
    }
  }

  // ---------- which pointers have a fragment form ----------

  lemma {:induction false} NameTextIffValid(name: Text, k: nat)
    requires k <= |name|
    ensures NameText(true, name, k).Some? <==> Codec.ValidFrom(name, k)
    decreases |name| - k
  {
    hide PercentText;
    if k < |name| {
      if name[k] != TILDE && name[k] != SLASH && NeedPercentEncode(name[k]) {
        match DecodeAt(name, k)
        case None =>
        case Some(u) => NameTextIffValid(name, u.pos);
      } else {
        NameTextIffValid(name, k + 1);
      }
    }
  }

  lemma {:induction false} FragmentIffWellFormed(tokens: seq<Token>)
    ensures Stringify(true, tokens).Some? <==>
            forall k :: 0 <= k < |tokens| ==> Codec.WellFormed(tokens[k].name)
  {
    if tokens != [] {
      hide NameText, Codec.WellFormed;
      NameTextIffValid(tokens[0].name, 0);
      Codec.ValidIffWellFormed(tokens[0].name);
      FragmentIffWellFormed(tokens[1..]);
      assert forall k :: 0 < k < |tokens| ==> tokens[k] == tokens[1..][k - 1];
    }
  }

  lemma {:induction false} EncodeAllAppend(cps: seq<nat>, cp: nat)
    requires Codec.AllScalar(cps) && IsScalar(cp)
    ensures Codec.AllScalar(cps + [cp]) && Codec.EncodeAll(cps + [cp]) == Codec.EncodeAll(cps) + Encoding(cp)
  {
    if cps == [] {
      assert [] + [cp] == [cp];
      assert Codec.EncodeAll([cp][1..]) == [];
    } else {
      EncodeAllAppend(cps[1..], cp);
      assert (cps + [cp])[1..] == cps[1..] + [cp];
    }
  }

  lemma WellFormedAppend(s: Text, cp: nat)
    requires Codec.WellFormed(s) && IsScalar(cp)
    ensures Codec.WellFormed(s + Encoding(cp))
  {
    var cps: seq<nat> :| Codec.AllScalar(cps) && s == Codec.EncodeAll(cps);
    EncodeAllAppend(cps, cp);
  }

  /** In a fragment each turn of the inner loop reads one code point. */
  lemma FragmentPiece(s: Text, i: nat) returns (cp: nat)
    requires i < |s| && NextPiece(s, i, true).Piece?
    ensures IsScalar(cp) && NextPiece(s, i, true).bytes == Encoding(cp)
  {
    hide Triplets;
    var r := NextPiece(s, i, true);
    if |r.bytes| > 1 {
      var t := Triplets(s, i);
      EncodeInvertsDecode(t, 0);
      cp := DecodeAt(t, 0).value.codepoint;
      assert t[0..|r.bytes|] == t[..|r.bytes|];
    } else {
      cp := r.bytes[0];
      if s[i] == PERCENT { LoneByte(Triplets(s, i)); }
    }
  }

  lemma LoneByte(t: Text)
    requires t != [] && DecodeAt(t, 0).Some? && DecodeAt(t, 0).value.pos == 1
    ensures t[0] < 0x80
  {
  }

  lemma {:induction false} FragmentNameWellFormed(s: Text, i: nat, read: Text)
    requires i <= |s| && Codec.WellFormed(read) && NameAt(s, i, true, read).Piece?
    ensures Codec.WellFormed(NameAt(s, i, true, read).bytes)
    decreases |s| - i
  {
    hide NextPiece, Codec.WellFormed;
    if !AtSolidusOrEnd(s, i) {
      var cp := FragmentPiece(s, i);
      WellFormedAppend(read, cp);
      FragmentNameWellFormed(s, NextPiece(s, i, true).pos, read + Encoding(cp));
    }
  }

  lemma {:induction false} FragmentTokensWellFormed(s: Text, i: nat, read: seq<Token>)
    requires AtSolidusOrEnd(s, i) && TokensFrom(s, i, true, read).Tokens?
    requires forall k :: 0 <= k < |read| ==> Codec.WellFormed(read[k].name)
    ensures forall t :: t in TokensFrom(s, i, true, read).tokens ==> Codec.WellFormed(t.name)
    decreases |s| - i
  {
    hide NameAt, IndexOf, Codec.WellFormed;
    if i < |s| {
      NothingWellFormed();
      FragmentNameWellFormed(s, i + 1, []);
      var name := NameAt(s, i + 1, true, []);
      FragmentTokensWellFormed(s, name.pos, read + [Token(name.bytes, IndexOf(name.bytes))]);
    }
  }

  lemma NothingWellFormed()
    ensures Codec.WellFormed([])
  {
    assert Codec.AllScalar([]) && Codec.EncodeAll([]) == [];
  }

  /** A pointer read from a fragment can be written as one. */
  lemma FragmentsHaveFragments(s: Text)
    requires IsFragment(s) && Parse(s).Tokens?
    ensures Stringify(true, Parse(s).tokens).Some?
  {
    hide TokensFrom, Stringify, Codec.WellFormed;
    FragmentTokensWellFormed(s, 1, []);
    FragmentIffWellFormed(Parse(s).tokens);
  }

  /** The round trip of any text that parses. */
  lemma ParseStringifyRoundTrip(s: Text)
    requires Parse(s).Tokens?
    ensures var tokens := Parse(s).tokens;
            && Parse(Stringify(false, tokens).value) == Tokens(tokens)
            && (Stringify(true, tokens).Some? ==> Parse(Stringify(true, tokens).value) == Tokens(tokens))
  {
    hide TokensFrom, Stringify;
    var tokens := Parse(s).tokens;
    TokensAreCanonical(s, if IsFragment(s) then 1 else 0, IsFragment(s), []);
    StringifyParseRoundTrip(false, tokens);
    if Stringify(true, tokens).Some? { StringifyParseRoundTrip(true, tokens); }
  }

  // ---------- what an index means ----------

  /** The number that the first k digits of a name denote. */
  function Number(name: Text, k: nat): nat
    requires k <= |name| && AllDigits(name)
  {
    if k == 0 then 0 else Number(name, k - 1) * 10 + (name[k - 1] - DIGIT_0)
  }

  /** The low 32 bits of the number that the first k digits denote: what the sum holds. */
  function Low32(name: Text, k: nat): (n: nat)
    requires k <= |name| && AllDigits(name)
    ensures n < TWO_TO_32
  {
    Number(name, k) % TWO_TO_32
  }

  /** With digit k the sum shrinks: the only sign of overflow that the loop looks for. */
  predicate ShrinksAt(name: Text, k: nat)
    requires k < |name| && AllDigits(name)
  {
    Low32(name, k + 1) < Low32(name, k)
  }

  predicate ShrinksFrom(name: Text, k: nat)
    requires k <= |name| && AllDigits(name)
  {
    exists j :: k <= j < |name| && ShrinksAt(name, j)
  }

  /** Whole multiples do not change a remainder. */
  lemma DropMultiple(q: nat, m: nat, r: nat)
    requires m >= 1
    ensures (m * q + r) % m == r % m
  {
    var whole := r / m;
    assert m * (q + whole) == m * q + m * whole;
    Bits.RemainderUnique(m * q + r, m, q + whole, r % m);
  }

  /** One digit more, of the number or of its remainder. */
  lemma DigitStep(n: nat, m: nat, d: nat)
    requires m >= 1
    ensures (n % m * 10 + d) % m == (n * 10 + d) % m
  {
    var q, r := n / m, n % m;
    assert n == m * q + r;
    TimesTen(m, q);
    DropMultiple(q * 10, m, r * 10 + d);
  }

  lemma TimesTen(m: nat, q: nat)
    ensures m * (q * 10) == m * q * 10
  {
  }

  lemma Low32Step(name: Text, k: nat)
    requires k < |name| && AllDigits(name)
    ensures (Low32(name, k) * 10 + (name[k] - DIGIT_0)) % TWO_TO_32 == Low32(name, k + 1)
  {
    DigitStep(Number(name, k), TWO_TO_32, name[k] - DIGIT_0);
  }

  /** The loop keeps the low 32 bits, and gives up exactly where they shrink. */
  lemma {:induction false} AccumulateExact(name: Text, k: nat)
    requires k <= |name| && AllDigits(name)
    ensures Accumulate(name, k, Low32(name, k)) == if ShrinksFrom(name, k) then None else Some(Low32(name, |name|))
    decreases |name| - k
  {
    hide Low32;
    if k < |name| {
      Low32Step(name, k);
      AccumulateExact(name, k + 1);
      assert ShrinksFrom(name, k) <==> ShrinksAt(name, k) || ShrinksFrom(name, k + 1) by {
        if ShrinksFrom(name, k) {
          var j :| k <= j < |name| && ShrinksAt(name, j);
        }
      }
    }
  }

  /** The index of every numeric name, of any length. */
  lemma IndexOfNumeric(name: Text)
    requires IsNumeric(name)
    ensures IndexOf(name) == if ShrinksFrom(name, 0) then INVALID_INDEX else Low32(name, |name|)
  {
    AccumulateExact(name, 0);
  }

  lemma {:induction false} NumberGrows(name: Text, j: nat, k: nat)
    requires j <= k <= |name| && AllDigits(name)
    ensures Number(name, j) <= Number(name, k)
    decreases k
  {
    if j < k { NumberGrows(name, j, k - 1); }
  }

  /** A numeric name below 2^32 - 1 is its own index; 2^32 - 1 itself is the mark of a name
      without one. */
  lemma IndexExact(name: Text)
    requires IsNumeric(name) && Number(name, |name|) <= INVALID_INDEX
    ensures IndexOf(name) == Number(name, |name|)
    ensures IndexOf(name) != INVALID_INDEX <==> Number(name, |name|) < INVALID_INDEX
  {
    hide Low32, ShrinksAt;
    IndexOfNumeric(name);
    FitsBelow(name, |name|);
    forall j | 0 <= j < |name| ensures !ShrinksAt(name, j) {
      StepGrows(name, j);
    }
  }

  /** Where the whole number fits, so does every part of it. */
  lemma FitsBelow(name: Text, k: nat)
    requires k <= |name| && AllDigits(name) && Number(name, |name|) < TWO_TO_32
    ensures Low32(name, k) == Number(name, k)
  {
    NumberGrows(name, k, |name|);
  }

  lemma StepGrows(name: Text, k: nat)
    requires k < |name| && AllDigits(name) && Number(name, |name|) < TWO_TO_32
    ensures !ShrinksAt(name, k)
  {
    hide Low32;
    FitsBelow(name, k);
    FitsBelow(name, k + 1);
    NumberGrows(name, k, k + 1);
  }

  /** A number that does not fit ought to be only a name. It is exactly when the low 32 bits
      shrink at some digit, or end up as the mark. */
  lemma OverflowNoticedIff(name: Text)
    requires IsNumeric(name) && Number(name, |name|) >= TWO_TO_32
    ensures IndexOf(name) == INVALID_INDEX <==> ShrinksFrom(name, 0) || Low32(name, |name|) == INVALID_INDEX
  {
    IndexOfNumeric(name);
  }

  /** One that does not: ten thousand million becomes an index. */
  lemma OverflowUnnoticed()
    ensures var name := TEN_THOUSAND_MILLION;
            && IsNumeric(name) && Number(name, |name|) == 10_000_000_000
            && !ShrinksFrom(name, 0) && IndexOf(name) == 1_410_065_408
  {
    var name := TEN_THOUSAND_MILLION;
    assert Number(name, 1) == 1 && Number(name, 2) == 10;
    assert Number(name, 3) == 100 && Number(name, 4) == 1_000;
    assert Number(name, 5) == 10_000 && Number(name, 6) == 100_000;
    assert Number(name, 7) == 1_000_000 && Number(name, 8) == 10_000_000;
    assert Number(name, 9) == 100_000_000 && Number(name, 10) == 1_000_000_000;
    IndexOfNumeric(name);
  }

  const TEN_THOUSAND_MILLION: Text :=
    [DIGIT_1, DIGIT_0, DIGIT_0, DIGIT_0, DIGIT_0, DIGIT_0, DIGIT_0, DIGIT_0, DIGIT_0, DIGIT_0, DIGIT_0]
}
