/** What GenericReader accepts and which events it emits, as functions of the text:
    the leaves both parsers share, the recursive-descent grammar and the table-driven
    automaton. A Cursor is a stream position together with the events sent so far. */
module ReaderSpec {
  import opened Bytes
  import opened Json
  import Utf8

  /** The parse flags that change acceptance, and the conversion of a number literal to a
      double (None when the magnitude overflows), which is not modelled further. */
  datatype Flags = Flags(comments: bool, trailingCommas: bool, stopWhenDone: bool,
                         toDouble: Text -> Option<real>)

  datatype Cursor = Cursor(pos: nat, out: seq<Event>)

  function Emit(c: Cursor, pos: nat, e: Event): Cursor {
    Cursor(pos, c.out + [e])
  }

  // ---------- white space and comments ----------

  function SkipSpaces(s: Text, i: nat): (r: nat)
    requires i <= |s|
    ensures i <= r <= |s|
    decreases |s| - i
  {
    if IsSpace(Peek(s, i)) then SkipSpaces(s, i + 1) else i
  }

  /** Position after the closing star-slash of a block comment whose body starts at i. */
  function BlockEnd(s: Text, i: nat): (r: Option<nat>)
    requires i <= |s|
    ensures r.Some? ==> i < r.value <= |s|
    decreases |s| - i
  {
    if Peek(s, i) == NUL then None
    else if Peek(s, i) == STAR && Peek(s, i + 1) == SLASH then Some(i + 2)
    else BlockEnd(s, i + 1)
  }

  function LineEnd(s: Text, i: nat): (r: nat)
    requires i <= |s|
    ensures i <= r <= |s|
    decreases |s| - i
  {
    if Peek(s, i) == NUL then i
    else if Peek(s, i) == LINE_FEED then i + 1
    else LineEnd(s, i + 1)
  }

  function SkipComments(s: Text, i: nat): (r: Option<nat>)
    requires i <= |s|
    ensures r.Some? ==> i <= r.value <= |s|
    decreases |s| - i
  {
    if Peek(s, i) != SLASH then Some(i)
    else if Peek(s, i + 1) == STAR then
      match BlockEnd(s, i + 2)
      case None => None
      case Some(j) => SkipComments(s, SkipSpaces(s, j))
    else if Peek(s, i + 1) == SLASH then
      SkipComments(s, SkipSpaces(s, LineEnd(s, i + 2)))
    else None
  }

  function Skip(f: Flags, s: Text, i: nat): (r: Option<nat>)
    requires i <= |s|
    ensures r.Some? ==> i <= r.value <= |s|
  {
    if f.comments then SkipComments(s, SkipSpaces(s, i)) else Some(SkipSpaces(s, i))
  }

  // ---------- strings ----------

  /** The byte that a one-letter escape stands for; 0 when there is none. */
  function Unescape(e: Byte): Byte {
    if e == QUOTE then QUOTE
    else if e == SLASH then SLASH
    else if e == BACKSLASH then BACKSLASH
    else if e == LOWER_B then BACKSPACE
    else if e == LOWER_F then FORM_FEED
    else if e == LOWER_N then LINE_FEED
    else if e == LOWER_R then CARRIAGE_RETURN
    else if e == LOWER_T then TAB
    else NUL
  }

  function HexDigit(c: Byte): (r: Option<nat>)
    ensures r.Some? ==> r.value < 16 && c != NUL
  {
    if IsDigit(c) then Some(c - DIGIT_0)
    else if 0x41 <= c <= 0x46 then Some(c - UPPER_A + 10)
    else if 0x61 <= c <= 0x66 then Some(c - LOWER_A + 10)
    else None
  }

  /** The number that n hex digits from i denote; None if one of them is not a hex digit. */
  function HexValue(s: Text, i: nat, n: nat): (r: Option<nat>)
    ensures r.Some? && n > 0 ==> i + n <= |s|
  {
    if n == 0 then Some(0) else
    match HexValue(s, i, n - 1)
    case None => None
    case Some(high) =>
      match HexDigit(Peek(s, i + n - 1))
      case None => None
      case Some(d) => Some(high * 16 + d)
  }

  function Hex4(s: Text, i: nat): (r: Option<nat>)
    ensures r.Some? ==> r.value < 0x10000 && i + 4 <= |s|
  {
    HexDigits(s, i);
    HexValue(s, i, 4)
  }

  /** Four hex digits, written out. */
  lemma HexDigits(s: Text, i: nat)
    ensures HexValue(s, i, 4) ==
            var a, b, c, d := HexDigit(Peek(s, i)), HexDigit(Peek(s, i + 1)),
                              HexDigit(Peek(s, i + 2)), HexDigit(Peek(s, i + 3));
            if a.Some? && b.Some? && c.Some? && d.Some? then
              Some(a.value * 4096 + b.value * 256 + c.value * 16 + d.value)
            else None
  {
    assert HexValue(s, i, 1) == HexDigit(Peek(s, i));
    assert HexValue(s, i, 2).Some? <==> HexValue(s, i, 1).Some? && HexDigit(Peek(s, i + 1)).Some?;
    assert HexValue(s, i, 3).Some? <==> HexValue(s, i, 2).Some? && HexDigit(Peek(s, i + 2)).Some?;
  }

  /** The code point of a \u escape whose hex digits start at i, with its low surrogate if
      the first unit is a high surrogate. A lone low surrogate is taken as it is. */
  function UnicodeEscape(s: Text, i: nat): (r: Option<Utf8.Coded>)
    ensures r.Some? ==> i + 4 <= r.value.pos <= |s| && r.value.codepoint <= 0x10FFFF
    ensures r.Some? && r.value.codepoint > 0xFFFF ==> i + 10 <= r.value.pos
  {
    match Hex4(s, i)
    case None => None
    case Some(hi) =>
      if 0xD800 <= hi <= 0xDBFF then
        if Peek(s, i + 4) == BACKSLASH && Peek(s, i + 5) == LOWER_U then
          match Hex4(s, i + 6)
          case None => None
          case Some(lo) =>
            if 0xDC00 <= lo <= 0xDFFF then
              Some(Utf8.Coded(i + 10, (hi - 0xD800) * 0x400 + (lo - 0xDC00) + 0x10000))
            else None
        else None
      else Some(Utf8.Coded(i + 4, hi))
  }

  datatype Scanned = Scanned(pos: nat, bytes: Text)

  /** Decodes a string body from i, after the bytes `acc` decoded so far. */
  function StringBody(s: Text, i: nat, acc: Text): (r: Option<Scanned>)
    requires i <= |s|
    ensures r.Some? ==> i < r.value.pos <= |s|
    decreases |s| - i
  {
    var c := Peek(s, i);
    if c == BACKSLASH then
      var e := Peek(s, i + 1);
      if Unescape(e) != NUL then StringBody(s, i + 2, acc + [Unescape(e)])
      else if e == LOWER_U then
        match UnicodeEscape(s, i + 2)
        case None => None
        case Some(u) => StringBody(s, u.pos, acc + Utf8.Encoding(u.codepoint))
      else None
    else if c == QUOTE then Some(Scanned(i + 1, acc))
    else if c < SPACE then None
    else StringBody(s, i + 1, acc + [c])
  }

  // ---------- numbers ----------

  function DigitsEnd(s: Text, i: nat): (r: nat)
    requires i <= |s|
    ensures i <= r <= |s|
    ensures IsDigit(Peek(s, i)) ==> i < r
    decreases |s| - i
  {
    if IsDigit(Peek(s, i)) then DigitsEnd(s, i + 1) else i
  }

  /** The number that s[i..j] denotes in base ten. */
  function Decimal(s: Text, i: nat, j: nat): nat
    requires i <= j <= |s|
    requires forall k :: i <= k < j ==> IsDigit(s[k])
    decreases j - i
  {
    if i == j then 0 else assert IsDigit(s[j - 1]); Decimal(s, i, j - 1) * 10 + (s[j - 1] - DIGIT_0)
  }

  lemma DigitsEndIsDigits(s: Text, i: nat)
    requires i <= |s|
    ensures forall k :: i <= k < DigitsEnd(s, i) ==> IsDigit(s[k])
    ensures !IsDigit(Peek(s, DigitsEnd(s, i)))
    decreases |s| - i
  {
    if IsDigit(Peek(s, i)) { DigitsEndIsDigits(s, i + 1); }
  }

  /** End of the integer part starting at i: a zero, or digits not starting with one. */
  function IntegerEnd(s: Text, i: nat): (r: Option<nat>)
    requires i <= |s|
    ensures r.Some? ==> i < r.value <= |s|
  {
    if Peek(s, i) == DIGIT_0 then Some(i + 1)
    else if IsDigit(Peek(s, i)) then Some(DigitsEnd(s, i))
    else None
  }

  function FractionEnd(s: Text, i: nat): (r: Option<nat>)
    requires i <= |s|
    ensures r.Some? ==> i <= r.value <= |s|
    ensures Peek(s, i) != DOT <==> r == Some(i)
  {
    if Peek(s, i) != DOT then Some(i)
    else if IsDigit(Peek(s, i + 1)) then Some(DigitsEnd(s, i + 1))
    else None
  }

  predicate IsExponentMark(c: Byte) {
    c == LOWER_E || c == UPPER_E
  }

  function ExponentEnd(s: Text, i: nat): (r: Option<nat>)
    requires i <= |s|
    ensures r.Some? ==> i <= r.value <= |s|
    ensures !IsExponentMark(Peek(s, i)) <==> r == Some(i)
  {
    if !IsExponentMark(Peek(s, i)) then Some(i)
    else
      var j := if Peek(s, i + 1) == PLUS || Peek(s, i + 1) == MINUS then i + 2 else i + 1;
      if IsDigit(Peek(s, j)) then Some(DigitsEnd(s, j)) else None
  }

  /** The event of an integer literal of magnitude m: the narrowest of the four integer
      events for its sign, None when it fits in neither 64-bit type. */
  function IntegerEvent(minus: bool, m: nat): Option<Event> {
    if minus then
      if m <= 0x8000_0000 then Some(OnInt(-(m as int)))
      else if m <= 0x8000_0000_0000_0000 then Some(OnInt64(-(m as int)))
      else None
    else
      if m <= 0xFFFF_FFFF then Some(OnUint(m))
      else if m <= 0xFFFF_FFFF_FFFF_FFFF then Some(OnUint64(m))
      else None
  }

  function DoubleEvent(f: Flags, literal: Text): Option<Event> {
    match f.toDouble(literal)
    case None => None
    case Some(d) => Some(OnDouble(d))
  }

  datatype Literal = Literal(pos: nat, event: Event)

  function Number(f: Flags, s: Text, i: nat): (r: Option<Literal>)
    requires i <= |s|
    ensures r.Some? ==> i < r.value.pos <= |s|
  {
    var minus := Peek(s, i) == MINUS;
    var start := if minus then i + 1 else i;
    match IntegerEnd(s, start)
    case None => None
    case Some(j) =>
      match FractionEnd(s, j)
      case None => None
      case Some(k) =>
        match ExponentEnd(s, k)
        case None => None
        case Some(end) =>
          IntegerEndIsDigits(s, start);
          var exact := if end == j then IntegerEvent(minus, Decimal(s, start, j)) else None;
          var event := if exact.Some? then exact else DoubleEvent(f, s[i..end]);
          match event
          case None => None
          case Some(e) => Some(Literal(end, e))
  }

  lemma IntegerEndIsDigits(s: Text, i: nat)
    requires i <= |s| && IntegerEnd(s, i).Some?
    ensures forall k :: i <= k < IntegerEnd(s, i).value ==> IsDigit(s[k])
  {
    DigitsEndIsDigits(s, i);
  }

  // ---------- leaves ----------

  /** A literal word at position i: its first byte is already known to be there. */
  function Word(s: Text, c: Cursor, word: Text, e: Event): Option<Cursor> {
    if Holds(s, c.pos, word) then Some(Emit(c, c.pos + |word|, e)) else None
  }

  /** A string at c, which must show the opening quote, reported as a key or as a value. */
  function StringAt(s: Text, c: Cursor, isKey: bool): (r: Option<Cursor>)
    requires c.pos < |s|
    ensures r.Some? ==> c.pos < r.value.pos <= |s|
  {
    match StringBody(s, c.pos + 1, [])
    case None => None
    case Some(str) => Some(Emit(c, str.pos, if isKey then OnKey(str.bytes) else OnString(str.bytes)))
  }

  function NumberAt(f: Flags, s: Text, c: Cursor): (r: Option<Cursor>)
    requires c.pos <= |s|
    ensures r.Some? ==> c.pos < r.value.pos <= |s|
  {
    match Number(f, s, c.pos)
    case None => None
    case Some(num) => Some(Emit(c, num.pos, num.event))
  }

  /** A value that is neither an object nor an array. */
  function Scalar(f: Flags, s: Text, c: Cursor): (r: Option<Cursor>)
    requires c.pos <= |s|
    ensures r.Some? ==> c.pos < r.value.pos <= |s|
  {
    var b := Peek(s, c.pos);
    if b == LOWER_N then Word(s, c, NULL_WORD, OnNull)
    else if b == LOWER_T then Word(s, c, TRUE_WORD, OnBool(true))
    else if b == LOWER_F then Word(s, c, FALSE_WORD, OnBool(false))
    else if b == QUOTE then StringAt(s, c, false)
    else NumberAt(f, s, c)
  }

  function SkipAt(f: Flags, s: Text, c: Cursor): (r: Option<Cursor>)
    requires c.pos <= |s|
    ensures r.Some? ==> c.pos <= r.value.pos <= |s| && r.value.out == c.out
  {
    match Skip(f, s, c.pos)
    case None => None
    case Some(i) => Some(c.(pos := i))
  }

  function Take(s: Text, c: Cursor): (r: Cursor)
    ensures r.out == c.out && r.pos == c.pos + 1
  {
    c.(pos := c.pos + 1)
  }

  // ---------- recursive descent ----------

  function ParseValue(f: Flags, s: Text, c: Cursor): (r: Option<Cursor>)
    requires c.pos <= |s|
    ensures r.Some? ==> c.pos < r.value.pos <= |s|
    decreases |s| - c.pos, 1
  {
    if Peek(s, c.pos) == LEFT_BRACE then ParseObject(f, s, c)
    else if Peek(s, c.pos) == LEFT_BRACKET then ParseArray(f, s, c)
    else Scalar(f, s, c)
  }

  function ParseObject(f: Flags, s: Text, c: Cursor): (r: Option<Cursor>)
    requires c.pos < |s|
    ensures r.Some? ==> c.pos < r.value.pos <= |s|
    decreases |s| - c.pos, 0
  {
    match SkipAt(f, s, Emit(c, c.pos + 1, OnStartObject))
    case None => None
    case Some(d) =>
      if Peek(s, d.pos) == RIGHT_BRACE then Some(Emit(d, d.pos + 1, OnEndObject(0)))
      else ParseMembers(f, s, d, 0)
  }

  function ParseArray(f: Flags, s: Text, c: Cursor): (r: Option<Cursor>)
    requires c.pos < |s|
    ensures r.Some? ==> c.pos < r.value.pos <= |s|
    decreases |s| - c.pos, 0
  {
    match SkipAt(f, s, Emit(c, c.pos + 1, OnStartArray))
    case None => None
    case Some(d) =>
      if Peek(s, d.pos) == RIGHT_BRACKET then Some(Emit(d, d.pos + 1, OnEndArray(0)))
      else ParseElements(f, s, d, 0)
  }

  /** The colon after a member name, with the space around it. */
  function ParseColon(f: Flags, s: Text, c: Cursor): (r: Option<Cursor>)
    requires c.pos <= |s|
    ensures r.Some? ==> c.pos < r.value.pos <= |s| && r.value.out == c.out
  {
    match SkipAt(f, s, c)
    case None => None
    case Some(d) => if Peek(s, d.pos) == COLON then SkipAt(f, s, Take(s, d)) else None
  }

  /** The members of an object from a name on, after `count` complete members. */
  function ParseMembers(f: Flags, s: Text, c: Cursor, count: nat): (r: Option<Cursor>)
    requires c.pos <= |s|
    ensures r.Some? ==> c.pos < r.value.pos <= |s|
    decreases |s| - c.pos, 2
  {
    if Peek(s, c.pos) != QUOTE then None else
    match StringAt(s, c, true)
    case None => None
    case Some(name) =>
      match ParseColon(f, s, name)
      case None => None
      case Some(at) =>
        match ParseValue(f, s, at)
        case None => None
        case Some(after) => AfterMember(f, s, after, count)
  }

  /** From the end of a member's value to the next name or the closing brace. */
  function AfterMember(f: Flags, s: Text, after: Cursor, count: nat): (r: Option<Cursor>)
    requires after.pos <= |s|
    ensures r.Some? ==> after.pos < r.value.pos <= |s|
    decreases |s| - after.pos, 3
  {
    match SkipAt(f, s, after)
    case None => None
    case Some(d) =>
      if Peek(s, d.pos) == RIGHT_BRACE then Some(Emit(d, d.pos + 1, OnEndObject(count + 1)))
      else if Peek(s, d.pos) == COMMA then
        match SkipAt(f, s, Take(s, d))
        case None => None
        case Some(n) =>
          if f.trailingCommas && Peek(s, n.pos) == RIGHT_BRACE then
            Some(Emit(n, n.pos + 1, OnEndObject(count + 1)))
          else ParseMembers(f, s, n, count + 1)
      else None
  }

  /** The elements of an array from a value on, after `count` complete elements. */
  function ParseElements(f: Flags, s: Text, c: Cursor, count: nat): (r: Option<Cursor>)
    requires c.pos <= |s|
    ensures r.Some? ==> c.pos < r.value.pos <= |s|
    decreases |s| - c.pos, 2
  {
    match ParseValue(f, s, c)
    case None => None
    case Some(after) => AfterElement(f, s, after, count)
  }

  /** From the end of an element to the next element or the closing bracket. */
  function AfterElement(f: Flags, s: Text, after: Cursor, count: nat): (r: Option<Cursor>)
    requires after.pos <= |s|
    ensures r.Some? ==> after.pos < r.value.pos <= |s|
    decreases |s| - after.pos, 3
  {
    match SkipAt(f, s, after)
    case None => None
    case Some(d) =>
      if Peek(s, d.pos) == RIGHT_BRACKET then Some(Emit(d, d.pos + 1, OnEndArray(count + 1)))
      else if Peek(s, d.pos) == COMMA then
        match SkipAt(f, s, Take(s, d))
        case None => None
        case Some(n) =>
          if f.trailingCommas && Peek(s, n.pos) == RIGHT_BRACKET then
            Some(Emit(n, n.pos + 1, OnEndArray(count + 1)))
          else ParseElements(f, s, n, count + 1)
      else None
  }

  /** The whole text, read by recursive descent. */
  function RecursiveParse(f: Flags, s: Text): (r: Option<Cursor>)
    ensures r.Some? ==> r.value.pos <= |s|
  {
    match SkipAt(f, s, Cursor(0, []))
    case None => None
    case Some(c) =>
      if Peek(s, c.pos) == NUL then None else
      match ParseValue(f, s, c)
      case None => None
      case Some(d) =>
        if f.stopWhenDone then Some(d) else
        match SkipAt(f, s, d)
        case None => None
        case Some(e) => if Peek(s, e.pos) == NUL then Some(e) else None
  }

  // ---------- the table-driven automaton ----------

  datatype State =
    | Finish | Error | Start
    | ObjectInitial | MemberKey | MemberValue | ObjectFinish
    | ArrayInitial | Element | ArrayFinish
    | SingleValue
    | ElementDelimiter | MemberDelimiter | KeyValueDelimiter

  datatype Token =
    | LeftBracketToken | RightBracketToken
    | LeftBraceToken | RightBraceToken
    | CommaToken | ColonToken
    | StringToken | FalseToken | TrueToken | NullToken | NumberToken

  function Tokenize(c: Byte): Token {
    if c == LEFT_BRACKET then LeftBracketToken
    else if c == RIGHT_BRACKET then RightBracketToken
    else if c == LEFT_BRACE then LeftBraceToken
    else if c == RIGHT_BRACE then RightBraceToken
    else if c == COMMA then CommaToken
    else if c == COLON then ColonToken
    else if c == QUOTE then StringToken
    else if c == LOWER_F then FalseToken
    else if c == LOWER_T then TrueToken
    else if c == LOWER_N then NullToken
    else NumberToken
  }

  /** The rows of the table for states that expect a value, which goes to `scalar`. */
  function PredictValue(t: Token, scalar: State): State {
    match t
    case LeftBracketToken => ArrayInitial
    case LeftBraceToken => ObjectInitial
    case StringToken => scalar
    case FalseToken => scalar
    case TrueToken => scalar
    case NullToken => scalar
    case NumberToken => scalar
    case _ => Error
  }

  function Predict(state: State, t: Token): State {
    match state
    case Start => PredictValue(t, SingleValue)
    case ObjectInitial =>
      if t == RightBraceToken then ObjectFinish else if t == StringToken then MemberKey else Error
    case MemberKey => if t == ColonToken then KeyValueDelimiter else Error
    case MemberValue =>
      if t == RightBraceToken then ObjectFinish else if t == CommaToken then MemberDelimiter else Error
    case ArrayInitial => if t == RightBracketToken then ArrayFinish else PredictValue(t, Element)
    case Element =>
      if t == RightBracketToken then ArrayFinish else if t == CommaToken then ElementDelimiter else Error
    case ElementDelimiter => if t == RightBracketToken then ArrayFinish else PredictValue(t, Element)
    case MemberDelimiter =>
      if t == RightBraceToken then ObjectFinish else if t == StringToken then MemberKey else Error
    case KeyValueDelimiter => PredictValue(t, MemberValue)
    case _ => Error
  }

  /** A saved state with the count of finished members or elements above it. */
  datatype Frame = Frame(state: State, count: nat)

  datatype Config = Config(state: State, frames: seq<Frame>, at: Cursor)

  /** The state in which a value read in state `src` leaves its container. */
  function AfterValue(src: State): State {
    match src
    case ArrayInitial => Element
    case ElementDelimiter => Element
    case KeyValueDelimiter => MemberValue
    case _ => src
  }

  /** The state that a finished container restores: its saved state, or Finish at the root. */
  function Restored(saved: State): State {
    if saved == Start then Finish else saved
  }

  function Popped(m: Config, isObject: bool): Option<Config> {
    if m.frames == [] then None else
    var top := m.frames[|m.frames| - 1];
    var unclosed := if isObject then MemberValue else Element;
    var n := if m.state == unclosed then top.count + 1 else top.count;
    var e := if isObject then OnEndObject(n) else OnEndArray(n);
    Some(Config(Restored(top.state), m.frames[..|m.frames| - 1], Emit(m.at, m.at.pos + 1, e)))
  }

  function Counted(m: Config, dst: State): Option<Config> {
    if m.frames == [] then None else
    var k := |m.frames| - 1;
    Some(Config(dst, m.frames[k := m.frames[k].(count := m.frames[k].count + 1)],
                m.at.(pos := m.at.pos + 1)))
  }

  /** One transition: None is the error state. The stack is never popped when empty, which
      lemma TransitKeepsStack shows for every reachable configuration. */
  function Transit(f: Flags, s: Text, m: Config, dst: State): (r: Option<Config>)
    requires m.at.pos < |s|
    ensures r.Some? ==> m.at.pos < r.value.at.pos <= |s|
  {
    match dst
    case ObjectInitial =>
      Some(Config(dst, m.frames + [Frame(AfterValue(m.state), 0)], Emit(m.at, m.at.pos + 1, OnStartObject)))
    case ArrayInitial =>
      Some(Config(dst, m.frames + [Frame(AfterValue(m.state), 0)], Emit(m.at, m.at.pos + 1, OnStartArray)))
    case MemberKey =>
      (match StringAt(s, m.at, true) case None => None case Some(c) => Some(Config(dst, m.frames, c)))
    case KeyValueDelimiter => Some(Config(dst, m.frames, Take(s, m.at)))
    case MemberValue =>
      (match ParseValue(f, s, m.at) case None => None case Some(c) => Some(Config(dst, m.frames, c)))
    case Element =>
      (match ParseValue(f, s, m.at) case None => None case Some(c) => Some(Config(dst, m.frames, c)))
    case MemberDelimiter => Counted(m, dst)
    case ElementDelimiter => Counted(m, dst)
    case ObjectFinish =>
      if !f.trailingCommas && m.state == MemberDelimiter then None
      else Popped(m, true)
    case ArrayFinish =>
      if !f.trailingCommas && m.state == ElementDelimiter then None
      else Popped(m, false)
    case SingleValue =>
      (match ParseValue(f, s, m.at) case None => None case Some(c) => Some(Config(Finish, m.frames, c)))
    case _ => None
  }

  /** The frames are exactly the open containers: none outside the root value, the root's own
      frame at the bottom, and above it frames that return to an enclosing container. */
  predicate WellStacked(m: Config) {
    && (m.state in {Start, Finish} <==> m.frames == [])
    && m.state !in {Error, ObjectFinish, ArrayFinish, SingleValue}
    && forall k :: 0 <= k < |m.frames| ==>
         if k == 0 then m.frames[k].state == Start else m.frames[k].state in {Element, MemberValue}
  }

  lemma TransitKeepsStack(f: Flags, s: Text, m: Config)
    requires WellStacked(m) && m.at.pos < |s|
    ensures var dst := Predict(m.state, Tokenize(s[m.at.pos]));
            var r := Transit(f, s, m, dst);
            && (r.Some? ==> WellStacked(r.value))
            && (dst in {ObjectFinish, ArrayFinish, MemberDelimiter, ElementDelimiter} ==> m.frames != [])
  {
    hide ParseValue, StringAt, Emit;
    var dst := Predict(m.state, Tokenize(s[m.at.pos]));
    var r := Transit(f, s, m, dst);
    if r.Some? && dst in {ObjectFinish, ArrayFinish} {
      assert r.value.frames == m.frames[..|m.frames| - 1];
    }
  }

  /** The automaton from a configuration whose cursor stands on a token. */
  function Run(f: Flags, s: Text, m: Config): (r: Option<Cursor>)
    requires m.at.pos <= |s|
    ensures r.Some? ==> r.value.pos <= |s|
    decreases |s| - m.at.pos, 0
  {
    if Peek(s, m.at.pos) == NUL then
      if m.state == Finish then Some(m.at) else None
    else
      match Transit(f, s, m, Predict(m.state, Tokenize(Peek(s, m.at.pos))))
      case None => None
      case Some(n) => Continue(f, s, n)
  }

  /** The automaton just after a transition. */
  function Continue(f: Flags, s: Text, m: Config): (r: Option<Cursor>)
    requires m.at.pos <= |s|
    ensures r.Some? ==> r.value.pos <= |s|
    decreases |s| - m.at.pos, 1
  {
    if f.stopWhenDone && m.state == Finish then Some(m.at)
    else
      match SkipAt(f, s, m.at)
      case None => None
      case Some(c) => Run(f, s, m.(at := c))
  }

  /** The whole text, read by the automaton. */
  function IterativeParse(f: Flags, s: Text): (r: Option<Cursor>)
    ensures r.Some? ==> r.value.pos <= |s|
  {
    match SkipAt(f, s, Cursor(0, []))
    case None => None
    case Some(c) => Run(f, s, Config(Start, [], c))
  }
}
