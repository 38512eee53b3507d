/** What Writer and PrettyWriter emit: the handler as a state machine over events, and the
    text of a value, defined by recursion over the value. */
module WriterSpec {
  import opened Bytes
  import opened Json
  import opened Utf8

  datatype Format =
    | Compact
    | Pretty(indentChar: Byte, indentCount: nat, singleLineArrays: bool)

  /** `ascii` is the target encoding: pure ASCII, or UTF-8 copied byte by byte. */
  datatype Style = Style(format: Format, ascii: bool)

  /** SetIndent asserts that the indentation character is JSON white space. */
  predicate LegalFormat(f: Format) {
    f.Pretty? ==> IsSpace(f.indentChar)
  }

  // ---------- leaves ----------

  /** The canonical decimal digits of a number. */
  function Digits(n: nat): (r: Text)
    ensures r != []
  {
    if n < 10 then [DIGIT_0 + n] else Digits(n / 10) + [DIGIT_0 + n % 10]
  }

  function IntegerText(n: int): Text {
    if n < 0 then [MINUS] + Digits(-n) else Digits(n)
  }

  /** The escape table: the letter after the backslash, or 0 for a byte written as it is. */
  function EscapeLetter(c: Byte): Byte {
    if c == QUOTE then QUOTE
    else if c == BACKSLASH then BACKSLASH
    else if c >= SPACE then NUL
    else if c == BACKSPACE then LOWER_B
    else if c == TAB then LOWER_T
    else if c == LINE_FEED then LOWER_N
    else if c == FORM_FEED then LOWER_F
    else if c == CARRIAGE_RETURN then LOWER_R
    else LOWER_U
  }

  function HexLetter(d: nat): Byte
    requires d < 16
  {
    if d < 10 then DIGIT_0 + d else UPPER_A + (d - 10)
  }

  /** `\uXXXX` for a UTF-16 unit. */
  function UnitEscape(u: nat): Text
    requires u < 0x10000
  {
    [BACKSLASH, LOWER_U, HexLetter(u / 4096), HexLetter(u / 256 % 16), HexLetter(u / 16 % 16), HexLetter(u % 16)]
  }

  function ByteText(c: Byte): (r: Text)
    ensures r != []
  {
    if EscapeLetter(c) == NUL then [c]
    else if EscapeLetter(c) == LOWER_U then UnitEscape(c)
    else [BACKSLASH, EscapeLetter(c)]
  }

  /** A code point escaped: one unit, or a surrogate pair above the basic plane. */
  function CodepointEscape(cp: nat): Text
    requires IsScalar(cp)
  {
    if cp <= 0xFFFF then UnitEscape(cp)
    else UnitEscape((cp - 0x10000) / 1024 + 0xD800) + UnitEscape((cp - 0x10000) % 1024 + 0xDC00)
  }

  function Prepended(a: Text, r: Option<Text>): Option<Text> {
    match r
    case None => None
    case Some(t) => Some(a + t)
  }

  lemma PrependTwice(a: Text, b: Text, r: Option<Text>)
    ensures Prepended(a, Prepended(b, r)) == Prepended(a + b, r)
    ensures Prepended([], r) == r
  {
    if r.Some? {
      assert a + (b + r.value) == a + b + r.value && [] + r.value == r.value;
    }
  }

  /** The text of a string from byte k on; None when an ASCII target meets bytes that are not
      well-formed UTF-8. */
  function BodyFrom(ascii: bool, s: Text, k: nat): (r: Option<Text>)
    requires k <= |s|
    ensures !ascii ==> r.Some?
    decreases |s| - k
  {
    if k == |s| then Some([])
    else if ascii && s[k] >= 0x80 then
      match DecodeAt(s, k)
      case None => None
      case Some(u) => Prepended(CodepointEscape(u.codepoint), BodyFrom(ascii, s, u.pos))
    else Prepended(ByteText(s[k]), BodyFrom(ascii, s, k + 1))
  }

  function StringText(ascii: bool, s: Text): Option<Text> {
    match BodyFrom(ascii, s, 0)
    case None => None
    case Some(body) => Some([QUOTE] + body + [QUOTE])
  }

  lemma StringTextOf(ascii: bool, s: Text, body: Text, k: nat)
    requires k <= |s| && BodyFrom(ascii, s, 0) == Prepended(body, BodyFrom(ascii, s, k))
    ensures k == |s| ==> StringText(ascii, s) == Some([QUOTE] + body + [QUOTE])
    ensures BodyFrom(ascii, s, k) == None ==> StringText(ascii, s) == None
  {
    assert body + [] == body;
  }

  // ---------- the handler ----------

  datatype Level = Level(valueCount: nat, inArray: bool)

  datatype WriterState = WriterState(os: Text, levels: seq<Level>, hasRoot: bool)

  function Repeat(c: Byte, n: nat): Text {
    seq(n, _ => c)
  }

  function Indent(f: Format, depth: nat): Text
    requires f.Pretty?
  {
    Repeat(f.indentChar, depth * f.indentCount)
  }

  /** What separates value number `valueCount` from what precedes it, at the given depth. */
  function Gap(f: Format, inArray: bool, valueCount: nat, depth: nat): Text {
    match f
    case Compact =>
      if valueCount == 0 then []
      else if inArray || valueCount % 2 == 0 then [COMMA] else [COLON]
    case Pretty(_, _, single) =>
      if inArray then
        (if valueCount == 0 then [] else if single then [COMMA, SPACE] else [COMMA])
        + (if single then [] else [LINE_FEED] + Indent(f, depth))
      else if valueCount % 2 == 1 then [COLON, SPACE]
      else (if valueCount == 0 then [LINE_FEED] else [COMMA, LINE_FEED]) + Indent(f, depth)
  }

  /** What stands before a closing bracket or brace, back at the outer depth. */
  function Closing(f: Format, inArray: bool, valueCount: nat, depth: nat): Text {
    if f == Compact || valueCount == 0 || (inArray && f.singleLineArrays) then []
    else [LINE_FEED] + Indent(f, depth)
  }

  function PrefixText(f: Format, levels: seq<Level>): Text {
    if levels == [] then []
    else var top := levels[|levels| - 1]; Gap(f, top.inArray, top.valueCount, |levels|)
  }

  /** One more value in the innermost container. */
  function Bump(levels: seq<Level>): (r: seq<Level>)
    ensures |r| == |levels|
  {
    if levels == [] then []
    else
      var top := levels[|levels| - 1];
      levels[..|levels| - 1] + [top.(valueCount := top.valueCount + 1)]
  }

  /** hasRoot_ after a value: set by a value at the root. */
  predicate RootSeen(w: WriterState) {
    w.hasRoot || w.levels == []
  }

  predicate IsStringEvent(e: Event) {
    e.OnString? || e.OnKey?
  }

  /** The integer widths of the handler's parameters. Doubles are not modelled. */
  predicate InWidth(e: Event) {
    match e
    case OnInt(i) => INT32_MIN <= i <= INT32_MAX
    case OnUint(i) => 0 <= i <= UINT32_MAX
    case OnInt64(i) => INT64_MIN <= i <= INT64_MAX
    case OnUint64(i) => 0 <= i <= UINT64_MAX
    case OnDouble(_) => false
    case _ => true
  }

  /** The assertions of the handler methods: one root, names in name position, matching ends. */
  predicate Allowed(w: WriterState, e: Event) {
    && InWidth(e)
    && match e
       case OnEndObject(_) =>
         w.levels != [] && var top := w.levels[|w.levels| - 1]; !top.inArray && top.valueCount % 2 == 0
       case OnEndArray(_) =>
         w.levels != [] && w.levels[|w.levels| - 1].inArray
       case _ =>
         if w.levels == [] then !w.hasRoot
         else
           var top := w.levels[|w.levels| - 1];
           top.inArray || top.valueCount % 2 == 1 || IsStringEvent(e)
  }

  /** The text of a scalar event; None when the handler returns false. */
  function ScalarText(ascii: bool, e: Event): Option<Text> {
    match e
    case OnNull => Some(NULL_WORD)
    case OnBool(b) => Some(if b then TRUE_WORD else FALSE_WORD)
    case OnInt(i) => Some(IntegerText(i))
    case OnUint(i) => Some(IntegerText(i))
    case OnInt64(i) => Some(IntegerText(i))
    case OnUint64(i) => Some(IntegerText(i))
    case OnString(s) => StringText(ascii, s)
    case OnKey(s) => StringText(ascii, s)
    case _ => None
  }

  /** One handler call: None when it returns false or breaks an assertion. */
  function Step(p: Style, w: WriterState, e: Event): Option<WriterState> {
    if !Allowed(w, e) then None else
    match e
    case OnStartObject =>
      Some(WriterState(w.os + PrefixText(p.format, w.levels) + [LEFT_BRACE],
                       Bump(w.levels) + [Level(0, false)], RootSeen(w)))
    case OnStartArray =>
      Some(WriterState(w.os + PrefixText(p.format, w.levels) + [LEFT_BRACKET],
                       Bump(w.levels) + [Level(0, true)], RootSeen(w)))
    case OnEndObject(_) =>
      var n := |w.levels| - 1;
      Some(WriterState(w.os + Closing(p.format, false, w.levels[n].valueCount, n) + [RIGHT_BRACE],
                       w.levels[..n], w.hasRoot))
    case OnEndArray(_) =>
      var n := |w.levels| - 1;
      Some(WriterState(w.os + Closing(p.format, true, w.levels[n].valueCount, n) + [RIGHT_BRACKET],
                       w.levels[..n], w.hasRoot))
    case _ =>
      match ScalarText(p.ascii, e)
      case None => None
      case Some(t) => Some(WriterState(w.os + PrefixText(p.format, w.levels) + t, Bump(w.levels), RootSeen(w)))
  }

  function Write(p: Style, w: WriterState, events: seq<Event>): Option<WriterState> {
    if events == [] then Some(w) else
    match Write(p, w, events[..|events| - 1])
    case None => None
    case Some(v) => Step(p, v, events[|events| - 1])
  }

  lemma {:induction false} WriteConcat(p: Style, w: WriterState, a: seq<Event>, b: seq<Event>)
    ensures Write(p, w, a + b) ==
            match Write(p, w, a)
            case None => None
            case Some(v) => Write(p, v, b)
    decreases |b|
  {
    if b == [] {
      assert a + b == a;
    } else {
      var front, last := b[..|b| - 1], b[|b| - 1];
      WriteConcat(p, w, a, front);
      assert (a + b)[..|a + b| - 1] == a + front;
      assert (a + b)[|a + b| - 1] == last;
    }
  }
}
