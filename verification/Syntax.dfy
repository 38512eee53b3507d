/** JSON as it is written, without reference to how it is read: syntax trees, the text they
    stand for and the events that text announces. Sections 2 to 7 of RFC 8259, with comments
    and trailing commas where the flags allow them. */
module Syntax {
  import opened Bytes
  import opened Json
  import Utf8
  import ReaderSpec

  // ---------- white space and comments ----------

  datatype Skipped =
    | Blank(c: Byte)
    | Block(body: Text)
    | Line(body: Text, ended: bool)   // ended by a line feed, or by the end of the text

  type Gap = seq<Skipped>

  function SkippedText(g: Skipped): (t: Text)
    ensures t != []
  {
    match g
    case Blank(c) => [c]
    case Block(body) => [SLASH, STAR] + body + [STAR, SLASH]
    case Line(body, ended) => [SLASH, SLASH] + body + if ended then [LINE_FEED] else []
  }

  /** A block comment holds no end of a comment, a line comment no end of a line. */
  predicate SkippedOk(f: ReaderSpec.Flags, g: Skipped) {
    match g
    case Blank(c) => c in {0x20, 0x09, 0x0A, 0x0D}
    case Block(body) =>
      && f.comments && (forall k :: 0 <= k < |body| ==> body[k] != NUL)
      && forall k :: 0 <= k < |body| - 1 ==> !(body[k] == STAR && body[k + 1] == SLASH)
    case Line(body, _) => f.comments && forall k :: 0 <= k < |body| ==> body[k] != NUL && body[k] != LINE_FEED
  }

  function GapText(g: Gap): Text {
    if g == [] then [] else SkippedText(g[0]) + GapText(g[1..])
  }

  /** Only the last comment of a gap may run to the end of the text. */
  predicate GapOk(f: ReaderSpec.Flags, g: Gap) {
    && (forall k :: 0 <= k < |g| ==> SkippedOk(f, g[k]))
    && forall k :: 0 <= k < |g| - 1 ==> Finished(g[k])
  }

  predicate Finished(g: Skipped) {
    g.Line? ==> g.ended
  }

  /** No comment in it runs to the end of the text. */
  predicate Inner(f: ReaderSpec.Flags, g: Gap) {
    GapOk(f, g) && forall k :: 0 <= k < |g| ==> Finished(g[k])
  }

  // ---------- numbers ----------

  datatype Exponent = Exponent(mark: Byte, sign: Option<Byte>, digits: Text)

  datatype Numeral = Numeral(minus: bool, digits: Text, fraction: Option<Text>, exponent: Option<Exponent>)

  predicate AllDigits(t: Text) {
    forall k :: 0 <= k < |t| ==> 0x30 <= t[k] <= 0x39
  }

  predicate NumeralOk(n: Numeral) {
    && n.digits != [] && AllDigits(n.digits) && (n.digits[0] == 0x30 ==> |n.digits| == 1)
    && (n.fraction.Some? ==> n.fraction.value != [] && AllDigits(n.fraction.value))
    && (n.exponent.Some? ==>
          && n.exponent.value.mark in {0x45, 0x65}
          && (n.exponent.value.sign.Some? ==> n.exponent.value.sign.value in {0x2B, 0x2D})
          && n.exponent.value.digits != [] && AllDigits(n.exponent.value.digits))
  }

  function FractionText(fraction: Option<Text>): Text {
    match fraction
    case None => []
    case Some(digits) => [DOT] + digits
  }

  function ExponentText(exponent: Option<Exponent>): Text {
    match exponent
    case None => []
    case Some(e) => [e.mark] + (if e.sign.Some? then [e.sign.value] else []) + e.digits
  }

  function IntegerText(n: Numeral): Text {
    (if n.minus then [MINUS] else []) + n.digits
  }

  function NumeralText(n: Numeral): Text {
    IntegerText(n) + FractionText(n.fraction) + ExponentText(n.exponent)
  }

  /** The number that digits denote. */
  function Natural(digits: Text): nat
    requires AllDigits(digits)
  {
    if digits == [] then 0 else Natural(digits[..|digits| - 1]) * 10 + (digits[|digits| - 1] - 0x30)
  }

  /** The narrowest event that holds an integer exactly; a double for all other numbers, unless
      it overflows. */
  function NumeralEvent(f: ReaderSpec.Flags, n: Numeral): Option<Event>
    requires NumeralOk(n)
  {
    var size := Natural(n.digits);
    var most := if n.minus then 0x8000_0000_0000_0000 else 0xFFFF_FFFF_FFFF_FFFF;
    if n.fraction.None? && n.exponent.None? && size <= most then
      Some(if n.minus && size <= 0x8000_0000 then OnInt(-(size as int))
           else if n.minus then OnInt64(-(size as int))
           else if size <= 0xFFFF_FFFF then OnUint(size)
           else OnUint64(size))
    else
      match f.toDouble(NumeralText(n))
      case None => None
      case Some(d) => Some(OnDouble(d))
  }

  /** The next byte does not go on with the number. After a zero a digit does not. */
  predicate Bounded(n: Numeral, next: Byte) {
    if n.exponent.Some? then !(0x30 <= next <= 0x39)
    else
      && next != 0x45 && next != 0x65
      && (n.fraction.Some? || n.digits != [0x30] ==> !(0x30 <= next <= 0x39))
      && (n.fraction.None? ==> next != DOT)
  }

  // ---------- strings ----------

  datatype Piece =
    | Raw(c: Byte)
    | Short(letter: Byte)
    | Unit(hex: Text)
    | Pair(high: Text, low: Text)

  function HexDigit(c: Byte): (d: Option<nat>)
    ensures d.Some? ==> d.value < 16
  {
    if 0x30 <= c <= 0x39 then Some(c - 0x30)
    else if 0x41 <= c <= 0x46 then Some(c - 0x41 + 10)
    else if 0x61 <= c <= 0x66 then Some(c - 0x61 + 10)
    else None
  }

  predicate IsHex(hex: Text) {
    |hex| == 4 && forall k :: 0 <= k < 4 ==> HexDigit(hex[k]).Some?
  }

  function HexNumber(hex: Text): (n: nat)
    requires IsHex(hex)
    ensures n < 0x10000
  {
    HexDigit(hex[0]).value * 4096 + HexDigit(hex[1]).value * 256 + HexDigit(hex[2]).value * 16 + HexDigit(hex[3]).value
  }

  /** The byte that a letter after a backslash stands for. */
  function Letter(letter: Byte): Option<Byte> {
    if letter == 0x22 then Some(0x22)
    else if letter == 0x5C then Some(0x5C)
    else if letter == 0x2F then Some(0x2F)
    else if letter == 0x62 then Some(0x08)
    else if letter == 0x66 then Some(0x0C)
    else if letter == 0x6E then Some(0x0A)
    else if letter == 0x72 then Some(0x0D)
    else if letter == 0x74 then Some(0x09)
    else None
  }

  /** A lone low surrogate is let through, a lone high one is not. */
  predicate PieceOk(p: Piece) {
    match p
    case Raw(c) => c >= 0x20 && c != 0x22 && c != 0x5C
    case Short(letter) => Letter(letter).Some?
    case Unit(hex) => IsHex(hex) && !(0xD800 <= HexNumber(hex) <= 0xDBFF)
    case Pair(high, low) =>
      IsHex(high) && IsHex(low) && 0xD800 <= HexNumber(high) <= 0xDBFF && 0xDC00 <= HexNumber(low) <= 0xDFFF
  }

  function PieceText(p: Piece): (t: Text)
    ensures t != []
  {
    match p
    case Raw(c) => [c]
    case Short(letter) => [BACKSLASH, letter]
    case Unit(hex) => [BACKSLASH, LOWER_U] + hex
    case Pair(high, low) => [BACKSLASH, LOWER_U] + high + [BACKSLASH, LOWER_U] + low
  }

  function PieceBytes(p: Piece): Text
    requires PieceOk(p)
  {
    match p
    case Raw(c) => [c]
    case Short(letter) => [Letter(letter).value]
    case Unit(hex) => Utf8.Encoding(HexNumber(hex))
    case Pair(high, low) =>
      Utf8.Encoding(0x10000 + (HexNumber(high) - 0xD800) * 0x400 + (HexNumber(low) - 0xDC00))
  }

  predicate PiecesOk(pieces: seq<Piece>) {
    forall k :: 0 <= k < |pieces| ==> PieceOk(pieces[k])
  }

  function PiecesText(pieces: seq<Piece>): Text {
    if pieces == [] then [] else PieceText(pieces[0]) + PiecesText(pieces[1..])
  }

  function PiecesBytes(pieces: seq<Piece>): Text
    requires PiecesOk(pieces)
  {
    if pieces == [] then [] else PieceBytes(pieces[0]) + PiecesBytes(pieces[1..])
  }

  function StringText(pieces: seq<Piece>): Text {
    [QUOTE] + PiecesText(pieces) + [QUOTE]
  }

  // ---------- values ----------

  datatype Tree =
    | Null
    | Bool(b: bool)
    | Number(n: Numeral)
    | String(pieces: seq<Piece>)
    | Array(lead: Gap, items: seq<Item>, trailing: bool)
    | Object(lead: Gap, fields: seq<Field>, trailing: bool)

  /** A value with the gap after it, and the gap after the comma that follows, if one does. */
  datatype Item = Item(value: Tree, after: Gap, next: Gap)

  datatype Field = Field(name: seq<Piece>, before: Gap, behind: Gap, value: Tree, after: Gap, next: Gap)

  /** What follows an item or a field: a comma and a gap unless it is the last, and after the last
      too if there is a trailing comma. */
  function CommaText(more: bool, next: Gap): Text {
    if more then [COMMA] + GapText(next) else []
  }

  function TreeText(t: Tree): Text {
    match t
    case Null => [0x6E, 0x75, 0x6C, 0x6C]
    case Bool(b) => if b then [0x74, 0x72, 0x75, 0x65] else [0x66, 0x61, 0x6C, 0x73, 0x65]
    case Number(n) => NumeralText(n)
    case String(pieces) => StringText(pieces)
    case Array(lead, items, trailing) => [LEFT_BRACKET] + GapText(lead) + (ItemsText(items, trailing) + [RIGHT_BRACKET])
    case Object(lead, fields, trailing) => [LEFT_BRACE] + GapText(lead) + (FieldsText(fields, trailing) + [RIGHT_BRACE])
  }

  function ItemsText(items: seq<Item>, trailing: bool): Text {
    if items == [] then []
    else
      TreeText(items[0].value) + GapText(items[0].after)
      + (CommaText(|items| > 1 || trailing, items[0].next) + ItemsText(items[1..], trailing))
  }

  function NameText(field: Field): Text {
    StringText(field.name) + GapText(field.before) + [COLON] + GapText(field.behind)
  }

  function FieldsText(fields: seq<Field>, trailing: bool): Text {
    if fields == [] then []
    else
      NameText(fields[0]) + TreeText(fields[0].value) + GapText(fields[0].after)
      + (CommaText(|fields| > 1 || trailing, fields[0].next) + FieldsText(fields[1..], trailing))
  }

  predicate TreeOk(f: ReaderSpec.Flags, t: Tree) {
    match t
    case Number(n) => NumeralOk(n) && NumeralEvent(f, n).Some?
    case String(pieces) => PiecesOk(pieces)
    case Array(lead, items, trailing) =>
      Inner(f, lead) && ItemsOk(f, items) && (trailing ==> f.trailingCommas && items != [])
    case Object(lead, fields, trailing) =>
      Inner(f, lead) && FieldsOk(f, fields) && (trailing ==> f.trailingCommas && fields != [])
    case _ => true
  }

  predicate ItemsOk(f: ReaderSpec.Flags, items: seq<Item>) {
    items == []
    || (TreeOk(f, items[0].value) && Inner(f, items[0].after) && Inner(f, items[0].next) && ItemsOk(f, items[1..]))
  }

  predicate FieldsOk(f: ReaderSpec.Flags, fields: seq<Field>) {
    fields == []
    || (&& PiecesOk(fields[0].name) && Inner(f, fields[0].before) && Inner(f, fields[0].behind)
        && TreeOk(f, fields[0].value) && Inner(f, fields[0].after) && Inner(f, fields[0].next)
        && FieldsOk(f, fields[1..]))
  }

  /** The events that a tree announces. */
  function TreeEvents(f: ReaderSpec.Flags, t: Tree): seq<Event>
    requires TreeOk(f, t)
  {
    match t
    case Null => [OnNull]
    case Bool(b) => [OnBool(b)]
    case Number(n) => [NumeralEvent(f, n).value]
    case String(pieces) => [OnString(PiecesBytes(pieces))]
    case Array(_, items, _) => [OnStartArray] + (ItemsEvents(f, items) + [OnEndArray(|items|)])
    case Object(_, fields, _) => [OnStartObject] + (FieldsEvents(f, fields) + [OnEndObject(|fields|)])
  }

  function ItemsEvents(f: ReaderSpec.Flags, items: seq<Item>): seq<Event>
    requires ItemsOk(f, items)
  {
    if items == [] then [] else TreeEvents(f, items[0].value) + ItemsEvents(f, items[1..])
  }

  function FieldsEvents(f: ReaderSpec.Flags, fields: seq<Field>): seq<Event>
    requires FieldsOk(f, fields)
  {
    if fields == [] then []
    else [OnKey(PiecesBytes(fields[0].name))] + TreeEvents(f, fields[0].value) + FieldsEvents(f, fields[1..])
  }

  // ---------- documents ----------

  datatype Document = Document(lead: Gap, value: Tree, trail: Gap)

  function DocumentText(d: Document): Text {
    GapText(d.lead) + TreeText(d.value) + GapText(d.trail)
  }

  /** A document that stands in the text up to position n, and may end there: where its value ends,
      if reading stops there; otherwise only where the text ends. */
  ghost predicate StandsAt(f: ReaderSpec.Flags, s: Text, n: nat, d: Document) {
    && Inner(f, d.lead) && TreeOk(f, d.value) && GapOk(f, d.trail)
    && n <= |s| && s[..n] == DocumentText(d)
    && if f.stopWhenDone then d.trail == [] && (d.value.Number? ==> Bounded(d.value.n, Peek(s, n)))
       else Peek(s, n) == NUL
  }
}
