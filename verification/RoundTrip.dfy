/** Printing any printable value, compactly or with any legal indentation, to UTF-8 or to
    ASCII, and parsing the text with either parser gives the value back. */
module RoundTrip {
  import opened Bytes
  import opened Json
  import opened WriterSpec
  import opened ReaderSpec
  import opened Document
  import opened Printing
  import opened LeafRoundTrip
  import opened Equality
  import Codec
  import ParserEquivalence

  // ---------- white space between tokens ----------

  predicate AllSpaces(t: Text) {
    forall k :: 0 <= k < |t| ==> IsSpace(t[k])
  }

  /** The bytes at which skipping stops: neither white space nor the start of a comment. */
  predicate IsSolid(c: Byte) {
    !IsSpace(c) && c != SLASH
  }

  lemma {:induction false} SpacesSkip(s: Text, i: nat, blank: Text)
    requires Holds(s, i, blank) && AllSpaces(blank) && !IsSpace(Peek(s, i + |blank|))
    ensures SkipSpaces(s, i) == i + |blank|
    decreases |blank|
  {
    if blank != [] {
      HoldsPeek(s, i, blank, 0);
      assert IsSpace(blank[0]);
      assert [blank[0]] + blank[1..] == blank;
      HoldsSplit(s, i, [blank[0]], blank[1..]);
      SpacesSkip(s, i + 1, blank[1..]);
    }
  }

  lemma BlankSkips(f: Flags, s: Text, c: Cursor, blank: Text)
    requires Holds(s, c.pos, blank) && AllSpaces(blank) && IsSolid(Peek(s, c.pos + |blank|))
    ensures SkipAt(f, s, c) == Some(c.(pos := c.pos + |blank|))
  {
    SpacesSkip(s, c.pos, blank);
  }

  lemma NothingSkips(f: Flags, s: Text, c: Cursor)
    requires c.pos <= |s| && IsSolid(Peek(s, c.pos))
    ensures SkipAt(f, s, c) == Some(c)
  {
    BlankSkips(f, s, c, []);
  }

  // ---------- the shape of separators ----------

  function Separator(inArray: bool, valueCount: nat): Text {
    if valueCount == 0 then []
    else if inArray || valueCount % 2 == 0 then [COMMA] else [COLON]
  }

  function Blank(f: Format, inArray: bool, valueCount: nat, depth: nat): (t: Text)
    requires LegalFormat(f)
    ensures AllSpaces(t)
  {
    match f
    case Compact => []
    case Pretty(_, _, single) =>
      if inArray then (if single then (if valueCount == 0 then [] else [SPACE]) else [LINE_FEED] + Indent(f, depth))
      else if valueCount % 2 == 1 then [SPACE]
      else [LINE_FEED] + Indent(f, depth)
  }

  lemma GapShape(f: Format, inArray: bool, valueCount: nat, depth: nat)
    requires LegalFormat(f)
    ensures Gap(f, inArray, valueCount, depth) == Separator(inArray, valueCount) + Blank(f, inArray, valueCount, depth)
    ensures AllSpaces(Blank(f, inArray, valueCount, depth))
  {
  }

  lemma ClosingShape(f: Format, inArray: bool, valueCount: nat, depth: nat)
    requires LegalFormat(f)
    ensures AllSpaces(Closing(f, inArray, valueCount, depth))
  {
  }

  /** The first byte of a value's text. */
  predicate StartsValue(c: Byte) {
    IsSolid(c) && c !in {NUL, COMMA, COLON, RIGHT_BRACKET, RIGHT_BRACE}
  }

  lemma RenderStarts(p: Style, v: Value, depth: nat)
    requires Printable(p.ascii, v)
    ensures Render(p, v, depth) != [] && StartsValue(Render(p, v, depth)[0])
  {
    match v
    case Num(n) => DigitsShape(if n < 0 then -n else n);
    case _ =>
  }

  // ---------- values ----------

  /** The cursor after a piece of text that emitted some events. */
  function Advanced(c: Cursor, n: nat, events: seq<Event>): (r: Cursor)
    ensures r.pos == c.pos + n && r.out == c.out + events
  {
    Cursor(c.pos + n, c.out + events)
  }

  lemma ScalarParses(f: Flags, p: Style, s: Text, c: Cursor, v: Value, depth: nat)
    requires Printable(p.ascii, v) && !v.Arr? && !v.Obj?
    requires Holds(s, c.pos, Render(p, v, depth)) && Stops(Peek(s, c.pos + |Render(p, v, depth)|))
    ensures ParseValue(f, s, c) == Some(Advanced(c, |Render(p, v, depth)|, Events(FromText, v)))
  {
    hide StringText, Number, Digits, StringAt, IntegerText;
    var t := Render(p, v, depth);
    RenderStarts(p, v, depth);
    HoldsPeek(s, c.pos, t, 0);
    match v
    case Str(str) => StringParses(p.ascii, str, s, c, false);
    case Num(n) =>
      NumberStarts(n);
      IntegerParses(f, s, c.pos, n);
    case _ =>
  }

  lemma NumberStarts(n: int)
    ensures IntegerText(n) != []
    ensures IntegerText(n)[0] == MINUS || IsDigit(IntegerText(n)[0])
  {
    DigitsShape(if n < 0 then -n else n);
  }

  /** Right after the last element: white space and the bracket. */
  lemma LastElement(f: Flags, s: Text, c: Cursor, close: Text, k: nat)
    requires Holds(s, c.pos, close + [RIGHT_BRACKET]) && AllSpaces(close)
    ensures AfterElement(f, s, c, k) == Some(Advanced(c, |close| + 1, [OnEndArray(k + 1)]))
  {
    hide ParseElements, Skip;
    HoldsSplit(s, c.pos, close, [RIGHT_BRACKET]);
    HoldsPeek(s, c.pos + |close|, [RIGHT_BRACKET], 0);
    BlankSkips(f, s, c, close);
  }

  lemma LastMember(f: Flags, s: Text, c: Cursor, close: Text, k: nat)
    requires Holds(s, c.pos, close + [RIGHT_BRACE]) && AllSpaces(close)
    ensures AfterMember(f, s, c, k) == Some(Advanced(c, |close| + 1, [OnEndObject(k + 1)]))
  {
    hide ParseMembers, Skip;
    HoldsSplit(s, c.pos, close, [RIGHT_BRACE]);
    HoldsPeek(s, c.pos + |close|, [RIGHT_BRACE], 0);
    BlankSkips(f, s, c, close);
  }

  lemma CommaSkips(f: Flags, s: Text, c: Cursor, blank: Text)
    requires Holds(s, c.pos, [COMMA] + blank) && AllSpaces(blank) && IsSolid(Peek(s, c.pos + 1 + |blank|))
    ensures Peek(s, c.pos) == COMMA && SkipAt(f, s, c) == Some(c)
    ensures SkipAt(f, s, Take(s, c)) == Some(c.(pos := c.pos + 1 + |blank|))
  {
    HoldsSplit(s, c.pos, [COMMA], blank);
    HoldsPeek(s, c.pos, [COMMA], 0);
    NothingSkips(f, s, c);
    BlankSkips(f, s, Take(s, c), blank);
  }

  /** A comma and white space before the next element. */
  lemma NextElement(f: Flags, s: Text, c: Cursor, blank: Text, k: nat)
    requires Holds(s, c.pos, [COMMA] + blank) && AllSpaces(blank) && StartsValue(Peek(s, c.pos + 1 + |blank|))
    ensures AfterElement(f, s, c, k) == ParseElements(f, s, c.(pos := c.pos + 1 + |blank|), k + 1)
  {
    hide ParseElements, Skip;
    CommaSkips(f, s, c, blank);
  }

  lemma NextMember(f: Flags, s: Text, c: Cursor, blank: Text, k: nat)
    requires Holds(s, c.pos, [COMMA] + blank) && AllSpaces(blank) && StartsValue(Peek(s, c.pos + 1 + |blank|))
    ensures AfterMember(f, s, c, k) == ParseMembers(f, s, c.(pos := c.pos + 1 + |blank|), k + 1)
  {
    hide ParseMembers, Skip;
    CommaSkips(f, s, c, blank);
  }

  lemma ColonParses(f: Flags, s: Text, c: Cursor, blank: Text)
    requires Holds(s, c.pos, [COLON] + blank) && AllSpaces(blank) && IsSolid(Peek(s, c.pos + 1 + |blank|))
    ensures ParseColon(f, s, c) == Some(c.(pos := c.pos + 1 + |blank|))
  {
    hide Skip;
    HoldsSplit(s, c.pos, [COLON], blank);
    HoldsPeek(s, c.pos, [COLON], 0);
    NothingSkips(f, s, c);
    BlankSkips(f, s, Take(s, c), blank);
  }

  /** The text of elements, from the next one's value on, to the closing bracket. */
  function ElementsText(p: Style, elems: seq<Value>, k: nat, depth: nat, close: Text): Text
    requires elems != []
  {
    Render(p, elems[0], depth) + RenderElements(p, elems[1..], k + 1, depth) + close + [RIGHT_BRACKET]
  }

  /** After a value comes white space, a comma or the closing bracket: no number goes on. */
  lemma ElementsTextShape(p: Style, elems: seq<Value>, k: nat, depth: nat, close: Text)
    requires LegalFormat(p.format) && AllSpaces(close) && elems != []
    requires forall n :: 0 <= n < |elems| ==> Printable(p.ascii, elems[n])
    ensures var t, first := ElementsText(p, elems, k, depth, close), Render(p, elems[0], depth);
            && first != [] && StartsValue(first[0]) && first <= t && |first| < |t|
            && Stops(t[|first|])
            && (|elems| == 1 ==> t == first + (close + [RIGHT_BRACKET]))
            && (|elems| > 1 ==>
                  var blank := Blank(p.format, true, k + 1, depth);
                  t == first + ([COMMA] + blank) + ElementsText(p, elems[1..], k + 1, depth, close))
  {
    hide *;
    var first := Render(p, elems[0], depth);
    RenderStarts(p, elems[0], depth);
    ElementsTextUnfold(p, elems, k, depth, close);
    ClosingStops(close, RIGHT_BRACKET);
    if |elems| == 1 {
      assert first + [] + close + [RIGHT_BRACKET] == first + (close + [RIGHT_BRACKET]);
    } else {
      var gap, next := [COMMA] + Blank(p.format, true, k + 1, depth), Render(p, elems[1], depth);
      var rest := RenderElements(p, elems[2..], k + 2, depth);
      assert first + (gap + next + rest) + close + [RIGHT_BRACKET] ==
             first + gap + (next + rest + close + [RIGHT_BRACKET]);
    }
  }

  lemma ElementsTextUnfold(p: Style, elems: seq<Value>, k: nat, depth: nat, close: Text)
    requires LegalFormat(p.format) && elems != []
    ensures ElementsText(p, elems, k, depth, close) ==
            Render(p, elems[0], depth) + RenderElements(p, elems[1..], k + 1, depth) + close + [RIGHT_BRACKET]
    ensures |elems| == 1 ==> RenderElements(p, elems[1..], k + 1, depth) == []
    ensures |elems| > 1 ==>
              && RenderElements(p, elems[1..], k + 1, depth) ==
                 [COMMA] + Blank(p.format, true, k + 1, depth) + Render(p, elems[1], depth)
                 + RenderElements(p, elems[2..], k + 2, depth)
              && ElementsText(p, elems[1..], k + 1, depth, close) ==
                 Render(p, elems[1], depth) + RenderElements(p, elems[2..], k + 2, depth) + close + [RIGHT_BRACKET]
  {
    hide Render;
    if |elems| > 1 {
      GapShape(p.format, true, k + 1, depth);
      assert elems[1..][1..] == elems[2..];
    }
  }

  /** No number goes on into closing white space or a bracket; nor into a comma. */
  lemma ClosingStops(close: Text, end: Byte)
    requires AllSpaces(close) && end in {RIGHT_BRACKET, RIGHT_BRACE}
    ensures Stops((close + [end])[0]) && Stops(COMMA)
  {
    assert close != [] ==> IsSpace(close[0]);
  }

  lemma {:induction false} ElementsParse(f: Flags, p: Style, s: Text, c: Cursor,
                                         elems: seq<Value>, k: nat, depth: nat, close: Text)
    requires LegalFormat(p.format) && AllSpaces(close) && elems != []
    requires forall n :: 0 <= n < |elems| ==> Printable(p.ascii, elems[n])
    requires Holds(s, c.pos, ElementsText(p, elems, k, depth, close))
    ensures ParseElements(f, s, c, k) ==
            Some(Advanced(c, |ElementsText(p, elems, k, depth, close)|,
                          ElementEvents(FromText, elems) + [OnEndArray(k + |elems|)]))
    decreases elems, 1
  {
    hide *;
    var t, first := ElementsText(p, elems, k, depth, close), Render(p, elems[0], depth);
    ElementsTextShape(p, elems, k, depth, close);
    var tail := HoldsTail(s, c.pos, t, first);
    ValueParses(f, p, s, c, elems[0], depth);
    var after := Advanced(c, |first|, Events(FromText, elems[0]));
    ParseElementsStep(f, s, c, k, after);
    ElementEventsSplit(elems);
    if |elems| == 1 {
      SamePrefix(first, tail, close + [RIGHT_BRACKET]);
      LastElement(f, s, after, close, k);
      AdvancedTwice(c, |first|, Events(FromText, elems[0]), |close| + 1, [OnEndArray(k + 1)]);
    } else {
      var blank, rest := Blank(p.format, true, k + 1, depth), ElementsText(p, elems[1..], k + 1, depth, close);
      Regrouped(first, [COMMA] + blank, rest);
      SamePrefix(first, tail, [COMMA] + blank + rest);
      HoldsSplit(s, after.pos, [COMMA] + blank, rest);
      ElementsTextShape(p, elems[1..], k + 1, depth, close);
      HoldsPeek(s, after.pos + 1 + |blank|, rest, 0);
      NextElement(f, s, after, blank, k);
      var own, others := Events(FromText, elems[0]), ElementEvents(FromText, elems[1..]);
      MoveOn(c, |first|, own, 1 + |blank|);
      var next := Advanced(c, |first| + 1 + |blank|, own);
      ElementsParse(f, p, s, next, elems[1..], k + 1, depth, close);
      AdvancedTwice(c, |first| + 1 + |blank|, own, |rest|, others + [OnEndArray(k + |elems|)]);
      Regrouped(own, others, [OnEndArray(k + |elems|)]);
    }
  }

  /** What stands in the text after a proper part of what stands there. */
  lemma HoldsTail(s: Text, i: nat, t: Text, first: Text) returns (tail: Text)
    requires Holds(s, i, t) && first <= t && |first| < |t|
    ensures t == first + tail && tail != [] && tail[0] == t[|first|]
    ensures Holds(s, i, first) && Holds(s, i + |first|, tail) && Peek(s, i + |first|) == t[|first|]
  {
    tail := t[|first|..];
    assert t == first + tail;
    HoldsSplit(s, i, first, tail);
    HoldsPeek(s, i, t, |first|);
  }

  lemma SamePrefix(first: Text, a: Text, b: Text)
    requires first + a == first + b
    ensures a == b
  {
    assert a == (first + a)[|first|..] && b == (first + b)[|first|..];
  }

  lemma Regrouped<T>(a: seq<T>, b: seq<T>, c: seq<T>)
    ensures a + b + c == a + (b + c)
  {
  }

  lemma ParseElementsStep(f: Flags, s: Text, c: Cursor, k: nat, after: Cursor)
    requires c.pos <= |s| && ParseValue(f, s, c) == Some(after)
    ensures ParseElements(f, s, c, k) == AfterElement(f, s, after, k)
  {
    hide ParseValue, AfterElement;
  }

  lemma ElementEventsSplit(elems: seq<Value>)
    requires elems != []
    ensures ElementEvents(FromText, elems) == Events(FromText, elems[0]) + ElementEvents(FromText, elems[1..])
    ensures |elems| == 1 ==> ElementEvents(FromText, elems) == Events(FromText, elems[0])
  {
  }

  lemma AdvancedTwice(c: Cursor, n: nat, a: seq<Event>, m: nat, b: seq<Event>)
    ensures Advanced(Advanced(c, n, a), m, b) == Advanced(c, n + m, a + b)
  {
    assert c.out + a + b == c.out + (a + b);
  }

  lemma MoveOn(c: Cursor, n: nat, a: seq<Event>, m: nat)
    ensures Advanced(c, n, a).(pos := c.pos + n + m) == Advanced(c, n + m, a)
  {
  }

  // ---------- members ----------

  /** The text of members, from the next one's name on, to the closing brace. */
  function MembersText(p: Style, members: seq<Member>, k: nat, depth: nat, close: Text): Text
    requires members != []
  {
    Quoted(p.ascii, members[0].name) + Gap(p.format, false, 2 * k + 1, depth) + Render(p, members[0].value, depth)
    + RenderMembers(p, members[1..], k + 1, depth) + close + [RIGHT_BRACE]
  }

  /** What follows a member's value. */
  function MembersTail(p: Style, members: seq<Member>, k: nat, depth: nat, close: Text): Text
    requires members != [] && LegalFormat(p.format)
  {
    if |members| == 1 then close + [RIGHT_BRACE]
    else [COMMA] + Blank(p.format, false, 2 * (k + 1), depth) + MembersText(p, members[1..], k + 1, depth, close)
  }

  predicate PrintableMembers(ascii: bool, members: seq<Member>) {
    forall n :: 0 <= n < |members| ==>
      StringText(ascii, members[n].name).Some? && Printable(ascii, members[n].value)
  }

  lemma MembersTextShape(p: Style, members: seq<Member>, k: nat, depth: nat, close: Text)
    requires LegalFormat(p.format) && AllSpaces(close) && members != [] && PrintableMembers(p.ascii, members)
    ensures var name, value := Quoted(p.ascii, members[0].name), Render(p, members[0].value, depth);
            var colon, tail := [COLON] + Blank(p.format, false, 2 * k + 1, depth),
                                      MembersTail(p, members, k, depth, close);
            && MembersText(p, members, k, depth, close) == name + (colon + (value + tail))
            && name != [] && StartsValue(name[0])
            && value != [] && StartsValue(value[0]) && tail != [] && Stops(tail[0])
  {
    hide *;
    var name, value := Quoted(p.ascii, members[0].name), Render(p, members[0].value, depth);
    var colon := [COLON] + Blank(p.format, false, 2 * k + 1, depth);
    FirstPrintable(p.ascii, members);
    RenderStarts(p, members[0].value, depth);
    QuotedStarts(p.ascii, members[0].name);
    MembersTextUnfold(p, members, k, depth, close);
    ClosingStops(close, RIGHT_BRACE);
    if |members| == 1 {
      assert name + colon + value + [] + close + [RIGHT_BRACE] == name + (colon + (value + (close + [RIGHT_BRACE])));
    } else {
      var gap := [COMMA] + Blank(p.format, false, 2 * (k + 1), depth);
      var named := Quoted(p.ascii, members[1].name) + Gap(p.format, false, 2 * (k + 1) + 1, depth)
                   + Render(p, members[1].value, depth) + RenderMembers(p, members[2..], k + 2, depth);
      assert name + colon + value + (gap + named) + close + [RIGHT_BRACE] ==
             name + (colon + (value + (gap + (named + close + [RIGHT_BRACE]))));
    }
  }

  /** The definitions, one step. */
  lemma MembersTextSteps(p: Style, members: seq<Member>, k: nat, depth: nat, close: Text)
    requires LegalFormat(p.format) && members != []
    ensures MembersText(p, members, k, depth, close) ==
            Quoted(p.ascii, members[0].name) + Gap(p.format, false, 2 * k + 1, depth)
            + Render(p, members[0].value, depth) + RenderMembers(p, members[1..], k + 1, depth) + close + [RIGHT_BRACE]
    ensures RenderMembers(p, [], k + 1, depth) == []
    ensures |members| == 1 ==> MembersTail(p, members, k, depth, close) == close + [RIGHT_BRACE]
    ensures |members| > 1 ==>
              MembersTail(p, members, k, depth, close) ==
              [COMMA] + Blank(p.format, false, 2 * (k + 1), depth) + MembersText(p, members[1..], k + 1, depth, close)
  {
    hide Render, Quoted, Gap, Blank;
  }

  lemma MembersTextUnfold(p: Style, members: seq<Member>, k: nat, depth: nat, close: Text)
    requires LegalFormat(p.format) && members != []
    ensures MembersText(p, members, k, depth, close) ==
            Quoted(p.ascii, members[0].name) + ([COLON] + Blank(p.format, false, 2 * k + 1, depth))
            + Render(p, members[0].value, depth) + RenderMembers(p, members[1..], k + 1, depth) + close + [RIGHT_BRACE]
    ensures |members| == 1 ==>
              && RenderMembers(p, members[1..], k + 1, depth) == []
              && MembersTail(p, members, k, depth, close) == close + [RIGHT_BRACE]
    ensures |members| > 1 ==>
              var gap := [COMMA] + Blank(p.format, false, 2 * (k + 1), depth);
              var named := Quoted(p.ascii, members[1].name) + Gap(p.format, false, 2 * (k + 1) + 1, depth)
                           + Render(p, members[1].value, depth) + RenderMembers(p, members[2..], k + 2, depth);
              && RenderMembers(p, members[1..], k + 1, depth) == gap + named
              && MembersTail(p, members, k, depth, close) == gap + (named + close + [RIGHT_BRACE])
  {
    hide *;
    MembersTextSteps(p, members, k, depth, close);
    NameGap(p.format, k, depth);
    if |members| == 1 {
      assert members[1..] == [];
    } else {
      NextGap(p.format, k, depth);
      assert members[1..][1..] == members[2..];
      MembersTextSteps(p, members[1..], k + 1, depth, close);
      RenderMembersSplit(p, members[1..], k + 1, depth);
    }
  }

  lemma NameGap(f: Format, k: nat, depth: nat)
    requires LegalFormat(f)
    ensures Gap(f, false, 2 * k + 1, depth) == [COLON] + Blank(f, false, 2 * k + 1, depth)
  {
    GapShape(f, false, 2 * k + 1, depth);
  }

  lemma NextGap(f: Format, k: nat, depth: nat)
    requires LegalFormat(f)
    ensures Gap(f, false, 2 * (k + 1), depth) == [COMMA] + Blank(f, false, 2 * (k + 1), depth)
  {
    GapShape(f, false, 2 * (k + 1), depth);
  }

  lemma RenderMembersSplit(p: Style, members: seq<Member>, k: nat, depth: nat)
    requires members != []
    ensures RenderMembers(p, members, k, depth) ==
            Gap(p.format, false, 2 * k, depth)
            + (Quoted(p.ascii, members[0].name) + Gap(p.format, false, 2 * k + 1, depth)
               + Render(p, members[0].value, depth) + RenderMembers(p, members[1..], k + 1, depth))
  {
    hide Render, Quoted, Gap;
    var a, b, c := Gap(p.format, false, 2 * k, depth), Quoted(p.ascii, members[0].name),
                   Gap(p.format, false, 2 * k + 1, depth);
    var d, e := Render(p, members[0].value, depth), RenderMembers(p, members[1..], k + 1, depth);
    assert a + b + c + d + e == a + (b + c + d + e);
  }

  lemma QuotedStarts(ascii: bool, s: Text)
    requires StringText(ascii, s).Some?
    ensures Quoted(ascii, s) != [] && Quoted(ascii, s)[0] == QUOTE && StartsValue(QUOTE)
  {
  }

  lemma ParseMembersStep(f: Flags, s: Text, c: Cursor, k: nat, name: Cursor, at: Cursor, after: Cursor)
    requires c.pos < |s| && Peek(s, c.pos) == QUOTE && StringAt(s, c, true) == Some(name)
    requires ParseColon(f, s, name) == Some(at) && ParseValue(f, s, at) == Some(after)
    ensures ParseMembers(f, s, c, k) == AfterMember(f, s, after, k)
  {
    hide ParseValue, AfterMember, ParseColon, StringAt;
  }

  lemma MemberEventsSplit(members: seq<Member>)
    requires members != []
    ensures MemberEvents(FromText, members) ==
            [OnKey(members[0].name)] + Events(FromText, members[0].value) + MemberEvents(FromText, members[1..])
    ensures |members| == 1 ==>
              MemberEvents(FromText, members) == [OnKey(members[0].name)] + Events(FromText, members[0].value)
  {
  }

  /** A name, its colon and its value. */
  lemma {:induction false} MemberParses(f: Flags, p: Style, s: Text, c: Cursor, m: Member, k: nat,
                                        blank: Text, depth: nat, tail: Text)
    requires LegalFormat(p.format) && StringText(p.ascii, m.name).Some? && Printable(p.ascii, m.value)
    requires AllSpaces(blank) && tail != [] && Stops(tail[0])
    requires Holds(s, c.pos, Quoted(p.ascii, m.name) + ([COLON] + blank + (Render(p, m.value, depth) + tail)))
    ensures var n := |Quoted(p.ascii, m.name)| + 1 + |blank| + |Render(p, m.value, depth)|;
            var after := Advanced(c, n, [OnKey(m.name)] + Events(FromText, m.value));
            Holds(s, after.pos, tail) && ParseMembers(f, s, c, k) == AfterMember(f, s, after, k)
    decreases m, 1
  {
    hide *;
    var name, value := Quoted(p.ascii, m.name), Render(p, m.value, depth);
    HoldsSplit(s, c.pos, name, [COLON] + blank + (value + tail));
    NameParses(p.ascii, m.name, s, c);
    var named := Advanced(c, |name|, [OnKey(m.name)]);
    HoldsSplit(s, named.pos, [COLON] + blank, value + tail);
    RenderStarts(p, m.value, depth);
    FirstByte(value, tail);
    HoldsPeek(s, named.pos + 1 + |blank|, value + tail, 0);
    ColonAndBlank(f, s, named, blank);
    var at := named.(pos := named.pos + 1 + |blank|);
    HoldsSplit(s, at.pos, value, tail);
    HoldsPeek(s, at.pos + |value|, tail, 0);
    ValueParses(f, p, s, at, m.value, depth);
    var after := Advanced(at, |value|, Events(FromText, m.value));
    ParseMembersStep(f, s, c, k, named, at, after);
    AdvancedTwice(c, |name| + 1 + |blank|, [OnKey(m.name)], |value|, Events(FromText, m.value));
  }

  lemma FirstByte(value: Text, tail: Text)
    requires value != []
    ensures (value + tail)[0] == value[0]
  {
  }

  lemma ColonAndBlank(f: Flags, s: Text, c: Cursor, blank: Text)
    requires Holds(s, c.pos, [COLON] + blank) && AllSpaces(blank) && StartsValue(Peek(s, c.pos + 1 + |blank|))
    ensures ParseColon(f, s, c) == Some(c.(pos := c.pos + 1 + |blank|))
  {
    ColonParses(f, s, c, blank);
  }

  lemma NameParses(ascii: bool, name: Text, s: Text, c: Cursor)
    requires StringText(ascii, name).Some? && Holds(s, c.pos, Quoted(ascii, name))
    ensures c.pos < |s| && Peek(s, c.pos) == QUOTE
    ensures StringAt(s, c, true) == Some(Advanced(c, |Quoted(ascii, name)|, [OnKey(name)]))
  {
    hide StringText, StringAt;
    StringParses(ascii, name, s, c, true);
  }

  lemma {:induction false} MembersParse(f: Flags, p: Style, s: Text, c: Cursor,
                                        members: seq<Member>, k: nat, depth: nat, close: Text)
    requires LegalFormat(p.format) && AllSpaces(close) && members != [] && PrintableMembers(p.ascii, members)
    requires Holds(s, c.pos, MembersText(p, members, k, depth, close))
    ensures ParseMembers(f, s, c, k) ==
            Some(Advanced(c, |MembersText(p, members, k, depth, close)|,
                          MemberEvents(FromText, members) + [OnEndObject(k + |members|)]))
    decreases members, 1
  {
    hide *;
    var m, tail := members[0], MembersTail(p, members, k, depth, close);
    var blank := Blank(p.format, false, 2 * k + 1, depth);
    MembersTextShape(p, members, k, depth, close);
    FirstPrintable(p.ascii, members);
    MemberParses(f, p, s, c, m, k, blank, depth, tail);
    MemberEventsSplit(members);
    TailShape(p, members, k, depth, close);
    var n := |Quoted(p.ascii, m.name)| + 1 + |blank| + |Render(p, m.value, depth)|;
    var events := [OnKey(m.name)] + Events(FromText, m.value);
    var after := Advanced(c, n, events);
    if |members| == 1 {
      LastMember(f, s, after, close, k);
      AdvancedTwice(c, n, events, |close| + 1, [OnEndObject(k + 1)]);
    } else {
      var gap, rest := Blank(p.format, false, 2 * (k + 1), depth), MembersText(p, members[1..], k + 1, depth, close);
      HoldsSplit(s, after.pos, [COMMA] + gap, rest);
      MembersTextShape(p, members[1..], k + 1, depth, close);
      FirstByte(Quoted(p.ascii, members[1].name),
                [COLON] + Blank(p.format, false, 2 * (k + 1) + 1, depth)
                + (Render(p, members[1].value, depth) + MembersTail(p, members[1..], k + 1, depth, close)));
      HoldsPeek(s, after.pos + 1 + |gap|, rest, 0);
      NextMember(f, s, after, gap, k);
      var others := MemberEvents(FromText, members[1..]);
      MoveOn(c, n, events, 1 + |gap|);
      var next := Advanced(c, n + 1 + |gap|, events);
      MembersParse(f, p, s, next, members[1..], k + 1, depth, close);
      AdvancedTwice(c, n + 1 + |gap|, events, |rest|, others + [OnEndObject(k + |members|)]);
      assert events + (others + [OnEndObject(k + |members|)]) == events + others + [OnEndObject(k + |members|)];
    }
  }

  lemma FirstPrintable(ascii: bool, members: seq<Member>)
    requires members != [] && PrintableMembers(ascii, members)
    ensures StringText(ascii, members[0].name).Some? && Printable(ascii, members[0].value)
    ensures PrintableMembers(ascii, members[1..])
  {
  }

  lemma TailShape(p: Style, members: seq<Member>, k: nat, depth: nat, close: Text)
    requires members != [] && LegalFormat(p.format)
    ensures |members| == 1 ==> MembersTail(p, members, k, depth, close) == close + [RIGHT_BRACE]
    ensures |members| > 1 ==>
              MembersTail(p, members, k, depth, close) ==
              [COMMA] + Blank(p.format, false, 2 * (k + 1), depth) + MembersText(p, members[1..], k + 1, depth, close)
  {
  }

  // ---------- whole values ----------

  lemma {:induction false} ValueParses(f: Flags, p: Style, s: Text, c: Cursor, v: Value, depth: nat)
    requires LegalFormat(p.format) && Printable(p.ascii, v)
    requires Holds(s, c.pos, Render(p, v, depth)) && Stops(Peek(s, c.pos + |Render(p, v, depth)|))
    ensures ParseValue(f, s, c) == Some(Advanced(c, |Render(p, v, depth)|, Events(FromText, v)))
    decreases v, 0
  {
    hide *;
    match v
    case Arr(elems) => ArrayParses(f, p, s, c, elems, depth);
    case Obj(members) => ObjectParses(f, p, s, c, members, depth);
    case _ => ScalarParses(f, p, s, c, v, depth);
  }

  lemma {:induction false} ArrayParses(f: Flags, p: Style, s: Text, c: Cursor, elems: seq<Value>, depth: nat)
    requires LegalFormat(p.format) && Printable(p.ascii, Arr(elems))
    requires Holds(s, c.pos, Render(p, Arr(elems), depth))
    ensures ParseValue(f, s, c) == Some(Advanced(c, |Render(p, Arr(elems), depth)|, Events(FromText, Arr(elems))))
    decreases elems, 2
  {
    hide *;
    var t, close := Render(p, Arr(elems), depth), Closing(p.format, true, |elems|, depth);
    ArrayTextShape(p, elems, depth);
    ClosingShape(p.format, true, |elems|, depth);
    if elems == [] {
      EmptyParses(f, s, c, LEFT_BRACKET, RIGHT_BRACKET);
    } else {
      var blank, text := Blank(p.format, true, 0, depth + 1), ElementsText(p, elems, 0, depth + 1, close);
      ElementsTextShape(p, elems, 0, depth + 1, close);
      HoldsSplit(s, c.pos, [LEFT_BRACKET] + blank, text);
      HoldsPeek(s, c.pos + 1 + |blank|, text, 0);
      OpeningParses(f, s, c, LEFT_BRACKET, blank);
      var inside := Advanced(c, 1 + |blank|, [OnStartArray]);
      ElementsParse(f, p, s, inside, elems, 0, depth + 1, close);
      AdvancedTwice(c, 1 + |blank|, [OnStartArray], |text|, ElementEvents(FromText, elems) + [OnEndArray(|elems|)]);
      assert [OnStartArray] + (ElementEvents(FromText, elems) + [OnEndArray(|elems|)]) ==
             [OnStartArray] + ElementEvents(FromText, elems) + [OnEndArray(|elems|)];
    }
  }

  lemma ArrayPieces(p: Style, elems: seq<Value>, depth: nat)
    requires LegalFormat(p.format)
    ensures Printable(p.ascii, Arr(elems)) ==> forall n :: 0 <= n < |elems| ==> Printable(p.ascii, elems[n])
    ensures Events(FromText, Arr(elems)) == [OnStartArray] + ElementEvents(FromText, elems) + [OnEndArray(|elems|)]
    ensures elems == [] ==> ElementEvents(FromText, elems) == []
    ensures elems == [] ==> Render(p, Arr(elems), depth) == [LEFT_BRACKET, RIGHT_BRACKET]
    ensures Render(p, Arr(elems), depth) ==
            [LEFT_BRACKET] + RenderElements(p, elems, 0, depth + 1)
            + Closing(p.format, true, |elems|, depth) + [RIGHT_BRACKET]
  {
    hide Gap;
  }

  lemma ElementsPieces(p: Style, elems: seq<Value>, depth: nat)
    requires LegalFormat(p.format) && elems != []
    ensures RenderElements(p, elems, 0, depth) ==
            Blank(p.format, true, 0, depth) + Render(p, elems[0], depth) + RenderElements(p, elems[1..], 1, depth)
  {
    hide Render;
    GapShape(p.format, true, 0, depth);
    assert [] + Blank(p.format, true, 0, depth) == Blank(p.format, true, 0, depth);
  }

  lemma ArrayTextShape(p: Style, elems: seq<Value>, depth: nat)
    requires LegalFormat(p.format) && Printable(p.ascii, Arr(elems))
    ensures forall n :: 0 <= n < |elems| ==> Printable(p.ascii, elems[n])
    ensures elems == [] ==>
              && Render(p, Arr(elems), depth) == [LEFT_BRACKET, RIGHT_BRACKET]
              && Events(FromText, Arr(elems)) == [OnStartArray, OnEndArray(0)]
    ensures elems != [] ==>
              && Render(p, Arr(elems), depth) ==
                 [LEFT_BRACKET] + Blank(p.format, true, 0, depth + 1)
                 + ElementsText(p, elems, 0, depth + 1, Closing(p.format, true, |elems|, depth))
              && Events(FromText, Arr(elems)) == [OnStartArray] + ElementEvents(FromText, elems) + [OnEndArray(|elems|)]
  {
    hide *;
    ArrayPieces(p, elems, depth);
    if elems == [] {
      assert [OnStartArray] + [] + [OnEndArray(0)] == [OnStartArray, OnEndArray(0)];
    } else {
      var close := Closing(p.format, true, |elems|, depth);
      ElementsPieces(p, elems, depth + 1);
      ElementsTextUnfold(p, elems, 0, depth + 1, close);
      var blank, first := Blank(p.format, true, 0, depth + 1), Render(p, elems[0], depth + 1);
      var rest := RenderElements(p, elems[1..], 1, depth + 1);
      assert [LEFT_BRACKET] + (blank + first + rest) + close + [RIGHT_BRACKET] ==
             [LEFT_BRACKET] + blank + (first + rest + close + [RIGHT_BRACKET]);
    }
  }

  lemma {:induction false} ObjectParses(f: Flags, p: Style, s: Text, c: Cursor, members: seq<Member>, depth: nat)
    requires LegalFormat(p.format) && Printable(p.ascii, Obj(members))
    requires Holds(s, c.pos, Render(p, Obj(members), depth))
    ensures ParseValue(f, s, c) == Some(Advanced(c, |Render(p, Obj(members), depth)|, Events(FromText, Obj(members))))
    decreases members, 2
  {
    hide *;
    var t, close := Render(p, Obj(members), depth), Closing(p.format, false, 2 * |members|, depth);
    ObjectTextShape(p, members, depth);
    ClosingShape(p.format, false, 2 * |members|, depth);
    if members == [] {
      EmptyParses(f, s, c, LEFT_BRACE, RIGHT_BRACE);
    } else {
      var blank, text := Blank(p.format, false, 0, depth + 1), MembersText(p, members, 0, depth + 1, close);
      MembersTextShape(p, members, 0, depth + 1, close);
      HoldsSplit(s, c.pos, [LEFT_BRACE] + blank, text);
      FirstByte(Quoted(p.ascii, members[0].name),
                [COLON] + Blank(p.format, false, 1, depth + 1)
                + (Render(p, members[0].value, depth + 1) + MembersTail(p, members, 0, depth + 1, close)));
      HoldsPeek(s, c.pos + 1 + |blank|, text, 0);
      OpeningParses(f, s, c, LEFT_BRACE, blank);
      var inside := Advanced(c, 1 + |blank|, [OnStartObject]);
      MembersParse(f, p, s, inside, members, 0, depth + 1, close);
      AdvancedTwice(c, 1 + |blank|, [OnStartObject], |text|,
                    MemberEvents(FromText, members) + [OnEndObject(|members|)]);
      assert [OnStartObject] + (MemberEvents(FromText, members) + [OnEndObject(|members|)]) ==
             [OnStartObject] + MemberEvents(FromText, members) + [OnEndObject(|members|)];
    }
  }

  lemma ObjectTextShape(p: Style, members: seq<Member>, depth: nat)
    requires LegalFormat(p.format) && Printable(p.ascii, Obj(members))
    ensures PrintableMembers(p.ascii, members)
    ensures members == [] ==>
              && Render(p, Obj(members), depth) == [LEFT_BRACE, RIGHT_BRACE]
              && Events(FromText, Obj(members)) == [OnStartObject, OnEndObject(0)]
    ensures members != [] ==>
              && Render(p, Obj(members), depth) ==
                 [LEFT_BRACE] + Blank(p.format, false, 0, depth + 1)
                 + MembersText(p, members, 0, depth + 1, Closing(p.format, false, 2 * |members|, depth))
              && Events(FromText, Obj(members)) ==
                 [OnStartObject] + MemberEvents(FromText, members) + [OnEndObject(|members|)]
  {
    hide *;
    ObjectPieces(p, members, depth);
    if members == [] {
      assert [OnStartObject] + [] + [OnEndObject(0)] == [OnStartObject, OnEndObject(0)];
    } else {
      var close := Closing(p.format, false, 2 * |members|, depth);
      MembersPieces(p, members, depth + 1, close);
      var blank, named := Blank(p.format, false, 0, depth + 1), Named(p, members, 0, depth + 1);
      assert [LEFT_BRACE] + (blank + named) + close + [RIGHT_BRACE] ==
             [LEFT_BRACE] + blank + (named + close + [RIGHT_BRACE]);
    }
  }

  /** The fields of an object's text, from the first name on. */
  function Named(p: Style, members: seq<Member>, k: nat, depth: nat): Text
    requires members != []
  {
    Quoted(p.ascii, members[0].name) + Gap(p.format, false, 2 * k + 1, depth)
    + Render(p, members[0].value, depth) + RenderMembers(p, members[1..], k + 1, depth)
  }

  lemma ObjectPieces(p: Style, members: seq<Member>, depth: nat)
    requires LegalFormat(p.format)
    ensures Printable(p.ascii, Obj(members)) == PrintableMembers(p.ascii, members)
    ensures Events(FromText, Obj(members)) ==
       [OnStartObject] + MemberEvents(FromText, members) + [OnEndObject(|members|)]
    ensures members == [] ==> MemberEvents(FromText, members) == []
    ensures members == [] ==> Render(p, Obj(members), depth) == [LEFT_BRACE, RIGHT_BRACE]
    ensures Render(p, Obj(members), depth) ==
            [LEFT_BRACE] + RenderMembers(p, members, 0, depth + 1)
            + Closing(p.format, false, 2 * |members|, depth) + [RIGHT_BRACE]
  {
    hide Quoted, Gap;
  }

  lemma MembersPieces(p: Style, members: seq<Member>, depth: nat, close: Text)
    requires LegalFormat(p.format) && members != []
    ensures RenderMembers(p, members, 0, depth) == Blank(p.format, false, 0, depth) + Named(p, members, 0, depth)
    ensures MembersText(p, members, 0, depth, close) == Named(p, members, 0, depth) + close + [RIGHT_BRACE]
  {
    hide Quoted, Render, Gap;
    RenderMembersSplit(p, members, 0, depth);
    GapShape(p.format, false, 0, depth);
    assert [] + Blank(p.format, false, 0, depth) == Blank(p.format, false, 0, depth);
  }

  lemma EmptyParses(f: Flags, s: Text, c: Cursor, start: Byte, end: Byte)
    requires (start == LEFT_BRACKET && end == RIGHT_BRACKET) || (start == LEFT_BRACE && end == RIGHT_BRACE)
    requires Holds(s, c.pos, [start, end])
    ensures start == LEFT_BRACKET ==> ParseValue(f, s, c) == Some(Advanced(c, 2, [OnStartArray, OnEndArray(0)]))
    ensures start == LEFT_BRACE ==> ParseValue(f, s, c) == Some(Advanced(c, 2, [OnStartObject, OnEndObject(0)]))
  {
    hide Skip, ParseElements, ParseMembers;
    HoldsPeek(s, c.pos, [start, end], 0);
    HoldsPeek(s, c.pos, [start, end], 1);
    var e := if start == LEFT_BRACKET then OnStartArray else OnStartObject;
    NothingSkips(f, s, Emit(c, c.pos + 1, e));
    assert c.out + [e] + [if start == LEFT_BRACKET then OnEndArray(0) else OnEndObject(0)] ==
           c.out + [e, if start == LEFT_BRACKET then OnEndArray(0) else OnEndObject(0)];
  }

  /** An opening bracket or brace and the white space before the first element or name. */
  lemma OpeningParses(f: Flags, s: Text, c: Cursor, start: Byte, blank: Text)
    requires start == LEFT_BRACKET || start == LEFT_BRACE
    requires Holds(s, c.pos, [start] + blank) && AllSpaces(blank) && StartsValue(Peek(s, c.pos + 1 + |blank|))
    ensures start == LEFT_BRACKET ==>
              ParseValue(f, s, c) == ParseElements(f, s, Advanced(c, 1 + |blank|, [OnStartArray]), 0)
    ensures start == LEFT_BRACE ==>
              ParseValue(f, s, c) == ParseMembers(f, s, Advanced(c, 1 + |blank|, [OnStartObject]), 0)
  {
    hide Skip, ParseElements, ParseMembers;
    HoldsSplit(s, c.pos, [start], blank);
    HoldsPeek(s, c.pos, [start], 0);
    BlankSkips(f, s, Emit(c, c.pos + 1, if start == LEFT_BRACKET then OnStartArray else OnStartObject), blank);
  }

  lemma RootParses(f: Flags, s: Text, events: seq<Event>)
    requires s != [] && StartsValue(s[0])
    requires ParseValue(f, s, Cursor(0, [])) == Some(Cursor(|s|, events))
    ensures RecursiveParse(f, s) == Some(Cursor(|s|, events))
  {
    hide Skip, ParseValue;
    NothingSkips(f, s, Cursor(0, []));
    NothingSkips(f, s, Cursor(|s|, events));
  }

  /** The round trip: the writer, fed the events of any printable value, produces a text that
      both parsers accept under every setting of the flags, and the events they emit rebuild
      exactly that value in a document. */
  lemma PrintParseRoundTrip(f: Flags, p: Style, v: Value)
    requires LegalFormat(p.format) && Printable(p.ascii, v)
    ensures var printed := Write(p, WriterState([], [], false), Events(FromValue, v));
            printed.Some? &&
            var text := printed.value.os;
            var parsed := RecursiveParse(f, text);
            && parsed.Some? && IterativeParse(f, text) == parsed && parsed.value.pos == |text|
            && Replay([], parsed.value.out) == Some([v])
  {
    hide *;
    WriterPrintsValue(p, v);
    var text, events := Render(p, v, 0), Events(FromText, v);
    RenderStarts(p, v, 0);
    WholeHolds(text);
    ValueParses(f, p, text, Cursor(0, []), v, 0);
    assert Advanced(Cursor(0, []), |text|, events) == Cursor(|text|, events) by { FromNothing(|text|, events); }
    RootParses(f, text, events);
    ParserEquivalence.ParsersAgree(f, text);
    ReplayPushesValue(FromText, [], v);
    assert [] + [v] == [v];
  }

  /** Only doubles are beyond the round trip: any value without them that a text can hold is
      printable to UTF-8, and to ASCII when its strings are well-formed. */
  lemma {:induction false} ParsedIsPrintable(v: Value)
    requires InRange(v) && DoubleFree(v)
    ensures Printable(false, v)
  {
    match v
    case Arr(elems) => forall k | 0 <= k < |elems| ensures Printable(false, elems[k]) { ParsedIsPrintable(elems[k]); }
    case Obj(members) =>
      forall k | 0 <= k < |members| ensures Printable(false, members[k].value) { ParsedIsPrintable(members[k].value); }
    case _ =>
  }

  /** Reformatting: any text that parses to a value without doubles, printed again in any UTF-8
      style and parsed under any flags, gives the same value. */
  lemma ReformatKeepsValue(f: Flags, text: Text, g: Flags, p: Style)
    requires RecursiveParse(f, text).Some? && LegalFormat(p.format) && !p.ascii
    requires var stack := Replay([], RecursiveParse(f, text).value.out);
             stack.Some? && |stack.value| == 1 && DoubleFree(stack.value[0])
    ensures var v := Replay([], RecursiveParse(f, text).value.out).value[0];
            var printed := Write(p, WriterState([], [], false), Events(FromValue, v));
            && printed.Some?
            && RecursiveParse(g, printed.value.os).Some?
            && Replay([], RecursiveParse(g, printed.value.os).value.out) == Some([v])
  {
    hide *;
    var v := SuccessfulParseLeavesOneValue(f, text);
    ParsedIsPrintable(v);
    PrintParseRoundTrip(g, p, v);
  }

  /** With an ASCII target any well-formed string becomes pure ASCII that reads back as the
      same bytes. */
  lemma AsciiStringRoundTrip(s: Text)
    requires Codec.WellFormed(s)
    ensures StringText(true, s).Some?
    ensures var t := StringText(true, s).value;
            && AllAscii(t) && t != []
            && StringAt(t, Cursor(0, []), false) == Some(Cursor(|t|, [OnString(s)]))
  {
    hide StringAt, StringText, Codec.WellFormed;
    PrintableStrings(s);
    StringTextIsAscii(s);
    var t := StringText(true, s).value;
    WholeHolds(t);
    StringParses(true, s, t, Cursor(0, []), false);
    assert [] + [OnString(s)] == [OnString(s)];
  }

  lemma FromNothing(n: nat, events: seq<Event>)
    ensures Advanced(Cursor(0, []), n, events) == Cursor(n, events)
  {
    assert [] + events == events;
  }

  lemma WholeHolds(s: Text)
    ensures Holds(s, 0, s) && Stops(Peek(s, 0 + |s|))
  {
  }
}
