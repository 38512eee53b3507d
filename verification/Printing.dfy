/** The text of a value, and that the writer, driven by the events of the value, emits it. */
module Printing {
  import opened Bytes
  import opened Json
  import opened WriterSpec
  import opened Document
  import Codec
  import Utf8

  function Quoted(ascii: bool, s: Text): Text {
    match StringText(ascii, s)
    case None => []
    case Some(t) => t
  }

  function Render(p: Style, v: Value, depth: nat): Text
    decreases v, 0
  {
    match v
    case Null => NULL_WORD
    case Bool(b) => if b then TRUE_WORD else FALSE_WORD
    case Num(n) => IntegerText(n)
    case Double(_) => []
    case Str(s) => Quoted(p.ascii, s)
    case Arr(elems) =>
      [LEFT_BRACKET] + RenderElements(p, elems, 0, depth + 1)
      + Closing(p.format, true, |elems|, depth) + [RIGHT_BRACKET]
    case Obj(members) =>
      [LEFT_BRACE] + RenderMembers(p, members, 0, depth + 1)
      + Closing(p.format, false, 2 * |members|, depth) + [RIGHT_BRACE]
  }

  /** The elements that follow the first k of an array. */
  function RenderElements(p: Style, elems: seq<Value>, k: nat, depth: nat): Text
    decreases elems, 1
  {
    if elems == [] then []
    else Gap(p.format, true, k, depth) + Render(p, elems[0], depth) + RenderElements(p, elems[1..], k + 1, depth)
  }

  /** The members that follow the first k of an object. */
  function RenderMembers(p: Style, members: seq<Member>, k: nat, depth: nat): Text
    decreases members, 1
  {
    if members == [] then []
    else Gap(p.format, false, 2 * k, depth) + Quoted(p.ascii, members[0].name)
         + Gap(p.format, false, 2 * k + 1, depth) + Render(p, members[0].value, depth)
         + RenderMembers(p, members[1..], k + 1, depth)
  }

  /** What the writer prints: no doubles, integers of 64 bits, and for an ASCII target strings
      that are well-formed UTF-8. */
  predicate Printable(ascii: bool, v: Value)
    decreases v
  {
    match v
    case Double(_) => false
    case Num(n) => INT64_MIN <= n <= UINT64_MAX
    case Str(s) => StringText(ascii, s).Some?
    case Arr(elems) => forall k :: 0 <= k < |elems| ==> Printable(ascii, elems[k])
    case Obj(members) =>
      forall k :: 0 <= k < |members| ==>
        StringText(ascii, members[k].name).Some? && Printable(ascii, members[k].value)
    case _ => true
  }

  /** With an ASCII target exactly the well-formed strings are printable. */
  lemma {:induction false} BodyIffValid(s: Text, k: nat)
    requires k <= |s|
    ensures BodyFrom(true, s, k).Some? <==> Codec.ValidFrom(s, k)
    decreases |s| - k
  {
    if k < |s| {
      if s[k] >= 0x80 {
        match Utf8.DecodeAt(s, k)
        case None =>
        case Some(u) => BodyIffValid(s, u.pos);
      } else {
        BodyIffValid(s, k + 1);
      }
    }
  }

  lemma PrintableStrings(s: Text)
    ensures StringText(false, s).Some?
    ensures StringText(true, s).Some? <==> Codec.WellFormed(s)
  {
    BodyIffValid(s, 0);
    Codec.ValidIffWellFormed(s);
  }

  predicate AllAscii(t: Text) {
    forall k :: 0 <= k < |t| ==> t[k] < 0x80
  }

  lemma AsciiPieces(cp: nat, c: Byte)
    requires Utf8.IsScalar(cp)
    ensures AllAscii(CodepointEscape(cp)) && (c < 0x80 ==> AllAscii(ByteText(c)))
  {
  }

  lemma {:induction false} BodyIsAscii(s: Text, k: nat)
    requires k <= |s| && BodyFrom(true, s, k).Some?
    ensures AllAscii(BodyFrom(true, s, k).value)
    decreases |s| - k
  {
    hide CodepointEscape, ByteText, Utf8.DecodeAt;
    if k < |s| {
      if s[k] >= 0x80 {
        var u := Utf8.DecodeAt(s, k).value;
        BodyIsAscii(s, u.pos);
        AsciiPieces(u.codepoint, 0);
      } else {
        BodyIsAscii(s, k + 1);
        AsciiPieces(0, s[k]);
      }
    }
  }

  /** With an ASCII target the text of a string is pure ASCII. */
  lemma StringTextIsAscii(s: Text)
    requires StringText(true, s).Some?
    ensures AllAscii(StringText(true, s).value)
  {
    BodyIsAscii(s, 0);
  }

  // ---------- the writer prints the text of a value ----------

  /** A value may come next: at an empty root, in an array, or after a name. */
  predicate Ready(w: WriterState) {
    if w.levels == [] then !w.hasRoot
    else w.hasRoot && var top := w.levels[|w.levels| - 1]; top.inArray || top.valueCount % 2 == 1
  }

  /** The state after a value or a name whose text is t. */
  function Wrote(p: Style, w: WriterState, t: Text): WriterState {
    WriterState(w.os + PrefixText(p.format, w.levels) + t, Bump(w.levels), RootSeen(w))
  }

  lemma WriteSingle(p: Style, w: WriterState, e: Event)
    ensures Write(p, w, [e]) == WriterSpec.Step(p, w, e)
  {
    assert [e][..0] == [];
  }

  lemma WriteChain(p: Style, w: WriterState, a: seq<Event>, b: seq<Event>, mid: WriterState, end: WriterState)
    requires Write(p, w, a) == Some(mid) && Write(p, mid, b) == Some(end)
    ensures Write(p, w, a + b) == Some(end)
  {
    WriteConcat(p, w, a, b);
  }

  lemma ScalarWrites(p: Style, w: WriterState, v: Value)
    requires Printable(p.ascii, v) && Ready(w) && !v.Arr? && !v.Obj?
    ensures Write(p, w, Events(FromValue, v)) == Some(Wrote(p, w, Render(p, v, |w.levels|)))
  {
    WriteSingle(p, w, Events(FromValue, v)[0]);
    assert Events(FromValue, v) == [Events(FromValue, v)[0]];
  }

  lemma {:induction false} ValueWrites(p: Style, w: WriterState, v: Value)
    requires Printable(p.ascii, v) && Ready(w)
    ensures Write(p, w, Events(FromValue, v)) == Some(Wrote(p, w, Render(p, v, |w.levels|)))
    decreases v, 0
  {
    match v
    case Arr(elems) => ArrayWrites(p, w, elems);
    case Obj(members) => ObjectWrites(p, w, members);
    case _ => ScalarWrites(p, w, v);
  }

  lemma ArrayEnds(p: Style, os: Text, outer: seq<Level>, n: nat)
    ensures Write(p, WriterState(os, outer + [Level(n, true)], true), [OnEndArray(n)]) ==
            Some(WriterState(os + Closing(p.format, true, n, |outer|) + [RIGHT_BRACKET], outer, true))
  {
    WriteSingle(p, WriterState(os, outer + [Level(n, true)], true), OnEndArray(n));
    assert (outer + [Level(n, true)])[..|outer|] == outer;
  }

  /** The pieces of an array: its events, its text, and the writer's state after that text. */
  lemma ArrayUnfold(p: Style, w: WriterState, elems: seq<Value>)
    requires Ready(w)
    ensures var depth := |w.levels|;
            var start := w.os + PrefixText(p.format, w.levels);
            var body, close := RenderElements(p, elems, 0, depth + 1), Closing(p.format, true, |elems|, depth);
            && Events(FromValue, Arr(elems)) == [OnStartArray] + ElementEvents(FromValue, elems) + [OnEndArray(|elems|)]
            && Render(p, Arr(elems), depth) == [LEFT_BRACKET] + body + close + [RIGHT_BRACKET]
            && Wrote(p, w, Render(p, Arr(elems), depth)) ==
               WriterState(start + ([LEFT_BRACKET] + body + close + [RIGHT_BRACKET]), Bump(w.levels), true)
            && Write(p, w, [OnStartArray]) ==
               Some(WriterState(start + [LEFT_BRACKET], Bump(w.levels) + [Level(0, true)], true))
  {
    WriteSingle(p, w, OnStartArray);
  }

  lemma {:induction false} ArrayWrites(p: Style, w: WriterState, elems: seq<Value>)
    requires forall k :: 0 <= k < |elems| ==> Printable(p.ascii, elems[k])
    requires Ready(w)
    ensures Write(p, w, Events(FromValue, Arr(elems))) == Some(Wrote(p, w, Render(p, Arr(elems), |w.levels|)))
    decreases elems, 2
  {
    hide *;
    ArrayUnfold(p, w, elems);
    var items, end := ElementEvents(FromValue, elems), [OnEndArray(|elems|)];
    var outer, depth := Bump(w.levels), |w.levels|;
    var body, close := RenderElements(p, elems, 0, depth + 1), Closing(p.format, true, |elems|, depth);
    var start := w.os + PrefixText(p.format, w.levels);
    var entered, filled := WriterState(start + [LEFT_BRACKET], outer + [Level(0, true)], true),
                           WriterState(start + [LEFT_BRACKET] + body, outer + [Level(|elems|, true)], true);
    var closed := WriterState(start + [LEFT_BRACKET] + body + close + [RIGHT_BRACKET], outer, true);
    ElementsWrite(p, start + [LEFT_BRACKET], outer, elems, 0);
    ArrayEnds(p, start + [LEFT_BRACKET] + body, outer, |elems|);
    WriteChain(p, w, [OnStartArray], items, entered, filled);
    WriteChain(p, w, [OnStartArray] + items, end, filled, closed);
    assert start + [LEFT_BRACKET] + body + close + [RIGHT_BRACKET] ==
           start + ([LEFT_BRACKET] + body + close + [RIGHT_BRACKET]);
  }

  lemma {:induction false} ElementsWrite(p: Style, os: Text, outer: seq<Level>, elems: seq<Value>, k: nat)
    requires forall n :: 0 <= n < |elems| ==> Printable(p.ascii, elems[n])
    ensures Write(p, WriterState(os, outer + [Level(k, true)], true), ElementEvents(FromValue, elems)) ==
            Some(WriterState(os + RenderElements(p, elems, k, |outer| + 1), outer + [Level(k + |elems|, true)], true))
    decreases elems, 1
  {
    hide *;
    var w, depth := WriterState(os, outer + [Level(k, true)], true), |outer| + 1;
    ElementsUnfold(p, w, elems, k, depth);
    if elems == [] {
      assert os + [] == os;
    } else {
      var gap, text := Gap(p.format, true, k, depth), Render(p, elems[0], depth);
      var rest := RenderElements(p, elems[1..], k + 1, depth);
      InContainer(p, os, outer, k, true, text);
      ValueWrites(p, w, elems[0]);
      assert |w.levels| == depth;
      ElementsWrite(p, os + gap + text, outer, elems[1..], k + 1);
      WriteChain(p, w, Events(FromValue, elems[0]), ElementEvents(FromValue, elems[1..]),
                 WriterState(os + gap + text, outer + [Level(k + 1, true)], true),
                 WriterState(os + gap + text + rest, outer + [Level(k + 1 + |elems[1..]|, true)], true));
      assert os + gap + text + rest == os + (gap + text + rest);
    }
  }

  lemma ElementsUnfold(p: Style, w: WriterState, elems: seq<Value>, k: nat, depth: nat)
    ensures elems == [] ==>
            Write(p, w, ElementEvents(FromValue, elems)) == Some(w) && RenderElements(p, elems, k, depth) == []
    ensures elems != [] ==>
              && ElementEvents(FromValue, elems) == Events(FromValue, elems[0]) + ElementEvents(FromValue, elems[1..])
              && RenderElements(p, elems, k, depth) ==
                 Gap(p.format, true, k, depth) + Render(p, elems[0], depth)
                 + RenderElements(p, elems[1..], k + 1, depth)
  {
  }

  /** A value inside a container: its separator, and one more value counted. */
  lemma InContainer(p: Style, os: Text, outer: seq<Level>, n: nat, inArray: bool, t: Text)
    ensures var w := WriterState(os, outer + [Level(n, inArray)], true);
            && (inArray || n % 2 == 1 ==> Ready(w))
            && Wrote(p, w, t) ==
               WriterState(os + Gap(p.format, inArray, n, |outer| + 1) + t, outer + [Level(n + 1, inArray)], true)
  {
    assert (outer + [Level(n, inArray)])[..|outer|] == outer;
  }

  lemma ObjectEnds(p: Style, os: Text, outer: seq<Level>, n: nat)
    ensures Write(p, WriterState(os, outer + [Level(2 * n, false)], true), [OnEndObject(n)]) ==
            Some(WriterState(os + Closing(p.format, false, 2 * n, |outer|) + [RIGHT_BRACE], outer, true))
  {
    WriteSingle(p, WriterState(os, outer + [Level(2 * n, false)], true), OnEndObject(n));
    assert (outer + [Level(2 * n, false)])[..|outer|] == outer;
  }

  /** The pieces of an object: its events, its text, and the writer's state after that text. */
  lemma ObjectUnfold(p: Style, w: WriterState, members: seq<Member>)
    requires Ready(w)
    ensures var depth := |w.levels|;
            var start := w.os + PrefixText(p.format, w.levels);
            var body, close := RenderMembers(p, members, 0, depth + 1), Closing(p.format, false, 2 * |members|, depth);
            && Events(FromValue, Obj(members)) ==
               [OnStartObject] + MemberEvents(FromValue, members) + [OnEndObject(|members|)]
            && Render(p, Obj(members), depth) == [LEFT_BRACE] + body + close + [RIGHT_BRACE]
            && Wrote(p, w, Render(p, Obj(members), depth)) ==
               WriterState(start + ([LEFT_BRACE] + body + close + [RIGHT_BRACE]), Bump(w.levels), true)
            && Write(p, w, [OnStartObject]) ==
               Some(WriterState(start + [LEFT_BRACE], Bump(w.levels) + [Level(0, false)], true))
  {
    WriteSingle(p, w, OnStartObject);
  }

  lemma {:induction false} ObjectWrites(p: Style, w: WriterState, members: seq<Member>)
    requires forall n :: 0 <= n < |members| ==>
               StringText(p.ascii, members[n].name).Some? && Printable(p.ascii, members[n].value)
    requires Ready(w)
    ensures Write(p, w, Events(FromValue, Obj(members))) == Some(Wrote(p, w, Render(p, Obj(members), |w.levels|)))
    decreases members, 2
  {
    hide *;
    ObjectUnfold(p, w, members);
    var items, end := MemberEvents(FromValue, members), [OnEndObject(|members|)];
    var outer, depth := Bump(w.levels), |w.levels|;
    var body, close := RenderMembers(p, members, 0, depth + 1), Closing(p.format, false, 2 * |members|, depth);
    var start := w.os + PrefixText(p.format, w.levels);
    var entered, filled := WriterState(start + [LEFT_BRACE], outer + [Level(0, false)], true),
                           WriterState(start + [LEFT_BRACE] + body, outer + [Level(2 * |members|, false)], true);
    var closed := WriterState(start + [LEFT_BRACE] + body + close + [RIGHT_BRACE], outer, true);
    MembersWrite(p, start + [LEFT_BRACE], outer, members, 0);
    ObjectEnds(p, start + [LEFT_BRACE] + body, outer, |members|);
    WriteChain(p, w, [OnStartObject], items, entered, filled);
    WriteChain(p, w, [OnStartObject] + items, end, filled, closed);
    assert start + [LEFT_BRACE] + body + close + [RIGHT_BRACE] == start + ([LEFT_BRACE] + body + close + [RIGHT_BRACE]);
  }

  lemma NameWrites(p: Style, os: Text, outer: seq<Level>, k: nat, name: Text)
    requires StringText(p.ascii, name).Some?
    ensures Write(p, WriterState(os, outer + [Level(2 * k, false)], true), [OnKey(name)]) ==
            Some(WriterState(os + Gap(p.format, false, 2 * k, |outer| + 1) + Quoted(p.ascii, name),
                             outer + [Level(2 * k + 1, false)], true))
  {
    WriteSingle(p, WriterState(os, outer + [Level(2 * k, false)], true), OnKey(name));
    InContainer(p, os, outer, 2 * k, false, Quoted(p.ascii, name));
  }

  lemma {:induction false} MembersWrite(p: Style, os: Text, outer: seq<Level>, members: seq<Member>, k: nat)
    requires forall n :: 0 <= n < |members| ==>
               StringText(p.ascii, members[n].name).Some? && Printable(p.ascii, members[n].value)
    ensures Write(p, WriterState(os, outer + [Level(2 * k, false)], true), MemberEvents(FromValue, members)) ==
            Some(WriterState(os + RenderMembers(p, members, k, |outer| + 1),
                             outer + [Level(2 * (k + |members|), false)], true))
    decreases members, 1
  {
    hide *;
    var w, depth := WriterState(os, outer + [Level(2 * k, false)], true), |outer| + 1;
    MembersUnfold(p, w, members, k, depth);
    if members == [] {
      assert os + [] == os;
    } else {
      var m := members[0];
      var name, gap := Quoted(p.ascii, m.name), Gap(p.format, false, 2 * k + 1, depth);
      var start := os + Gap(p.format, false, 2 * k, depth) + name;
      var text, rest := Render(p, m.value, depth), RenderMembers(p, members[1..], k + 1, depth);
      var named := WriterState(start, outer + [Level(2 * k + 1, false)], true);
      var after := WriterState(start + gap + text, outer + [Level(2 * (k + 1), false)], true);
      NameWrites(p, os, outer, k, m.name);
      InContainer(p, start, outer, 2 * k + 1, false, text);
      ValueWrites(p, named, m.value);
      assert |named.levels| == depth;
      MembersWrite(p, start + gap + text, outer, members[1..], k + 1);
      WriteChain(p, w, [OnKey(m.name)], Events(FromValue, m.value), named, after);
      WriteChain(p, w, [OnKey(m.name)] + Events(FromValue, m.value), MemberEvents(FromValue, members[1..]), after,
                 WriterState(start + gap + text + rest, outer + [Level(2 * (k + 1 + |members[1..]|), false)], true));
      assert start + gap + text + rest == os + (Gap(p.format, false, 2 * k, depth) + name + gap + text + rest);
    }
  }

  lemma MembersUnfold(p: Style, w: WriterState, members: seq<Member>, k: nat, depth: nat)
    ensures members == [] ==>
              Write(p, w, MemberEvents(FromValue, members)) == Some(w) && RenderMembers(p, members, k, depth) == []
    ensures members != [] ==>
              && MemberEvents(FromValue, members) ==
                 [OnKey(members[0].name)] + Events(FromValue, members[0].value) + MemberEvents(FromValue, members[1..])
              && RenderMembers(p, members, k, depth) ==
                 Gap(p.format, false, 2 * k, depth) + Quoted(p.ascii, members[0].name)
                 + Gap(p.format, false, 2 * k + 1, depth) + Render(p, members[0].value, depth)
                 + RenderMembers(p, members[1..], k + 1, depth)
  {
  }

  /** A fresh writer that receives the events of a printable value emits its text, ends with an
      empty level stack and is complete. */
  lemma WriterPrintsValue(p: Style, v: Value)
    requires Printable(p.ascii, v)
    ensures Write(p, WriterState([], [], false), Events(FromValue, v)) == Some(WriterState(Render(p, v, 0), [], true))
  {
    ValueWrites(p, WriterState([], [], false), v);
    assert [] + PrefixText(p.format, []) + Render(p, v, 0) == Render(p, v, 0);
  }
}
