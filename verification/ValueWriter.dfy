/** A value traversed with the writer as the handler: the printer as a recursive method. */
module ValueWriter {
  import opened Bytes
  import opened Json
  import opened WriterSpec
  import opened Document
  import opened Printing
  import Writer

  /** One handler call whose outcome is known. */
  method Emit(w: Writer.Writer, e: Event, ghost next: WriterState)
    requires Write(w.style, w.State(), [e]) == Some(next)
    modifies w
    ensures w.State() == next
  {
    WriteSingle(w.style, w.State(), e);
    StepAllowed(w.style, w.State(), e);
    var ok := w.Handle(e);
  }

  lemma StepAllowed(p: Style, w: WriterState, e: Event)
    requires WriterSpec.Step(p, w, e).Some?
    ensures Allowed(w, e)
  {
  }

  /** Prints a value where one may come next: its separator, then its text. */
  method Accept(w: Writer.Writer, v: Value)
    requires Printable(w.style.ascii, v) && Ready(w.State())
    modifies w
    ensures w.State() == Wrote(w.style, old(w.State()), Render(w.style, v, |old(w.State()).levels|))
    decreases v, 1
  {
    hide *;
    match v
    case Arr(elems) =>
      PrintableParts(w.style.ascii, v);
      AcceptArray(w, elems);
    case Obj(members) =>
      PrintableParts(w.style.ascii, v);
      AcceptObject(w, members);
    case _ =>
      ghost var was := w.State();
      ScalarWrites(w.style, was, v);
      var e := ScalarEvent(v);
      Emit(w, e, Wrote(w.style, was, Render(w.style, v, |was.levels|)));
  }

  lemma PrintableParts(ascii: bool, v: Value)
    requires Printable(ascii, v)
    ensures v.Arr? ==> forall k :: 0 <= k < |v.elems| ==> Printable(ascii, v.elems[k])
    ensures v.Obj? ==> forall k :: 0 <= k < |v.members| ==>
              StringText(ascii, v.members[k].name).Some? && Printable(ascii, v.members[k].value)
  {
  }

  /** The one event of a scalar. */
  method ScalarEvent(v: Value) returns (e: Event)
    requires !v.Arr? && !v.Obj?
    ensures Events(FromValue, v) == [e]
  {
    match v
    case Null => e := OnNull;
    case Bool(b) => e := OnBool(b);
    case Double(d) => e := OnDouble(d);
    case Str(s) => e := OnString(s);
    case Num(n) => e := NumberEvent(FromValue, n);
  }

  method AcceptArray(w: Writer.Writer, elems: seq<Value>)
    requires (forall k :: 0 <= k < |elems| ==> Printable(w.style.ascii, elems[k])) && Ready(w.State())
    modifies w
    ensures w.State() == Wrote(w.style, old(w.State()), Render(w.style, Arr(elems), |old(w.State()).levels|))
    decreases elems, 2
  {
    hide *;
    ghost var p, was := w.style, w.State();
    ghost var outer, depth := Bump(was.levels), |was.levels|;
    ghost var start, body := was.os + PrefixText(p.format, was.levels), RenderElements(p, elems, 0, depth + 1);
    ArrayUnfold(p, was, elems);
    Emit(w, OnStartArray, WriterState(start + [LEFT_BRACKET], outer + [Level(0, true)], true));
    ghost var os := start + [LEFT_BRACKET];
    assert elems[0..] == elems;
    for k := 0 to |elems|
      invariant w.State() == WriterState(os, outer + [Level(k, true)], true)
      invariant os + RenderElements(p, elems[k..], k, depth + 1) == start + [LEFT_BRACKET] + body
    {
      ghost var gap, text := Gap(p.format, true, k, depth + 1), Render(p, elems[k], depth + 1);
      assert elems[k..][0] == elems[k] && elems[k..][1..] == elems[k + 1..];
      ElementsUnfold(p, was, elems[k..], k, depth + 1);
      InContainer(p, os, outer, k, true, text);
      Accept(w, elems[k]);
      ghost var rest := RenderElements(p, elems[k + 1..], k + 1, depth + 1);
      assert os + (gap + text + rest) == os + gap + text + rest;
      os := os + gap + text;
    }
    ElementsUnfold(p, was, elems[|elems|..], |elems|, depth + 1);
    assert os + [] == os;
    ArrayEnds(p, os, outer, |elems|);
    ghost var close := Closing(p.format, true, |elems|, depth);
    Emit(w, OnEndArray(|elems|), WriterState(os + close + [RIGHT_BRACKET], outer, true));
    Enclosed(start, [LEFT_BRACKET], body, close, [RIGHT_BRACKET]);
  }

  method AcceptObject(w: Writer.Writer, members: seq<Member>)
    requires forall k :: 0 <= k < |members| ==>
               StringText(w.style.ascii, members[k].name).Some? && Printable(w.style.ascii, members[k].value)
    requires Ready(w.State())
    modifies w
    ensures w.State() == Wrote(w.style, old(w.State()), Render(w.style, Obj(members), |old(w.State()).levels|))
    decreases members, 2
  {
    hide *;
    ghost var p, was := w.style, w.State();
    ghost var outer, depth := Bump(was.levels), |was.levels|;
    ghost var start, body := was.os + PrefixText(p.format, was.levels), RenderMembers(p, members, 0, depth + 1);
    ObjectUnfold(p, was, members);
    Emit(w, OnStartObject, WriterState(start + [LEFT_BRACE], outer + [Level(0, false)], true));
    ghost var os := start + [LEFT_BRACE];
    assert members[0..] == members;
    for k := 0 to |members|
      invariant w.State() == WriterState(os, outer + [Level(2 * k, false)], true)
      invariant os + RenderMembers(p, members[k..], k, depth + 1) == start + [LEFT_BRACE] + body
    {
      var m := members[k];
      ghost var comma, colon := Gap(p.format, false, 2 * k, depth + 1), Gap(p.format, false, 2 * k + 1, depth + 1);
      ghost var name, text := Quoted(p.ascii, m.name), Render(p, m.value, depth + 1);
      assert members[k..][0] == m && members[k..][1..] == members[k + 1..];
      MembersUnfold(p, was, members[k..], k, depth + 1);
      NameWrites(p, os, outer, k, m.name);
      Emit(w, OnKey(m.name), WriterState(os + comma + name, outer + [Level(2 * k + 1, false)], true));
      InContainer(p, os + comma + name, outer, 2 * k + 1, false, text);
      Accept(w, m.value);
      ghost var rest := RenderMembers(p, members[k + 1..], k + 1, depth + 1);
      Regroup(os, comma, name, colon, text, rest);
      os := os + comma + name + colon + text;
    }
    MembersUnfold(p, was, members[|members|..], |members|, depth + 1);
    assert os + [] == os;
    ObjectEnds(p, os, outer, |members|);
    ghost var close := Closing(p.format, false, 2 * |members|, depth);
    Emit(w, OnEndObject(|members|), WriterState(os + close + [RIGHT_BRACE], outer, true));
    Enclosed(start, [LEFT_BRACE], body, close, [RIGHT_BRACE]);
  }

  lemma Regroup(os: Text, a: Text, b: Text, c: Text, d: Text, rest: Text)
    ensures os + (a + b + c + d + rest) == os + a + b + c + d + rest
  {
  }

  lemma Enclosed(start: Text, open: Text, body: Text, gap: Text, close: Text)
    ensures start + open + body + gap + close == start + (open + body + gap + close)
  {
  }

  /** Printing a value to an empty writer gives its text, and nothing is left open. */
  method ToText(style: Style, v: Value) returns (text: Text)
    requires Printable(style.ascii, v)
    ensures text == Render(style, v, 0)
    ensures Write(style, WriterState([], [], false), Events(FromValue, v)) == Some(WriterState(text, [], true))
  {
    hide *;
    var w := new Writer.Writer(style);
    AtTheRoot(style, Render(style, v, 0));
    Accept(w, v);
    WriterPrintsValue(style, v);
    text := w.os;
    StateParts(w);
  }

  lemma AtTheRoot(p: Style, t: Text)
    ensures Ready(WriterState([], [], false))
    ensures Wrote(p, WriterState([], [], false), t) == WriterState(t, [], true)
  {
    assert [] + [] + t == t;
  }

  lemma StateParts(w: Writer.Writer)
    ensures w.State() == WriterState(w.os, w.levels, w.hasRoot)
  {
  }
}
