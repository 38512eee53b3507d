/** GenericDocument: the events of a value, the stack machine that turns events into a value,
    and the two places that rely on it leaving exactly one value, Populate and ParseStream. */
module Document {
  import opened Bytes
  import opened Json
  import opened ReaderSpec
  import Reader

  // ---------- the events of a value ----------

  /** Who sends the events: a value being traversed, or the reader of its text. They choose
      different events for the same integer. */
  datatype Source = FromValue | FromText

  function NumberEvent(src: Source, n: int): Event {
    match src
    case FromValue =>
      if INT32_MIN <= n <= INT32_MAX then OnInt(n)
      else if 0 <= n <= UINT32_MAX then OnUint(n)
      else if INT64_MIN <= n <= INT64_MAX then OnInt64(n)
      else OnUint64(n)
    case FromText =>
      if n < 0 then (if n >= INT32_MIN then OnInt(n) else OnInt64(n))
      else if n <= UINT32_MAX then OnUint(n) else OnUint64(n)
  }

  function Events(src: Source, v: Value): seq<Event>
    decreases v, 0
  {
    match v
    case Null => [OnNull]
    case Bool(b) => [OnBool(b)]
    case Num(n) => [NumberEvent(src, n)]
    case Double(d) => [OnDouble(d)]
    case Str(s) => [OnString(s)]
    case Arr(elems) => [OnStartArray] + ElementEvents(src, elems) + [OnEndArray(|elems|)]
    case Obj(members) => [OnStartObject] + MemberEvents(src, members) + [OnEndObject(|members|)]
  }

  function ElementEvents(src: Source, elems: seq<Value>): seq<Event>
    decreases elems, 1
  {
    if elems == [] then [] else Events(src, elems[0]) + ElementEvents(src, elems[1..])
  }

  function MemberEvents(src: Source, members: seq<Member>): seq<Event>
    decreases members, 1
  {
    if members == [] then []
    else [OnKey(members[0].name)] + Events(src, members[0].value) + MemberEvents(src, members[1..])
  }

  // ---------- the handler ----------

  /** Names and values lie alternately on the stack. */
  predicate IsMembers(items: seq<Value>) {
    |items| % 2 == 0 && forall k :: 0 <= k < |items| && k % 2 == 0 ==> items[k].Str?
  }

  function PairUp(items: seq<Value>): (r: seq<Member>)
    requires IsMembers(items)
    ensures |r| == |items| / 2
  {
    if items == [] then [] else
    assert items[0].Str?;
    [Member(items[0].s, items[1])] + PairUp(items[2..])
  }

  function Flatten(members: seq<Member>): seq<Value> {
    if members == [] then [] else [Str(members[0].name), members[0].value] + Flatten(members[1..])
  }

  lemma {:induction false} PairUpFlatten(members: seq<Member>)
    ensures |Flatten(members)| == 2 * |members| && IsMembers(Flatten(members))
    ensures PairUp(Flatten(members)) == members
  {
    if members != [] {
      PairUpFlatten(members[1..]);
      var f, rest := Flatten(members), Flatten(members[1..]);
      assert f[2..] == rest;
      forall k | 0 <= k < |f| && k % 2 == 0 ensures f[k].Str? {
        if k > 0 { assert f[k] == rest[k - 2]; }
      }
    }
  }

  /** One handler call; None when it would pop more than the stack holds. */
  function Step(stack: seq<Value>, e: Event): Option<seq<Value>> {
    match e
    case OnNull => Some(stack + [Null])
    case OnBool(b) => Some(stack + [Bool(b)])
    case OnInt(i) => Some(stack + [Num(i)])
    case OnUint(i) => Some(stack + [Num(i)])
    case OnInt64(i) => Some(stack + [Num(i)])
    case OnUint64(i) => Some(stack + [Num(i)])
    case OnDouble(d) => Some(stack + [Double(d)])
    case OnString(s) => Some(stack + [Str(s)])
    case OnKey(s) => Some(stack + [Str(s)])
    case OnStartObject => Some(stack + [Obj([])])
    case OnStartArray => Some(stack + [Arr([])])
    case OnEndObject(n) =>
      var base := |stack| - 2 * n;
      if base < 1 || !IsMembers(stack[base..]) then None
      else Some(stack[..base - 1] + [Obj(PairUp(stack[base..]))])
    case OnEndArray(n) =>
      var base := |stack| - n;
      if base < 1 then None else Some(stack[..base - 1] + [Arr(stack[base..])])
  }

  function Replay(stack: seq<Value>, events: seq<Event>): Option<seq<Value>> {
    if events == [] then Some(stack) else
    match Replay(stack, events[..|events| - 1])
    case None => None
    case Some(top) => Step(top, events[|events| - 1])
  }

  lemma ReplayOne(stack: seq<Value>, events: seq<Event>, e: Event)
    ensures Replay(stack, events + [e]) ==
            match Replay(stack, events)
            case None => None
            case Some(top) => Step(top, e)
  {
    assert (events + [e])[..|events + [e]| - 1] == events;
  }

  lemma {:induction false} ReplayConcat(stack: seq<Value>, a: seq<Event>, b: seq<Event>)
    ensures Replay(stack, a + b) ==
            match Replay(stack, a)
            case None => None
            case Some(top) => Replay(top, b)
    decreases |b|
  {
    if b == [] {
      assert a + b == a;
    } else {
      var front, last := b[..|b| - 1], b[|b| - 1];
      ReplayConcat(stack, a, front);
      assert a + b == (a + front) + [last];
      ReplayOne(stack, a + front, last);
    }
  }

  lemma ReplayChain(stack: seq<Value>, a: seq<Event>, b: seq<Event>, mid: seq<Value>, top: seq<Value>)
    requires Replay(stack, a) == Some(mid) && Replay(mid, b) == Some(top)
    ensures Replay(stack, a + b) == Some(top)
  {
    ReplayConcat(stack, a, b);
  }

  lemma ReplaySingle(stack: seq<Value>, e: Event)
    ensures Replay(stack, [e]) == Step(stack, e)
  {
    assert [e][..0] == [];
  }

  /** A start event, the events inside and an end event. */
  lemma ReplayBracketed(stack: seq<Value>, start: Event, items: seq<Event>, end: Event,
                     inside: seq<Value>, full: seq<Value>)
    requires Step(stack, start) == Some(inside) && Replay(inside, items) == Some(full)
    ensures Replay(stack, [start] + items + [end]) == Step(full, end)
  {
    ReplaySingle(stack, start);
    ReplayConcat(stack, [start], items);
    ReplayOne(stack, [start] + items, end);
  }

  /** Replaying the events of any value leaves the stack with exactly that value on top. */
  lemma {:induction false} ReplayPushesValue(src: Source, stack: seq<Value>, v: Value)
    ensures Replay(stack, Events(src, v)) == Some(stack + [v])
    decreases v, 0
  {
    match v
    case Arr(elems) =>
      var inside := stack + [Arr([])];
      ReplayPushesElements(src, inside, elems);
      ReplayBracketed(stack, OnStartArray, ElementEvents(src, elems), OnEndArray(|elems|), inside, inside + elems);
      ArrayEnd(stack, elems);
    case Obj(members) =>
      var inside := stack + [Obj([])];
      ReplayPushesMembers(src, inside, members);
      ReplayBracketed(stack, OnStartObject, MemberEvents(src, members), OnEndObject(|members|),
                   inside, inside + Flatten(members));
      ObjectEnd(stack, members);
    case Num(n) => ReplaySingle(stack, NumberEvent(src, n));
    case Null => ReplaySingle(stack, OnNull);
    case Bool(b) => ReplaySingle(stack, OnBool(b));
    case Double(d) => ReplaySingle(stack, OnDouble(d));
    case Str(s) => ReplaySingle(stack, OnString(s));
  }

  lemma ArrayEnd(stack: seq<Value>, elems: seq<Value>)
    ensures Step(stack + [Arr([])] + elems, OnEndArray(|elems|)) == Some(stack + [Arr(elems)])
  {
    var full := stack + [Arr([])] + elems;
    var base := |full| - |elems|;
    assert full[base..] == elems && full[..base - 1] == stack;
  }

  lemma TopOf(stack: seq<Value>, started: Value, items: seq<Value>)
    ensures var full := stack + [started] + items;
            && full[|stack| + 1..] == items && full[..|stack|] == stack && full[|stack|] == started
  {
  }

  lemma ObjectEnd(stack: seq<Value>, members: seq<Member>)
    ensures Step(stack + [Obj([])] + Flatten(members), OnEndObject(|members|)) == Some(stack + [Obj(members)])
  {
    hide Flatten, PairUp, IsMembers;
    PairUpFlatten(members);
    var full, items := stack + [Obj([])] + Flatten(members), Flatten(members);
    TopOf(stack, Obj([]), items);
  }

  lemma ElementEventsUnfold(src: Source, stack: seq<Value>, elems: seq<Value>)
    ensures elems == [] ==> Replay(stack, ElementEvents(src, elems)) == Some(stack)
    ensures elems != [] ==> ElementEvents(src, elems) == Events(src, elems[0]) + ElementEvents(src, elems[1..])
  {
  }

  lemma MemberEventsUnfold(src: Source, stack: seq<Value>, members: seq<Member>)
    ensures members == [] ==> Replay(stack, MemberEvents(src, members)) == Some(stack) && Flatten(members) == []
    ensures members != [] ==>
              && MemberEvents(src, members) ==
                 [OnKey(members[0].name)] + Events(src, members[0].value) + MemberEvents(src, members[1..])
              && Flatten(members) == [Str(members[0].name), members[0].value] + Flatten(members[1..])
  {
  }

  lemma {:induction false} ReplayPushesElements(src: Source, stack: seq<Value>, elems: seq<Value>)
    ensures Replay(stack, ElementEvents(src, elems)) == Some(stack + elems)
    decreases elems, 1
  {
    hide *;
    ElementEventsUnfold(src, stack, elems);
    if elems == [] {
      assert stack + elems == stack;
    } else {
      var after := stack + [elems[0]];
      ReplayPushesValue(src, stack, elems[0]);
      ReplayPushesElements(src, after, elems[1..]);
      ReplayChain(stack, Events(src, elems[0]), ElementEvents(src, elems[1..]), after, after + elems[1..]);
      assert after + elems[1..] == stack + elems;
    }
  }

  lemma {:induction false} ReplayPushesMembers(src: Source, stack: seq<Value>, members: seq<Member>)
    ensures Replay(stack, MemberEvents(src, members)) == Some(stack + Flatten(members))
    decreases members, 1
  {
    hide *;
    MemberEventsUnfold(src, stack, members);
    if members == [] {
      assert stack + [] == stack;
    } else {
      var m, named := members[0], stack + [Str(members[0].name)];
      var after := named + [m.value];
      ReplayKey(stack, m.name);
      ReplayPushesValue(src, named, m.value);
      ReplayPushesMembers(src, after, members[1..]);
      ReplayChain(stack, [OnKey(m.name)], Events(src, m.value), named, after);
      ReplayChain(stack, [OnKey(m.name)] + Events(src, m.value), MemberEvents(src, members[1..]),
                  after, after + Flatten(members[1..]));
      assert after + Flatten(members[1..]) == stack + ([Str(m.name), m.value] + Flatten(members[1..]));
    }
  }

  lemma ReplayKey(stack: seq<Value>, name: Text)
    ensures Replay(stack, [OnKey(name)]) == Some(stack + [Str(name)])
  {
    ReplaySingle(stack, OnKey(name));
  }

  // ---------- what a successful parse builds ----------

  /** Integers of 64 bits at every depth. */
  predicate InRange(v: Value) {
    match v
    case Num(n) => INT64_MIN <= n <= UINT64_MAX
    case Arr(elems) => forall k :: 0 <= k < |elems| ==> InRange(elems[k])
    case Obj(members) => forall k :: 0 <= k < |members| ==> InRange(members[k].value)
    case _ => true
  }

  lemma InRangeAppend(items: seq<Value>, members: seq<Member>, v: Value, m: Member)
    ensures InRange(Arr([])) && InRange(Obj([]))
    ensures InRange(Arr(items)) && InRange(v) ==> InRange(Arr(items + [v]))
    ensures InRange(Obj(members)) && InRange(m.value) ==> InRange(Obj(members + [m]))
  {
  }

  /** The events of any value that parses build one value on top of what was there. */
  lemma {:induction false} ParseBuildsValue(f: Flags, s: Text, c: Cursor, stack: seq<Value>) returns (v: Value)
    requires c.pos <= |s| && ParseValue(f, s, c).Some?
    requires Replay([], c.out) == Some(stack)
    ensures Replay([], ParseValue(f, s, c).value.out) == Some(stack + [v]) && InRange(v)
    decreases |s| - c.pos, 1
  {
    if Peek(s, c.pos) == LEFT_BRACE {
      v := ObjectBuildsValue(f, s, c, stack);
    } else if Peek(s, c.pos) == LEFT_BRACKET {
      v := ArrayBuildsValue(f, s, c, stack);
    } else {
      assert ParseValue(f, s, c) == Scalar(f, s, c);
      v := ScalarBuildsValue(f, s, c, stack);
    }
  }

  lemma ScalarEmits(f: Flags, s: Text, c: Cursor) returns (e: Event)
    requires c.pos <= |s| && Scalar(f, s, c).Some?
    ensures Scalar(f, s, c).value.out == c.out + [e]
    ensures !e.OnStartObject? && !e.OnKey? && !e.OnEndObject? && !e.OnStartArray? && !e.OnEndArray?
    ensures e.OnInt? || e.OnUint? || e.OnInt64? || e.OnUint64? ==> INT64_MIN <= e.i <= UINT64_MAX
  {
    hide StringBody, Holds;
    var after := Scalar(f, s, c).value.out;
    e := after[|after| - 1];
    assert after == c.out + [e];
  }

  lemma ScalarBuildsValue(f: Flags, s: Text, c: Cursor, stack: seq<Value>) returns (v: Value)
    requires c.pos <= |s| && Scalar(f, s, c).Some?
    requires Replay([], c.out) == Some(stack)
    ensures Replay([], Scalar(f, s, c).value.out) == Some(stack + [v]) && InRange(v)
  {
    hide Replay, Scalar;
    var e := ScalarEmits(f, s, c);
    ReplayOne([], c.out, e);
    v := match e
         case OnNull => Null
         case OnBool(b) => Bool(b)
         case OnString(str) => Str(str)
         case OnDouble(d) => Double(d)
         case OnInt(i) => Num(i)
         case OnUint(i) => Num(i)
         case OnInt64(i) => Num(i)
         case OnUint64(i) => Num(i)
         case _ => Null;
  }

  lemma {:induction false} ArrayBuildsValue(f: Flags, s: Text, c: Cursor, stack: seq<Value>) returns (v: Value)
    requires c.pos < |s| && ParseArray(f, s, c).Some?
    requires Replay([], c.out) == Some(stack)
    ensures Replay([], ParseArray(f, s, c).value.out) == Some(stack + [v]) && InRange(v)
    decreases |s| - c.pos, 0
  {
    hide ParseElements, Replay, InRange, SkipAt, PairUp, IsMembers;
    InRangeAppend([], [], Null, Member([], Null));
    ReplayOne([], c.out, OnStartArray);
    var d := SkipAt(f, s, Emit(c, c.pos + 1, OnStartArray)).value;
    assert stack + [Arr([])] == stack + [Arr([])] + [];
    if Peek(s, d.pos) == RIGHT_BRACKET {
      ReplayOne([], d.out, OnEndArray(0));
      ArrayEnd(stack, []);
      v := Arr([]);
    } else {
      v := ElementsBuildValue(f, s, d, stack, []);
    }
  }

  lemma {:induction false} ElementsBuildValue(f: Flags, s: Text, c: Cursor, stack: seq<Value>, items: seq<Value>)
    returns (v: Value)
    requires c.pos <= |s| && ParseElements(f, s, c, |items|).Some?
    requires Replay([], c.out) == Some(stack + [Arr([])] + items) && InRange(Arr(items))
    ensures Replay([], ParseElements(f, s, c, |items|).value.out) == Some(stack + [v]) && InRange(v)
    decreases |s| - c.pos, 2
  {
    hide Replay, AfterElement, ParseValue;
    var item := ParseBuildsValue(f, s, c, stack + [Arr([])] + items);
    var after := ParseValue(f, s, c).value;
    assert stack + [Arr([])] + items + [item] == stack + [Arr([])] + (items + [item]);
    InRangeAppend(items, [], item, Member([], Null));
    v := AfterElementBuildsValue(f, s, after, stack, items + [item]);
  }

  lemma {:induction false} AfterElementBuildsValue(f: Flags, s: Text, c: Cursor, stack: seq<Value>, items: seq<Value>)
    returns (v: Value)
    requires c.pos <= |s| && items != [] && AfterElement(f, s, c, |items| - 1).Some?
    requires Replay([], c.out) == Some(stack + [Arr([])] + items) && InRange(Arr(items))
    ensures Replay([], AfterElement(f, s, c, |items| - 1).value.out) == Some(stack + [v]) && InRange(v)
    decreases |s| - c.pos, 3
  {
    var d := SkipAt(f, s, c).value;
    ReplayOne([], d.out, OnEndArray(|items|));
    ArrayEnd(stack, items);
    v := Arr(items);
    if Peek(s, d.pos) != RIGHT_BRACKET {
      var n := SkipAt(f, s, Take(s, d)).value;
      if !(f.trailingCommas && Peek(s, n.pos) == RIGHT_BRACKET) {
        v := ElementsBuildValue(f, s, n, stack, items);
      }
    }
  }

  lemma {:induction false} ObjectBuildsValue(f: Flags, s: Text, c: Cursor, stack: seq<Value>) returns (v: Value)
    requires c.pos < |s| && ParseObject(f, s, c).Some?
    requires Replay([], c.out) == Some(stack)
    ensures Replay([], ParseObject(f, s, c).value.out) == Some(stack + [v]) && InRange(v)
    decreases |s| - c.pos, 0
  {
    hide ParseMembers, Replay, InRange, SkipAt, PairUp, IsMembers;
    InRangeAppend([], [], Null, Member([], Null));
    ReplayOne([], c.out, OnStartObject);
    var d := SkipAt(f, s, Emit(c, c.pos + 1, OnStartObject)).value;
    assert stack + [Obj([])] == stack + [Obj([])] + Flatten([]);
    if Peek(s, d.pos) == RIGHT_BRACE {
      ReplayOne([], d.out, OnEndObject(0));
      ObjectEnd(stack, []);
      v := Obj([]);
    } else {
      v := MembersBuildValue(f, s, d, stack, []);
    }
  }

  lemma {:induction false} FlattenAppend(members: seq<Member>, m: Member)
    ensures Flatten(members + [m]) == Flatten(members) + [Str(m.name), m.value]
  {
    if members == [] {
      assert [] + [m] == [m];
    } else {
      FlattenAppend(members[1..], m);
      assert (members + [m])[1..] == members[1..] + [m];
    }
  }

  lemma {:induction false} MembersBuildValue(f: Flags, s: Text, c: Cursor, stack: seq<Value>, members: seq<Member>)
    returns (v: Value)
    requires c.pos <= |s| && ParseMembers(f, s, c, |members|).Some?
    requires Replay([], c.out) == Some(stack + [Obj([])] + Flatten(members)) && InRange(Obj(members))
    ensures Replay([], ParseMembers(f, s, c, |members|).value.out) == Some(stack + [v]) && InRange(v)
    decreases |s| - c.pos, 2
  {
    hide ParseValue, AfterMember, ParseColon, SkipAt, Replay, Flatten, StringBody, InRange;
    var inside := stack + [Obj([])] + Flatten(members);
    var name := StringAt(s, c, true).value;
    var key := name.out[|name.out| - 1].s;
    assert name.out == c.out + [OnKey(key)];
    ReplayOne([], c.out, OnKey(key));
    var at := ParseColon(f, s, name).value;
    var value := ParseBuildsValue(f, s, at, inside + [Str(key)]);
    var after := ParseValue(f, s, at).value;
    var m := Member(key, value);
    FlattenAppend(members, m);
    InRangeAppend([], members, Null, m);
    assert inside + [Str(key)] + [value] == stack + [Obj([])] + Flatten(members + [m]);
    v := AfterMemberBuildsValue(f, s, after, stack, members + [m]);
  }

  lemma {:induction false} AfterMemberBuildsValue(f: Flags, s: Text, c: Cursor, stack: seq<Value>, members: seq<Member>)
    returns (v: Value)
    requires c.pos <= |s| && members != [] && AfterMember(f, s, c, |members| - 1).Some?
    requires Replay([], c.out) == Some(stack + [Obj([])] + Flatten(members)) && InRange(Obj(members))
    ensures Replay([], AfterMember(f, s, c, |members| - 1).value.out) == Some(stack + [v]) && InRange(v)
    decreases |s| - c.pos, 3
  {
    var d := SkipAt(f, s, c).value;
    ReplayOne([], d.out, OnEndObject(|members|));
    ObjectEnd(stack, members);
    v := Obj(members);
    if Peek(s, d.pos) != RIGHT_BRACE {
      var n := SkipAt(f, s, Take(s, d)).value;
      if !(f.trailingCommas && Peek(s, n.pos) == RIGHT_BRACE) {
        v := MembersBuildValue(f, s, n, stack, members);
      }
    }
  }

  /** Every successful parse leaves exactly one value on the document's stack. */
  lemma SuccessfulParseLeavesOneValue(f: Flags, s: Text) returns (root: Value)
    requires RecursiveParse(f, s).Some?
    ensures Replay([], RecursiveParse(f, s).value.out) == Some([root]) && InRange(root)
  {
    var c := SkipAt(f, s, Cursor(0, [])).value;
    root := ParseBuildsValue(f, s, c, []);
    assert [] + [root] == [root];
  }

  // ---------- the document ----------

  class GenericDocument {
    var root: Value
    var stack: seq<Value>

    constructor ()
      ensures root == Null && stack == []
    {
      root, stack := Null, [];
    }

    method Push(v: Value)
      modifies this`stack
      ensures stack == old(stack) + [v]
    {
      stack := stack + [v];
    }

    /** Pops the members and stores them into the object that was started under them. */
    method EndObject(memberCount: nat)
      requires Step(stack, OnEndObject(memberCount)).Some?
      modifies this`stack
      ensures Some(stack) == Step(old(stack), OnEndObject(memberCount))
    {
      var base := |stack| - 2 * memberCount;
      var members := PairUp(stack[base..]);
      stack := stack[..base];
      stack := stack[base - 1 := Obj(members)];
      assert stack == old(stack)[..base - 1] + [Obj(members)];
    }

    method EndArray(elementCount: nat)
      requires Step(stack, OnEndArray(elementCount)).Some?
      modifies this`stack
      ensures Some(stack) == Step(old(stack), OnEndArray(elementCount))
    {
      var base := |stack| - elementCount;
      var elements := stack[base..];
      stack := stack[..base];
      stack := stack[base - 1 := Arr(elements)];
      assert stack == old(stack)[..base - 1] + [Arr(elements)];
    }

    /** The handler interface. */
    method Handle(e: Event)
      requires Step(stack, e).Some?
      modifies this`stack
      ensures Some(stack) == Step(old(stack), e)
    {
      match e
      case OnNull => Push(Null);
      case OnBool(b) => Push(Bool(b));
      case OnInt(i) => Push(Num(i));
      case OnUint(i) => Push(Num(i));
      case OnInt64(i) => Push(Num(i));
      case OnUint64(i) => Push(Num(i));
      case OnDouble(d) => Push(Double(d));
      case OnString(s) => Push(Str(s));
      case OnKey(s) => Push(Str(s));
      case OnStartObject => Push(Obj([]));
      case OnStartArray => Push(Arr([]));
      case OnEndObject(n) => EndObject(n);
      case OnEndArray(n) => EndArray(n);
    }

    /** A value traversed with this document as the handler. */
    method Accept(v: Value)
      modifies this`stack
      ensures stack == old(stack) + [v]
      decreases v
    {
      match v
      case Arr(elems) =>
        Handle(OnStartArray);
        for k := 0 to |elems|
          invariant stack == old(stack) + [Arr([])] + elems[..k]
        {
          Accept(elems[k]);
          assert elems[..k + 1] == elems[..k] + [elems[k]];
        }
        assert elems[..|elems|] == elems;
        ArrayEnd(old(stack), elems);
        Handle(OnEndArray(|elems|));
      case Obj(members) =>
        Handle(OnStartObject);
        for k := 0 to |members|
          invariant stack == old(stack) + [Obj([])] + Flatten(members[..k])
        {
          Handle(OnKey(members[k].name));
          Accept(members[k].value);
          FlattenAppend(members[..k], members[k]);
          assert members[..k + 1] == members[..k] + [members[k]];
        }
        assert members[..|members|] == members;
        ObjectEnd(old(stack), members);
        Handle(OnEndObject(|members|));
      case Null => Handle(OnNull);
      case Bool(b) => Handle(OnBool(b));
      case Double(d) => Handle(OnDouble(d));
      case Str(s) => Handle(OnString(s));
      case Num(n) => Handle(NumberEvent(FromValue, n));
    }

    /** Populates the document by a generator that traverses a value: a deep copy. */
    method Populate(v: Value)
      requires stack == []
      modifies this
      ensures root == v && stack == []
    {
      Accept(v);
      assert |stack| == 1;
      root := stack[0];
      stack := [];
    }

    /** Parses a text. The stack holds exactly one value when the reader succeeds. */
    method ParseStream(text: Text, flags: Flags) returns (ok: bool)
      requires stack == []
      modifies this
      ensures ok <==> RecursiveParse(flags, text).Some?
      ensures ok ==> Replay([], RecursiveParse(flags, text).value.out) == Some([root])
      ensures !ok ==> root == old(root)
      ensures stack == []
    {
      hide Replay, RecursiveParse;
      var reader := new Reader.Reader(text, flags);
      reader.Parse();
      ok := !reader.failed;
      if ok {
        ghost var parsed := SuccessfulParseLeavesOneValue(flags, text);
        var events := reader.events;
        NothingReplayed([]);
        assert events[..0] == [];
        for k := 0 to |events|
          invariant Replay([], events[..k]) == Some(stack) && root == old(root)
        {
          ReplayPrefix([], events, k + 1);
          assert events[..k + 1] == events[..k] + [events[k]];
          ReplayOne([], events[..k], events[k]);
          Handle(events[k]);
        }
        assert events[..|events|] == events;
        assert |stack| == 1;
        root := stack[0];
        stack := [];
      }
    }
  }

  lemma NothingReplayed(stack: seq<Value>)
    ensures Replay(stack, []) == Some(stack)
  {
  }

  /** A run that succeeds has succeeded at each of its prefixes. */
  lemma ReplayPrefix(stack: seq<Value>, events: seq<Event>, k: nat)
    requires k <= |events| && Replay(stack, events).Some?
    ensures Replay(stack, events[..k]).Some?
  {
    ReplayConcat(stack, events[..k], events[k..]);
    assert events == events[..k] + events[k..];
  }
}
