/** The explicit-stack automaton and recursive descent are the same parser. */
module ParserEquivalence {
  import opened Bytes
  import opened Json
  import opened ReaderSpec

  /** What the automaton does with the outcome of reading a value with recursive descent. */
  function Resume(f: Flags, s: Text, r: Option<Cursor>, state: State, frames: seq<Frame>): Option<Cursor>
    requires r.Some? ==> r.value.pos <= |s|
  {
    match r
    case None => None
    case Some(c) => Continue(f, s, Config(state, frames, c))
  }

  predicate ExpectsValue(state: State) {
    state == Start || state == ArrayInitial || state == ElementDelimiter || state == KeyValueDelimiter
  }

  lemma Advance(f: Flags, s: Text, state: State, frames: seq<Frame>, c: Cursor, n: Config)
    requires c.pos < |s| && Peek(s, c.pos) != NUL
    requires Transit(f, s, Config(state, frames, c), Predict(state, Tokenize(Peek(s, c.pos)))) == Some(n)
    ensures Run(f, s, Config(state, frames, c)) == Continue(f, s, n)
  {
  }

  lemma Stuck(f: Flags, s: Text, state: State, frames: seq<Frame>, c: Cursor)
    requires c.pos <= |s| && state != Finish
    requires c.pos < |s| && Peek(s, c.pos) != NUL ==>
               Transit(f, s, Config(state, frames, c), Predict(state, Tokenize(Peek(s, c.pos)))) == None
    ensures Run(f, s, Config(state, frames, c)) == None
  {
  }

  lemma Proceed(f: Flags, s: Text, state: State, frames: seq<Frame>, c: Cursor)
    requires c.pos <= |s| && state != Finish
    ensures Continue(f, s, Config(state, frames, c)) ==
            match SkipAt(f, s, c)
            case None => None
            case Some(d) => Run(f, s, Config(state, frames, d))
  {
  }

  lemma {:induction false} ValueSimulation(f: Flags, s: Text, m: Config)
    requires m.at.pos <= |s| && ExpectsValue(m.state)
    requires Peek(s, m.at.pos) == RIGHT_BRACKET ==> m.state == Start || m.state == KeyValueDelimiter
    ensures Run(f, s, m) == Resume(f, s, ParseValue(f, s, m.at), Restored(AfterValue(m.state)), m.frames)
    decreases |s| - m.at.pos, 1
  {
    if Peek(s, m.at.pos) == LEFT_BRACE {
      ObjectSimulation(f, s, m);
    } else if Peek(s, m.at.pos) == LEFT_BRACKET {
      ArraySimulation(f, s, m);
    } else {
      ScalarSimulation(f, s, m);
    }
  }

  lemma {:induction false} ScalarSimulation(f: Flags, s: Text, m: Config)
    requires m.at.pos <= |s| && ExpectsValue(m.state)
    requires Peek(s, m.at.pos) == RIGHT_BRACKET ==> m.state == Start || m.state == KeyValueDelimiter
    requires Peek(s, m.at.pos) != LEFT_BRACE && Peek(s, m.at.pos) != LEFT_BRACKET
    ensures Run(f, s, m) == Resume(f, s, Scalar(f, s, m.at), Restored(AfterValue(m.state)), m.frames)
  {
    hide StringBody, Continue;
    match Scalar(f, s, m.at)
    case None => Stuck(f, s, m.state, m.frames, m.at);
    case Some(c) => Advance(f, s, m.state, m.frames, m.at, Config(Restored(AfterValue(m.state)), m.frames, c));
  }

  lemma EmptyContainer(f: Flags, s: Text, c: Cursor, state: State, outer: seq<Frame>, saved: State)
    requires c.pos <= |s|
    requires (state == ObjectInitial && Peek(s, c.pos) == RIGHT_BRACE)
          || (state == ArrayInitial && Peek(s, c.pos) == RIGHT_BRACKET)
    ensures Run(f, s, Config(state, outer + [Frame(saved, 0)], c)) ==
            var e := if state == ObjectInitial then OnEndObject(0) else OnEndArray(0);
            Continue(f, s, Config(Restored(saved), outer, Emit(c, c.pos + 1, e)))
  {
    var frames := outer + [Frame(saved, 0)];
    assert frames[..|frames| - 1] == outer;
    var e := if state == ObjectInitial then OnEndObject(0) else OnEndArray(0);
    Advance(f, s, state, frames, c, Config(Restored(saved), outer, Emit(c, c.pos + 1, e)));
  }

  /** An opening brace or bracket pushes a frame that remembers where to go on. */
  lemma EntersContainer(f: Flags, s: Text, m: Config)
    requires m.at.pos <= |s| && ExpectsValue(m.state) && Peek(s, m.at.pos) in {LEFT_BRACE, LEFT_BRACKET}
    ensures Peek(s, m.at.pos) == LEFT_BRACKET ==> Peek(s, m.at.pos) != LEFT_BRACE
    ensures var isObject := Peek(s, m.at.pos) == LEFT_BRACE;
            var entered := Emit(m.at, m.at.pos + 1, if isObject then OnStartObject else OnStartArray);
            && m.at.pos < |s| && entered.pos == m.at.pos + 1
            && Run(f, s, m) == Continue(f, s, Config(if isObject then ObjectInitial else ArrayInitial,
                                                     m.frames + [Frame(AfterValue(m.state), 0)], entered))
  {
    hide Run, Continue;
    var isObject := Peek(s, m.at.pos) == LEFT_BRACE;
    var entered := Emit(m.at, m.at.pos + 1, if isObject then OnStartObject else OnStartArray);
    Advance(f, s, m.state, m.frames, m.at,
            Config(if isObject then ObjectInitial else ArrayInitial,
                   m.frames + [Frame(AfterValue(m.state), 0)], entered));
  }

  lemma ResumesNothing(f: Flags, s: Text, state: State, frames: seq<Frame>)
    ensures Resume(f, s, None, state, frames) == None
  {
  }

  /** What recursive descent does inside a container that was just entered. */
  function ContainerBody(f: Flags, s: Text, d: Cursor, state: State): (r: Option<Cursor>)
    requires d.pos <= |s|
    ensures r.Some? ==> r.value.pos <= |s|
  {
    if state == ObjectInitial then
      if Peek(s, d.pos) == RIGHT_BRACE then Some(Emit(d, d.pos + 1, OnEndObject(0))) else ParseMembers(f, s, d, 0)
    else
      if Peek(s, d.pos) == RIGHT_BRACKET then Some(Emit(d, d.pos + 1, OnEndArray(0))) else ParseElements(f, s, d, 0)
  }

  lemma ContainerUnfold(f: Flags, s: Text, c: Cursor)
    requires c.pos < |s|
    ensures ParseObject(f, s, c) ==
            match SkipAt(f, s, Emit(c, c.pos + 1, OnStartObject))
            case None => None
            case Some(d) => ContainerBody(f, s, d, ObjectInitial)
    ensures ParseArray(f, s, c) ==
            match SkipAt(f, s, Emit(c, c.pos + 1, OnStartArray))
            case None => None
            case Some(d) => ContainerBody(f, s, d, ArrayInitial)
  {
    hide SkipAt, ParseMembers, ParseElements;
  }

  lemma {:induction false} ContainerSimulation(f: Flags, s: Text, d: Cursor,
                                               state: State, outer: seq<Frame>, saved: State)
    requires d.pos <= |s| && (state == ObjectInitial || state == ArrayInitial)
    ensures Run(f, s, Config(state, outer + [Frame(saved, 0)], d)) ==
            Resume(f, s, ContainerBody(f, s, d, state), Restored(saved), outer)
    decreases |s| - d.pos, 3
  {
    hide Run, Continue, ParseMembers, ParseElements, SkipAt;
    if Peek(s, d.pos) == (if state == ObjectInitial then RIGHT_BRACE else RIGHT_BRACKET) {
      EmptyContainer(f, s, d, state, outer, saved);
    } else if state == ObjectInitial {
      MembersSimulation(f, s, d, state, outer, saved, 0);
    } else {
      ElementsSimulation(f, s, d, state, outer, saved, 0);
    }
  }

  lemma {:induction false} ObjectSimulation(f: Flags, s: Text, m: Config)
    requires m.at.pos <= |s| && ExpectsValue(m.state) && Peek(s, m.at.pos) == LEFT_BRACE
    ensures Run(f, s, m) == Resume(f, s, ParseObject(f, s, m.at), Restored(AfterValue(m.state)), m.frames)
    decreases |s| - m.at.pos, 0
  {
    hide *;
    EntersContainer(f, s, m);
    ContainerUnfold(f, s, m.at);
    var saved, entered := AfterValue(m.state), Emit(m.at, m.at.pos + 1, OnStartObject);
    Proceed(f, s, ObjectInitial, m.frames + [Frame(saved, 0)], entered);
    match SkipAt(f, s, entered)
    case None => ResumesNothing(f, s, Restored(saved), m.frames);
    case Some(d) => ContainerSimulation(f, s, d, ObjectInitial, m.frames, saved);
  }

  lemma {:induction false} ArraySimulation(f: Flags, s: Text, m: Config)
    requires m.at.pos <= |s| && ExpectsValue(m.state) && Peek(s, m.at.pos) == LEFT_BRACKET
    ensures Run(f, s, m) == Resume(f, s, ParseArray(f, s, m.at), Restored(AfterValue(m.state)), m.frames)
    decreases |s| - m.at.pos, 0
  {
    hide *;
    EntersContainer(f, s, m);
    ContainerUnfold(f, s, m.at);
    var saved, entered := AfterValue(m.state), Emit(m.at, m.at.pos + 1, OnStartArray);
    Proceed(f, s, ArrayInitial, m.frames + [Frame(saved, 0)], entered);
    match SkipAt(f, s, entered)
    case None => ResumesNothing(f, s, Restored(saved), m.frames);
    case Some(d) => ContainerSimulation(f, s, d, ArrayInitial, m.frames, saved);
  }

  /** A name, its colon and the space around it. */
  lemma {:induction false} NameSimulation(f: Flags, s: Text, c: Cursor, state: State, frames: seq<Frame>)
    requires c.pos <= |s| && (state == ObjectInitial || state == MemberDelimiter)
    requires Peek(s, c.pos) == QUOTE
    ensures Run(f, s, Config(state, frames, c)) ==
            match StringAt(s, c, true)
            case None => None
            case Some(name) =>
              match ParseColon(f, s, name)
              case None => None
              case Some(at) => Run(f, s, Config(KeyValueDelimiter, frames, at))
  {
    match StringAt(s, c, true)
    case None => Stuck(f, s, state, frames, c);
    case Some(name) =>
      Advance(f, s, state, frames, c, Config(MemberKey, frames, name));
      Proceed(f, s, MemberKey, frames, name);
      match SkipAt(f, s, name)
      case None =>
      case Some(d) =>
        if Peek(s, d.pos) == COLON {
          Advance(f, s, MemberKey, frames, d, Config(KeyValueDelimiter, frames, Take(s, d)));
          Proceed(f, s, KeyValueDelimiter, frames, Take(s, d));
        } else {
          Stuck(f, s, MemberKey, frames, d);
        }
  }

  /** A member's value and what follows it. */
  lemma {:induction false} MemberSimulation(f: Flags, s: Text, at: Cursor,
                                            outer: seq<Frame>, saved: State, count: nat)
    requires at.pos <= |s|
    ensures Run(f, s, Config(KeyValueDelimiter, outer + [Frame(saved, count)], at)) ==
            match ParseValue(f, s, at)
            case None => None
            case Some(after) => Resume(f, s, AfterMember(f, s, after, count), Restored(saved), outer)
    decreases |s| - at.pos, 4
  {
    hide Run, Continue, AfterMember, ParseValue;
    ValueSimulation(f, s, Config(KeyValueDelimiter, outer + [Frame(saved, count)], at));
    match ParseValue(f, s, at)
    case None =>
    case Some(after) => MemberEndSimulation(f, s, after, outer, saved, count);
  }

  lemma {:induction false} MembersSimulation(f: Flags, s: Text, c: Cursor, state: State,
                                             outer: seq<Frame>, saved: State, count: nat)
    requires c.pos <= |s| && Peek(s, c.pos) != RIGHT_BRACE
    requires state == ObjectInitial || state == MemberDelimiter
    ensures Run(f, s, Config(state, outer + [Frame(saved, count)], c)) ==
            Resume(f, s, ParseMembers(f, s, c, count), Restored(saved), outer)
    decreases |s| - c.pos, 2
  {
    var frames := outer + [Frame(saved, count)];
    if Peek(s, c.pos) != QUOTE {
      Stuck(f, s, state, frames, c);
    } else {
      NameSimulation(f, s, c, state, frames);
      match StringAt(s, c, true)
      case None =>
      case Some(name) =>
        match ParseColon(f, s, name)
        case None =>
        case Some(at) => MemberSimulation(f, s, at, outer, saved, count);
    }
  }

  /** From the end of a member's value to the next name or the closing brace. */
  lemma {:induction false} MemberEndSimulation(f: Flags, s: Text, after: Cursor,
                                               outer: seq<Frame>, saved: State, count: nat)
    requires after.pos <= |s|
    ensures Continue(f, s, Config(MemberValue, outer + [Frame(saved, count)], after)) ==
            Resume(f, s, AfterMember(f, s, after, count), Restored(saved), outer)
    decreases |s| - after.pos, 3
  {
    hide Run, Transit, Predict, Tokenize, ParseMembers, ParseElements, SkipAt;
    Proceed(f, s, MemberValue, outer + [Frame(saved, count)], after);
    match SkipAt(f, s, after)
    case None =>
    case Some(d) =>
      AfterItem(f, s, d, MemberValue, outer, saved, count);
      if Peek(s, d.pos) == COMMA {
        Proceed(f, s, MemberDelimiter, outer + [Frame(saved, count + 1)], Take(s, d));
        match SkipAt(f, s, Take(s, d))
        case None =>
        case Some(n) =>
          if Peek(s, n.pos) == RIGHT_BRACE {
            DelimitedEnd(f, s, n, MemberDelimiter, outer, saved, count + 1);
          } else {
            MembersSimulation(f, s, n, MemberDelimiter, outer, saved, count + 1);
          }
      }
  }

  /** What the automaton does after an item of a container: close, go on after a comma, or stop. */
  lemma AfterItem(f: Flags, s: Text, d: Cursor, state: State, outer: seq<Frame>, saved: State, count: nat)
    requires d.pos <= |s| && (state == MemberValue || state == Element)
    ensures Run(f, s, Config(state, outer + [Frame(saved, count)], d)) ==
            if Peek(s, d.pos) == (if state == Element then RIGHT_BRACKET else RIGHT_BRACE) then
              var e := if state == Element then OnEndArray(count + 1) else OnEndObject(count + 1);
              Continue(f, s, Config(Restored(saved), outer, Emit(d, d.pos + 1, e)))
            else if Peek(s, d.pos) == COMMA then
              var delimiter := if state == Element then ElementDelimiter else MemberDelimiter;
              Continue(f, s, Config(delimiter, outer + [Frame(saved, count + 1)], Take(s, d)))
            else None
  {
    hide Run, Continue;
    var frames, next := outer + [Frame(saved, count)], outer + [Frame(saved, count + 1)];
    assert frames[..|frames| - 1] == outer && frames[|frames| - 1 := Frame(saved, count + 1)] == next;
    if Peek(s, d.pos) == (if state == Element then RIGHT_BRACKET else RIGHT_BRACE) {
      var e := if state == Element then OnEndArray(count + 1) else OnEndObject(count + 1);
      Advance(f, s, state, frames, d, Config(Restored(saved), outer, Emit(d, d.pos + 1, e)));
    } else if Peek(s, d.pos) == COMMA {
      var delimiter := if state == Element then ElementDelimiter else MemberDelimiter;
      Advance(f, s, state, frames, d, Config(delimiter, next, Take(s, d)));
    } else {
      Stuck(f, s, state, frames, d);
    }
  }

  /** A closing bracket or brace right after a comma: allowed only with trailing commas. */
  lemma DelimitedEnd(f: Flags, s: Text, c: Cursor, state: State, outer: seq<Frame>, saved: State, count: nat)
    requires c.pos <= |s|
    requires (state == MemberDelimiter && Peek(s, c.pos) == RIGHT_BRACE)
          || (state == ElementDelimiter && Peek(s, c.pos) == RIGHT_BRACKET)
    ensures Run(f, s, Config(state, outer + [Frame(saved, count)], c)) ==
            if !f.trailingCommas then None
            else
              var e := if state == MemberDelimiter then OnEndObject(count) else OnEndArray(count);
              Continue(f, s, Config(Restored(saved), outer, Emit(c, c.pos + 1, e)))
    ensures state == MemberDelimiter ==> ParseMembers(f, s, c, count) == None
    ensures state == ElementDelimiter ==> ParseElements(f, s, c, count) == None
  {
    hide Run, Continue, ParseMembers, ParseElements, Transit, Predict, Tokenize;
    var frames := outer + [Frame(saved, count)];
    DelimitedStep(f, s, c, state, outer, saved, count);
    if f.trailingCommas {
      var e := if state == MemberDelimiter then OnEndObject(count) else OnEndArray(count);
      Advance(f, s, state, frames, c, Config(Restored(saved), outer, Emit(c, c.pos + 1, e)));
    } else {
      Stuck(f, s, state, frames, c);
    }
    NothingToParse(f, s, c, count);
  }

  lemma DelimitedStep(f: Flags, s: Text, c: Cursor, state: State, outer: seq<Frame>, saved: State, count: nat)
    requires c.pos < |s|
    requires (state == MemberDelimiter && Peek(s, c.pos) == RIGHT_BRACE)
          || (state == ElementDelimiter && Peek(s, c.pos) == RIGHT_BRACKET)
    ensures Transit(f, s, Config(state, outer + [Frame(saved, count)], c), Predict(state, Tokenize(Peek(s, c.pos)))) ==
            if !f.trailingCommas then None
            else
              var e := if state == MemberDelimiter then OnEndObject(count) else OnEndArray(count);
              Some(Config(Restored(saved), outer, Emit(c, c.pos + 1, e)))
  {
    hide ParseValue, StringAt;
    var frames := outer + [Frame(saved, count)];
    assert frames[..|frames| - 1] == outer;
  }

  lemma NothingToParse(f: Flags, s: Text, c: Cursor, count: nat)
    requires c.pos <= |s|
    ensures Peek(s, c.pos) == RIGHT_BRACE ==> ParseMembers(f, s, c, count) == None
    ensures Peek(s, c.pos) == RIGHT_BRACKET ==> ParseElements(f, s, c, count) == None
  {
    if Peek(s, c.pos) == RIGHT_BRACKET {
      assert ParseValue(f, s, c) == Scalar(f, s, c);
    }
  }

  lemma {:induction false} ElementsSimulation(f: Flags, s: Text, c: Cursor, state: State,
                                              outer: seq<Frame>, saved: State, count: nat)
    requires c.pos <= |s| && Peek(s, c.pos) != RIGHT_BRACKET
    requires state == ArrayInitial || state == ElementDelimiter
    ensures Run(f, s, Config(state, outer + [Frame(saved, count)], c)) ==
            Resume(f, s, ParseElements(f, s, c, count), Restored(saved), outer)
    decreases |s| - c.pos, 2
  {
    ValueSimulation(f, s, Config(state, outer + [Frame(saved, count)], c));
    match ParseValue(f, s, c)
    case None =>
    case Some(after) => ElementEndSimulation(f, s, after, outer, saved, count);
  }

  /** From the end of an element to the next element or the closing bracket. */
  lemma {:induction false} ElementEndSimulation(f: Flags, s: Text, after: Cursor,
                                                outer: seq<Frame>, saved: State, count: nat)
    requires after.pos <= |s|
    ensures Continue(f, s, Config(Element, outer + [Frame(saved, count)], after)) ==
            Resume(f, s, AfterElement(f, s, after, count), Restored(saved), outer)
    decreases |s| - after.pos, 3
  {
    hide Run, Continue, Transit, Predict, Tokenize, ParseMembers, ParseElements, SkipAt;
    Proceed(f, s, Element, outer + [Frame(saved, count)], after);
    match SkipAt(f, s, after)
    case None =>
    case Some(d) =>
      AfterItem(f, s, d, Element, outer, saved, count);
      if Peek(s, d.pos) == COMMA {
        Proceed(f, s, ElementDelimiter, outer + [Frame(saved, count + 1)], Take(s, d));
        match SkipAt(f, s, Take(s, d))
        case None =>
        case Some(n) =>
          if Peek(s, n.pos) == RIGHT_BRACKET {
            DelimitedEnd(f, s, n, ElementDelimiter, outer, saved, count + 1);
          } else {
            ElementsSimulation(f, s, n, ElementDelimiter, outer, saved, count + 1);
          }
      }
  }

  /** For every text and every setting of the flags, the automaton accepts exactly when
      recursive descent accepts, stops at the same position, and emits the same events
      with the same member and element counts. */
  lemma ParsersAgree(f: Flags, s: Text)
    ensures IterativeParse(f, s) == RecursiveParse(f, s)
  {
    match SkipAt(f, s, Cursor(0, []))
    case None =>
    case Some(c) =>
      ValueSimulation(f, s, Config(Start, [], c));
      match ParseValue(f, s, c)
      case None =>
      case Some(d) =>
        if !f.stopWhenDone {
          assert Continue(f, s, Config(Finish, [], d)) ==
                 match SkipAt(f, s, d) case None => None case Some(e) => Run(f, s, Config(Finish, [], e));
        }
  }
}
