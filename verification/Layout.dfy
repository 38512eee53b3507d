/** The layout of printed text, token by token: which white space stands between two tokens
    depends on these two, on how many containers are open, and on whether the innermost is an
    array. */
module Layout {
  import opened Bytes
  import opened Json
  import opened WriterSpec
  import opened Printing

  datatype Token =
    | Open(inArray: bool)
    | Close(inArray: bool)
    | Comma
    | Colon
    | Leaf(text: Text)

  function TokenText(t: Token): Text {
    match t
    case Open(inArray) => if inArray then [0x5B] else [0x7B]
    case Close(inArray) => if inArray then [0x5D] else [0x7D]
    case Comma => [0x2C]
    case Colon => [0x3A]
    case Leaf(text) => text
  }

  /** A new line, indented by so many levels. */
  function Break(f: Format, depth: nat): Text
    requires f.Pretty?
  {
    [0x0A] + seq(depth * f.indentCount, _ => f.indentChar)
  }

  /** The white space between two tokens; `open` are the containers open between them. */
  function Space(f: Format, prev: Option<Token>, next: Token, open: seq<bool>): Text {
    if f.Compact? || prev.None? || next.Comma? || next.Colon? then []
    else if prev.value.Colon? then [0x20]
    else if prev.value.Open? then
      (if next.Close? || (prev.value.inArray && f.singleLineArrays) then [] else Break(f, |open|))
    else if prev.value.Comma? then
      (if open != [] && open[|open| - 1] && f.singleLineArrays then [0x20] else Break(f, |open|))
    else if next.Close? && open != [] && !(next.inArray && f.singleLineArrays) then Break(f, |open| - 1)
    else []
  }

  function OpenAfter(t: Token, open: seq<bool>): seq<bool> {
    match t
    case Open(inArray) => open + [inArray]
    case Close(_) => if open == [] then [] else open[..|open| - 1]
    case _ => open
  }

  /** Tokens laid out one after the other. */
  function Laid(f: Format, tokens: seq<Token>, prev: Option<Token>, open: seq<bool>): Text {
    if tokens == [] then []
    else
      Space(f, prev, tokens[0], open) + TokenText(tokens[0])
      + Laid(f, tokens[1..], Some(tokens[0]), OpenAfter(tokens[0], open))
  }

  /** The tokens of a value. */
  function Tokens(ascii: bool, v: Value): (r: seq<Token>)
    ensures r != [] && !r[0].Comma? && !r[0].Colon? && !r[0].Close?
    decreases v, 0
  {
    match v
    case Null => [Leaf(NULL_WORD)]
    case Bool(b) => [Leaf(if b then TRUE_WORD else FALSE_WORD)]
    case Num(n) => [Leaf(IntegerText(n))]
    case Double(_) => [Leaf([])]
    case Str(s) => [Leaf(Quoted(ascii, s))]
    case Arr(elems) => [Open(true)] + (ElementTokens(ascii, elems) + [Close(true)])
    case Obj(members) => [Open(false)] + (MemberTokens(ascii, members) + [Close(false)])
  }

  function ElementTokens(ascii: bool, elems: seq<Value>): seq<Token>
    decreases elems, 1
  {
    if elems == [] then []
    else Tokens(ascii, elems[0]) + ((if |elems| > 1 then [Comma] else []) + ElementTokens(ascii, elems[1..]))
  }

  function MemberTokens(ascii: bool, members: seq<Member>): seq<Token>
    decreases members, 1
  {
    if members == [] then []
    else
      [Leaf(Quoted(ascii, members[0].name)), Colon]
      + (Tokens(ascii, members[0].value)
         + ((if |members| > 1 then [Comma] else []) + MemberTokens(ascii, members[1..])))
  }

  // ---------- laying out in parts ----------

  function LastOf(tokens: seq<Token>, prev: Option<Token>): Option<Token> {
    if tokens == [] then prev else Some(tokens[|tokens| - 1])
  }

  function OpenBehind(tokens: seq<Token>, open: seq<bool>): seq<bool> {
    if tokens == [] then open else OpenBehind(tokens[1..], OpenAfter(tokens[0], open))
  }

  lemma {:induction false} LaidJoin(f: Format, a: seq<Token>, b: seq<Token>, prev: Option<Token>, open: seq<bool>)
    ensures Laid(f, a + b, prev, open) == Laid(f, a, prev, open) + Laid(f, b, LastOf(a, prev), OpenBehind(a, open))
    ensures LastOf(a + b, prev) == LastOf(b, LastOf(a, prev))
    ensures OpenBehind(a + b, open) == OpenBehind(b, OpenBehind(a, open))
    decreases |a|
  {
    hide Space, TokenText, OpenAfter;
    if a == [] {
      assert [] + b == b;
    } else {
      assert (a + b)[0] == a[0] && (a + b)[1..] == a[1..] + b;
      LaidJoin(f, a[1..], b, Some(a[0]), OpenAfter(a[0], open));
    }
  }

  lemma LaidOne(f: Format, t: Token, prev: Option<Token>, open: seq<bool>)
    ensures Laid(f, [t], prev, open) == Space(f, prev, t, open) + TokenText(t)
    ensures LastOf([t], prev) == Some(t) && OpenBehind([t], open) == OpenAfter(t, open)
  {
    hide Space, TokenText, OpenAfter;
    assert Space(f, prev, t, open) + TokenText(t) + [] == Space(f, prev, t, open) + TokenText(t);
  }

  // ---------- the text of a value ----------

  predicate Ends(t: Option<Token>) {
    t.Some? && (t.value.Leaf? || t.value.Close?)
  }

  /** The separator that stands in front of a value as the writer counts them. */
  lemma GapIs(f: Format, inArray: bool, k: nat, open: seq<bool>, next: Token)
    requires open != [] && open[|open| - 1] == inArray && !next.Comma? && !next.Colon? && !next.Close?
    ensures inArray || k % 2 == 0 ==>
              Gap(f, inArray, k, |open|) ==
              (if k == 0 then [] else [COMMA]) + Space(f, Some(if k == 0 then Open(inArray) else Comma), next, open)
    ensures !inArray && k % 2 == 1 ==> Gap(f, inArray, k, |open|) == [COLON] + Space(f, Some(Colon), next, open)
  {
  }

  lemma ClosingIs(f: Format, inArray: bool, k: nat, open: seq<bool>, prev: Option<Token>)
    requires open != [] && if k == 0 then prev == Some(Open(inArray)) else Ends(prev)
    ensures Closing(f, inArray, k, |open| - 1) == Space(f, prev, Close(inArray), open)
  {
  }

  lemma NoSpace(f: Format, prev: Option<Token>, open: seq<bool>)
    ensures Space(f, prev, Comma, open) == [] && Space(f, prev, Colon, open) == []
  {
  }

  /** A value laid out where `open` containers are open: its text at that depth, behind the white
      space in front of its first token. */
  ghost predicate LaidOut(p: Style, v: Value, prev: Option<Token>, open: seq<bool>) {
    var tokens := Tokens(p.ascii, v);
    && Laid(p.format, tokens, prev, open) == Space(p.format, prev, tokens[0], open) + Render(p, v, |open|)
    && Ends(LastOf(tokens, prev)) && OpenBehind(tokens, open) == open
  }

  lemma ScalarLaid(p: Style, v: Value, prev: Option<Token>, open: seq<bool>)
    requires !v.Arr? && !v.Obj?
    ensures LaidOut(p, v, prev, open)
  {
    hide Space, Laid, LastOf, OpenBehind;
    LaidOne(p.format, Tokens(p.ascii, v)[0], prev, open);
  }

  /** A container: its bracket, what is inside, and the closing bracket. */
  lemma ContainerLaid(p: Style, inside: seq<Token>, inArray: bool, text: Text, k: nat,
                      prev: Option<Token>, open: seq<bool>)
    requires Laid(p.format, inside, Some(Open(inArray)), open + [inArray]) == text
    requires OpenBehind(inside, open + [inArray]) == open + [inArray]
    requires var last := LastOf(inside, Some(Open(inArray))); if k == 0 then last == Some(Open(inArray)) else Ends(last)
    ensures var tokens := [Open(inArray)] + (inside + [Close(inArray)]);
            && Laid(p.format, tokens, prev, open) ==
               Space(p.format, prev, Open(inArray), open)
               + (TokenText(Open(inArray)) + text + Closing(p.format, inArray, k, |open|) + TokenText(Close(inArray)))
            && Ends(LastOf(tokens, prev)) && OpenBehind(tokens, open) == open
  {
    hide Space, Laid, LastOf, OpenBehind, Closing, TokenText;
    var within := open + [inArray];
    LaidOne(p.format, Open(inArray), prev, open);
    LaidJoin(p.format, [Open(inArray)], inside + [Close(inArray)], prev, open);
    LaidJoin(p.format, inside, [Close(inArray)], Some(Open(inArray)), within);
    LaidOne(p.format, Close(inArray), LastOf(inside, Some(Open(inArray))), within);
    ClosingIs(p.format, inArray, k, within, LastOf(inside, Some(Open(inArray))));
    assert within[..|within| - 1] == open;
    Gathered(Space(p.format, prev, Open(inArray), open), TokenText(Open(inArray)), text,
             Closing(p.format, inArray, k, |open|), TokenText(Close(inArray)));
  }

  lemma Gathered(a: Text, b: Text, c: Text, d: Text, e: Text)
    ensures a + b + (c + (d + e)) == a + (b + c + d + e)
  {
  }

  lemma Regrouped(a: Text, b: Text, c: Text, d: Text)
    ensures a + (b + c + d) == a + b + c + d && a + b + (c + d) == a + b + c + d && a + (b + c) == a + b + c
  {
  }

  lemma ElementTokensUnfold(p: Style, elems: seq<Value>, k: nat, depth: nat)
    requires elems != []
    ensures ElementTokens(p.ascii, elems) ==
            Tokens(p.ascii, elems[0]) + ((if |elems| > 1 then [Comma] else []) + ElementTokens(p.ascii, elems[1..]))
    ensures RenderElements(p, elems, k, depth) ==
            Gap(p.format, true, k, depth) + Render(p, elems[0], depth) + RenderElements(p, elems[1..], k + 1, depth)
    ensures |elems| == 1 ==>
              ElementTokens(p.ascii, elems[1..]) == [] && RenderElements(p, elems[1..], k + 1, depth) == []
  {
    hide Gap, Render, Tokens;
  }

  function Separator(k: nat): Text {
    if k == 0 then [] else [COMMA]
  }

  /** Elements from number k on, behind the bracket or the comma before them. */
  lemma {:induction false} ElementsLaid(p: Style, elems: seq<Value>, k: nat, open: seq<bool>)
    requires elems != [] && open != [] && open[|open| - 1]
    ensures var prev := Some(if k == 0 then Open(true) else Comma);
            && Separator(k) + Laid(p.format, ElementTokens(p.ascii, elems), prev, open) ==
               RenderElements(p, elems, k, |open|)
            && Ends(LastOf(ElementTokens(p.ascii, elems), prev))
            && OpenBehind(ElementTokens(p.ascii, elems), open) == open
    decreases elems, 1
  {
    hide *;
    var prev, own := Some(if k == 0 then Open(true) else Comma), Tokens(p.ascii, elems[0]);
    ElementTokensUnfold(p, elems, k, |open|);
    ValueLaid(p, elems[0], prev, open);
    LaidOutParts(p, elems[0], prev, open);
    GapIs(p.format, true, k, open, own[0]);
    SeparatorIs(k);
    var rest := (if |elems| > 1 then [Comma] else []) + ElementTokens(p.ascii, elems[1..]);
    LaidJoin(p.format, own, rest, prev, open);
    if |elems| == 1 {
      assert rest == [];
      NothingLaid(p.format, LastOf(own, prev), open);
    } else {
      ElementsLaid(p, elems[1..], k + 1, open);
      CommaLaid(p.format, ElementTokens(p.ascii, elems[1..]), LastOf(own, prev), open);
      SeparatorIs(k + 1);
    }
    Regrouped(Separator(k), Space(p.format, prev, own[0], open), Render(p, elems[0], |open|),
              Laid(p.format, rest, LastOf(own, prev), open));
  }

  lemma SeparatorIs(k: nat)
    ensures Separator(k) == if k == 0 then [] else [COMMA]
  {
  }

  lemma NothingLaid(f: Format, prev: Option<Token>, open: seq<bool>)
    ensures Laid(f, [], prev, open) == [] && LastOf([], prev) == prev && OpenBehind([], open) == open
  {
  }

  lemma CommaLaid(f: Format, rest: seq<Token>, prev: Option<Token>, open: seq<bool>)
    ensures Laid(f, [Comma] + rest, prev, open) == [COMMA] + Laid(f, rest, Some(Comma), open)
    ensures LastOf([Comma] + rest, prev) == LastOf(rest, Some(Comma))
    ensures OpenBehind([Comma] + rest, open) == OpenBehind(rest, open)
  {
    hide Space, Laid, LastOf, OpenBehind;
    LaidOne(f, Comma, prev, open);
    LaidJoin(f, [Comma], rest, prev, open);
    NoSpace(f, prev, open);
    assert [] + [COMMA] == [COMMA];
  }

  lemma LaidOutParts(p: Style, v: Value, prev: Option<Token>, open: seq<bool>)
    requires LaidOut(p, v, prev, open)
    ensures var tokens := Tokens(p.ascii, v);
            && Laid(p.format, tokens, prev, open) == Space(p.format, prev, tokens[0], open) + Render(p, v, |open|)
            && Ends(LastOf(tokens, prev)) && OpenBehind(tokens, open) == open
  {
  }

  lemma MemberTokensUnfold(p: Style, members: seq<Member>, k: nat, depth: nat)
    requires members != []
    ensures MemberTokens(p.ascii, members) ==
            [Leaf(Quoted(p.ascii, members[0].name)), Colon]
            + (Tokens(p.ascii, members[0].value)
               + ((if |members| > 1 then [Comma] else []) + MemberTokens(p.ascii, members[1..])))
    ensures RenderMembers(p, members, k, depth) ==
            Gap(p.format, false, 2 * k, depth) + Quoted(p.ascii, members[0].name)
            + Gap(p.format, false, 2 * k + 1, depth) + Render(p, members[0].value, depth)
            + RenderMembers(p, members[1..], k + 1, depth)
    ensures |members| == 1 ==>
              MemberTokens(p.ascii, members[1..]) == [] && RenderMembers(p, members[1..], k + 1, depth) == []
  {
    hide Gap, Render, Tokens, Quoted;
  }

  lemma NameLaid(f: Format, name: Text, rest: seq<Token>, prev: Option<Token>, open: seq<bool>)
    ensures Laid(f, [Leaf(name), Colon] + rest, prev, open) ==
            Space(f, prev, Leaf(name), open) + name + [COLON] + Laid(f, rest, Some(Colon), open)
    ensures LastOf([Leaf(name), Colon] + rest, prev) == LastOf(rest, Some(Colon))
    ensures OpenBehind([Leaf(name), Colon] + rest, open) == OpenBehind(rest, open)
  {
    hide Space, Laid, LastOf, OpenBehind;
    assert [Leaf(name), Colon] + rest == [Leaf(name)] + ([Colon] + rest);
    LaidOne(f, Leaf(name), prev, open);
    LaidJoin(f, [Leaf(name)], [Colon] + rest, prev, open);
    LaidOne(f, Colon, Some(Leaf(name)), open);
    LaidJoin(f, [Colon], rest, Some(Leaf(name)), open);
    NoSpace(f, Some(Leaf(name)), open);
    assert [] + [COLON] == [COLON];
  }

  lemma MembersJoin(sep: Text, a: Text, name: Text, b: Text, value: Text, rest: Text)
    ensures sep + (a + name + [COLON] + ((b + value) + rest)) == (sep + a) + name + ([COLON] + b) + value + rest
  {
    assert sep + (a + name + [COLON] + ((b + value) + rest)) == sep + a + name + [COLON] + b + value + rest;
    assert (sep + a) + name + ([COLON] + b) + value + rest == sep + a + name + [COLON] + b + value + rest;
  }

  lemma {:induction false} MembersLaid(p: Style, members: seq<Member>, k: nat, open: seq<bool>)
    requires members != [] && open != [] && !open[|open| - 1]
    ensures var prev := Some(if k == 0 then Open(false) else Comma);
            && Separator(k) + Laid(p.format, MemberTokens(p.ascii, members), prev, open) ==
               RenderMembers(p, members, k, |open|)
            && Ends(LastOf(MemberTokens(p.ascii, members), prev))
            && OpenBehind(MemberTokens(p.ascii, members), open) == open
    decreases members, 1
  {
    hide *;
    var m, prev := members[0], Some(if k == 0 then Open(false) else Comma);
    var name, own := Quoted(p.ascii, m.name), Tokens(p.ascii, m.value);
    MemberTokensUnfold(p, members, k, |open|);
    ValueLaid(p, m.value, Some(Colon), open);
    LaidOutParts(p, m.value, Some(Colon), open);
    EvenOdd(k);
    GapIs(p.format, false, 2 * k, open, Leaf(name));
    GapIs(p.format, false, 2 * k + 1, open, own[0]);
    SeparatorIs(k);
    var rest := (if |members| > 1 then [Comma] else []) + MemberTokens(p.ascii, members[1..]);
    NameLaid(p.format, name, own + rest, prev, open);
    LaidJoin(p.format, own, rest, Some(Colon), open);
    if |members| == 1 {
      assert rest == [];
      NothingLaid(p.format, LastOf(own, Some(Colon)), open);
    } else {
      MembersLaid(p, members[1..], k + 1, open);
      CommaLaid(p.format, MemberTokens(p.ascii, members[1..]), LastOf(own, Some(Colon)), open);
      SeparatorIs(k + 1);
    }
    MembersJoin(Separator(k), Space(p.format, prev, Leaf(name), open), name,
                Space(p.format, Some(Colon), own[0], open), Render(p, m.value, |open|),
                Laid(p.format, rest, LastOf(own, Some(Colon)), open));
  }

  lemma EvenOdd(k: nat)
    ensures (2 * k) % 2 == 0 && (2 * k + 1) % 2 == 1
  {
  }

  lemma NoElements(p: Style, depth: nat)
    ensures ElementTokens(p.ascii, []) == [] && RenderElements(p, [], 0, depth) == []
    ensures MemberTokens(p.ascii, []) == [] && RenderMembers(p, [], 0, depth) == []
  {
  }

  lemma ArrayIs(p: Style, elems: seq<Value>, depth: nat)
    ensures Render(p, Arr(elems), depth) ==
            TokenText(Open(true)) + RenderElements(p, elems, 0, depth + 1)
            + Closing(p.format, true, |elems|, depth) + TokenText(Close(true))
    ensures Tokens(p.ascii, Arr(elems)) == [Open(true)] + (ElementTokens(p.ascii, elems) + [Close(true)])
  {
    hide RenderElements, Closing, ElementTokens;
  }

  lemma ObjectIs(p: Style, members: seq<Member>, depth: nat)
    ensures Render(p, Obj(members), depth) ==
            TokenText(Open(false)) + RenderMembers(p, members, 0, depth + 1)
            + Closing(p.format, false, 2 * |members|, depth) + TokenText(Close(false))
    ensures Tokens(p.ascii, Obj(members)) == [Open(false)] + (MemberTokens(p.ascii, members) + [Close(false)])
  {
    hide RenderMembers, Closing, MemberTokens;
  }

  lemma NothingBefore(t: Text)
    ensures [] + t == t
  {
  }

  lemma IsLaidOut(p: Style, v: Value, prev: Option<Token>, open: seq<bool>)
    requires var tokens := Tokens(p.ascii, v);
             && Laid(p.format, tokens, prev, open) == Space(p.format, prev, tokens[0], open) + Render(p, v, |open|)
             && Ends(LastOf(tokens, prev)) && OpenBehind(tokens, open) == open
    ensures LaidOut(p, v, prev, open)
  {
  }

  lemma {:induction false} ValueLaid(p: Style, v: Value, prev: Option<Token>, open: seq<bool>)
    ensures LaidOut(p, v, prev, open)
    decreases v, 0
  {
    hide *;
    match v
    case Arr(elems) =>
      var inside, within := ElementTokens(p.ascii, elems), open + [true];
      ArrayIs(p, elems, |open|);
      SeparatorIs(0);
      if elems == [] {
        NoElements(p, |within|);
        NothingLaid(p.format, Some(Open(true)), within);
      } else {
        ElementsLaid(p, elems, 0, within);
        NothingBefore(Laid(p.format, inside, Some(Open(true)), within));
      }
      ContainerLaid(p, inside, true, RenderElements(p, elems, 0, |within|), |elems|, prev, open);
      IsLaidOut(p, v, prev, open);
    case Obj(members) =>
      var inside, within := MemberTokens(p.ascii, members), open + [false];
      ObjectIs(p, members, |open|);
      SeparatorIs(0);
      if members == [] {
        NoElements(p, |within|);
        NothingLaid(p.format, Some(Open(false)), within);
      } else {
        MembersLaid(p, members, 0, within);
        NothingBefore(Laid(p.format, inside, Some(Open(false)), within));
      }
      ContainerLaid(p, inside, false, RenderMembers(p, members, 0, |within|), 2 * |members|, prev, open);
      IsLaidOut(p, v, prev, open);
    case _ => ScalarLaid(p, v, prev, open);
  }

  /** The text of any value, in any format, is its tokens laid out. */
  lemma TextIsLaidOut(p: Style, v: Value)
    ensures Render(p, v, 0) == Laid(p.format, Tokens(p.ascii, v), None, [])
  {
    hide Laid, Render, Tokens, LastOf, OpenBehind;
    ValueLaid(p, v, None, []);
    NoSpaceFirst(p.format, Tokens(p.ascii, v)[0]);
    assert [] + Render(p, v, 0) == Render(p, v, 0);
  }

  lemma NoSpaceFirst(f: Format, t: Token)
    ensures Space(f, None, t, []) == []
  {
  }
}
