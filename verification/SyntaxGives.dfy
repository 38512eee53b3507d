/** Everything that is accepted is a document of the grammar: whatever recursive descent takes
    stands in the text as the text of a tree, and the events it sends are those of that tree. */
module SyntaxGives {
  import opened Bytes
  import opened Json
  import opened Syntax
  import opened SyntaxLeaves
  import opened SyntaxReads
  import ParserEquivalence
  import R = ReaderSpec

  // ---------- between tokens ----------

  lemma SkipAtGives(f: R.Flags, s: Text, c: R.Cursor) returns (g: Gap)
    requires c.pos <= |s| && R.SkipAt(f, s, c).Some?
    ensures GapOk(f, g) && Holds(s, c.pos, GapText(g)) && c.pos + |GapText(g)| <= |s|
    ensures R.SkipAt(f, s, c) == Some(Ahead(c, |GapText(g)|)) && Solid(f, Peek(s, c.pos + |GapText(g)|))
    ensures Open(g) ==> Peek(s, c.pos + |GapText(g)|) == NUL
  {
    hide R.Skip, GapText;
    g := SkipGives(f, s, c.pos);
  }

  /** A gap in front of a byte that is not the end of the text is closed. */
  lemma ClosedInner(f: R.Flags, g: Gap)
    requires GapOk(f, g) && !Open(g)
    ensures Inner(f, g)
  {
  }

  lemma InnerGap(f: R.Flags, s: Text, c: R.Cursor) returns (g: Gap)
    requires c.pos <= |s| && R.SkipAt(f, s, c).Some? && Peek(s, R.SkipAt(f, s, c).value.pos) != NUL
    ensures Inner(f, g) && Holds(s, c.pos, GapText(g)) && c.pos + |GapText(g)| <= |s|
    ensures R.SkipAt(f, s, c) == Some(Ahead(c, |GapText(g)|))
  {
    hide R.SkipAt, GapText, GapOk, Inner;
    g := SkipAtGives(f, s, c);
    ClosedInner(f, g);
  }

  // ---------- scalars ----------

  lemma WordGives(s: Text, c: R.Cursor, word: Text, e: Event)
    requires R.Word(s, c, word, e).Some?
    ensures Holds(s, c.pos, word) && R.Word(s, c, word, e) == Some(Moved(c, |word|, [e]))
  {
  }

  lemma ScalarGives(f: R.Flags, s: Text, c: R.Cursor) returns (t: Tree)
    requires c.pos <= |s| && R.Scalar(f, s, c).Some?
    ensures TreeOk(f, t) && Holds(s, c.pos, TreeText(t)) && (t.Number? ==> Bounded(t.n, Peek(s, c.pos + |TreeText(t)|)))
    ensures R.Scalar(f, s, c) == Some(Moved(c, |TreeText(t)|, TreeEvents(f, t)))
  {
    hide NumeralText, R.Number, R.StringAt, NumeralEvent, Bounded, StringText, PiecesBytes, R.Word, Holds;
    var b := Peek(s, c.pos);
    if b == LOWER_N {
      t := Tree.Null;
      WordGives(s, c, NULL_WORD, OnNull);
    } else if b == LOWER_T {
      t := Tree.Bool(true);
      WordGives(s, c, TRUE_WORD, OnBool(true));
    } else if b == LOWER_F {
      t := Tree.Bool(false);
      WordGives(s, c, FALSE_WORD, OnBool(false));
    } else if b == QUOTE {
      var pieces := StringGives(s, c, false);
      t := String(pieces);
    } else {
      var n := NumberGives(f, s, c.pos);
      t := Number(n);
    }
  }

  // ---------- arrays ----------

  /** What recursive descent does behind an element. */
  lemma AfterElementCases(f: R.Flags, s: Text, c: R.Cursor, count: nat)
    requires c.pos <= |s| && R.AfterElement(f, s, c, count).Some?
    ensures R.SkipAt(f, s, c).Some?
    ensures var d := R.SkipAt(f, s, c).value;
            if Peek(s, d.pos) == RIGHT_BRACKET then
              R.AfterElement(f, s, c, count) == Some(Moved(d, 1, [OnEndArray(count + 1)]))
            else
              && Peek(s, d.pos) == COMMA && d.pos < |s| && R.SkipAt(f, s, Ahead(d, 1)).Some?
              && var e := R.SkipAt(f, s, Ahead(d, 1)).value;
                 if f.trailingCommas && Peek(s, e.pos) == RIGHT_BRACKET then
                   R.AfterElement(f, s, c, count) == Some(Moved(e, 1, [OnEndArray(count + 1)]))
                 else R.AfterElement(f, s, c, count) == R.ParseElements(f, s, e, count + 1)
  {
    hide R.ParseElements, R.SkipAt;
  }

  lemma AfterMemberCases(f: R.Flags, s: Text, c: R.Cursor, count: nat)
    requires c.pos <= |s| && R.AfterMember(f, s, c, count).Some?
    ensures R.SkipAt(f, s, c).Some?
    ensures var d := R.SkipAt(f, s, c).value;
            if Peek(s, d.pos) == RIGHT_BRACE then
              R.AfterMember(f, s, c, count) == Some(Moved(d, 1, [OnEndObject(count + 1)]))
            else
              && Peek(s, d.pos) == COMMA && d.pos < |s| && R.SkipAt(f, s, Ahead(d, 1)).Some?
              && var e := R.SkipAt(f, s, Ahead(d, 1)).value;
                 if f.trailingCommas && Peek(s, e.pos) == RIGHT_BRACE then
                   R.AfterMember(f, s, c, count) == Some(Moved(e, 1, [OnEndObject(count + 1)]))
                 else R.AfterMember(f, s, c, count) == R.ParseMembers(f, s, e, count + 1)
  {
    hide R.ParseMembers, R.SkipAt;
  }

  lemma NothingAtEnd(f: R.Flags, s: Text, c: R.Cursor, count: nat)
    requires c.pos <= |s| && Peek(s, c.pos) == NUL
    ensures R.ParseValue(f, s, c) == None
    ensures R.ParseElements(f, s, c, count) == None && R.ParseMembers(f, s, c, count) == None
  {
  }

  /** A comma, if there is one, and the gap behind it. */
  lemma CommaHolds(s: Text, i: nat, more: bool, next: Gap)
    requires i <= |s|
    requires more ==> Peek(s, i) == COMMA && Holds(s, i + 1, GapText(next))
    ensures Holds(s, i, CommaText(more, next))
    ensures |CommaText(more, next)| == if more then 1 + |GapText(next)| else 0
  {
    hide GapText;
    if more {
      HoldsOne(s, i, COMMA);
      HoldsJoin(s, i, [COMMA], GapText(next));
    } else {
      EmptyHeld(s, i);
    }
  }

  /** An item and what stands behind it. */
  lemma ItemAssembled(f: R.Flags, s: Text, i: nat, first: Item, rest: seq<Item>, trailing: bool)
    requires TreeOk(f, first.value) && Inner(f, first.after) && Inner(f, first.next) && ItemsOk(f, rest)
    requires var t, g, m := TreeText(first.value), GapText(first.after), CommaText(rest != [] || trailing, first.next);
             && Holds(s, i, t) && Holds(s, i + |t|, g) && Holds(s, i + |t| + |g|, m)
             && Holds(s, i + |t| + |g| + |m|, ItemsText(rest, trailing) + [RIGHT_BRACKET])
    ensures ItemsOk(f, [first] + rest) && Holds(s, i, ItemsText([first] + rest, trailing) + [RIGHT_BRACKET])
  {
    hide TreeText, GapText, CommaText, Inner, TreeOk, Holds, ItemsText;
    var t, g, m := TreeText(first.value), GapText(first.after), CommaText(rest != [] || trailing, first.next);
    assert ([first] + rest)[1..] == rest;
    ItemsUnfold(f, [first] + rest, trailing);
    HoldsJoin(s, i + |t|, g, m);
    HoldsJoin(s, i + |t|, g + m, ItemsText(rest, trailing) + [RIGHT_BRACKET]);
    HoldsJoin(s, i, t, (g + m) + (ItemsText(rest, trailing) + [RIGHT_BRACKET]));
  }

  lemma ElementsValue(f: R.Flags, s: Text, c: R.Cursor, count: nat)
    requires c.pos <= |s| && R.ParseElements(f, s, c, count).Some?
    ensures R.ParseValue(f, s, c).Some? && R.ParseValue(f, s, c).value.pos <= |s|
    ensures R.AfterElement(f, s, R.ParseValue(f, s, c).value, count).Some?
  {
    hide R.ParseValue, R.AfterElement;
  }

  lemma JustBracket(s: Text, i: nat, trailing: bool)
    requires Peek(s, i) == RIGHT_BRACKET
    ensures Holds(s, i, ItemsText([], trailing) + [RIGHT_BRACKET])
  {
    HoldsOne(s, i, RIGHT_BRACKET);
    assert [] + [RIGHT_BRACKET] == [RIGHT_BRACKET];
  }

  lemma NoGap(f: R.Flags)
    ensures Inner(f, []) && GapText([]) == []
  {
  }

  lemma {:induction false} ElementsGive(f: R.Flags, s: Text, c: R.Cursor, count: nat)
    returns (items: seq<Item>, trailing: bool)
    requires c.pos <= |s| && R.ParseElements(f, s, c, count).Some?
    ensures items != [] && ItemsOk(f, items) && (trailing ==> f.trailingCommas)
    ensures Holds(s, c.pos, ItemsText(items, trailing) + [RIGHT_BRACKET])
    decreases |s| - c.pos, 2
  {
    hide *;
    ElementsValue(f, s, c, count);
    var t := ValueGives(f, s, c);
    TreeReads(f, s, c, t);
    var after := Moved(c, |TreeText(t)|, TreeEvents(f, t));
    MovedParts(c, |TreeText(t)|, TreeEvents(f, t));
    AfterElementCases(f, s, after, count);
    BracketPunctuates();
    var g := InnerGap(f, s, after);
    var d := Ahead(after, |GapText(g)|);
    MovedParts(after, |GapText(g)|, []);
    NoGap(f);
    NoItems(f, true);
    if Peek(s, d.pos) == RIGHT_BRACKET {
      items, trailing := [Item(t, g, [])] + [], false;
      CommaHolds(s, d.pos, false, []);
      JustBracket(s, d.pos, false);
      ItemAssembled(f, s, c.pos, Item(t, g, []), [], false);
    } else {
      MovedParts(d, 1, []);
      var e := R.SkipAt(f, s, Ahead(d, 1)).value;
      if Peek(s, e.pos) == NUL { SkipKeeps(f, s, Ahead(d, 1)); NothingAtEnd(f, s, e, count + 1); }
      var next := InnerGap(f, s, Ahead(d, 1));
      MovedParts(Ahead(d, 1), |GapText(next)|, []);
      CommaHolds(s, d.pos, true, next);
      if f.trailingCommas && Peek(s, e.pos) == RIGHT_BRACKET {
        items, trailing := [Item(t, g, next)] + [], true;
        JustBracket(s, e.pos, true);
        ItemAssembled(f, s, c.pos, Item(t, g, next), [], true);
      } else {
        var rest;
        rest, trailing := ElementsGive(f, s, e, count + 1);
        items := [Item(t, g, next)] + rest;
        ItemAssembled(f, s, c.pos, Item(t, g, next), rest, trailing);
      }
    }
  }

  lemma SkipKeeps(f: R.Flags, s: Text, c: R.Cursor)
    requires c.pos <= |s|
    ensures R.SkipAt(f, s, c).Some? ==> c.pos <= R.SkipAt(f, s, c).value.pos <= |s|
  {
  }

  // ---------- objects ----------

  lemma FieldAssembled(f: R.Flags, s: Text, i: nat, first: Field, rest: seq<Field>, trailing: bool)
    requires PiecesOk(first.name) && Inner(f, first.before) && Inner(f, first.behind)
    requires TreeOk(f, first.value) && Inner(f, first.after) && Inner(f, first.next) && FieldsOk(f, rest)
    requires var name, t, g := NameText(first), TreeText(first.value), GapText(first.after);
             var m := CommaText(rest != [] || trailing, first.next);
             && Holds(s, i, name) && Holds(s, i + |name|, t) && Holds(s, i + |name| + |t|, g)
             && Holds(s, i + |name| + |t| + |g|, m)
             && Holds(s, i + |name| + |t| + |g| + |m|, FieldsText(rest, trailing) + [RIGHT_BRACE])
    ensures FieldsOk(f, [first] + rest) && Holds(s, i, FieldsText([first] + rest, trailing) + [RIGHT_BRACE])
  {
    hide TreeText, GapText, CommaText, Inner, TreeOk, Holds, FieldsText, NameText, PiecesOk;
    var name, t, g := NameText(first), TreeText(first.value), GapText(first.after);
    var m := CommaText(rest != [] || trailing, first.next);
    var tail := FieldsText(rest, trailing) + [RIGHT_BRACE];
    assert ([first] + rest)[1..] == rest;
    FieldsUnfold(f, [first] + rest, trailing);
    HoldsJoin(s, i + |name| + |t|, g, m);
    HoldsJoin(s, i + |name| + |t|, g + m, tail);
    HoldsJoin(s, i + |name|, t, (g + m) + tail);
    HoldsJoin(s, i, name, t + ((g + m) + tail));
  }

  lemma MembersParts(f: R.Flags, s: Text, c: R.Cursor, count: nat)
    requires c.pos <= |s| && R.ParseMembers(f, s, c, count).Some?
    ensures c.pos < |s| && s[c.pos] == QUOTE && R.StringAt(s, c, true).Some?
    ensures var name := R.StringAt(s, c, true).value;
            && name.pos <= |s| && R.ParseColon(f, s, name).Some?
            && var at := R.ParseColon(f, s, name).value;
               && c.pos < at.pos <= |s| && R.ParseValue(f, s, at).Some? && R.ParseValue(f, s, at).value.pos <= |s|
               && R.AfterMember(f, s, R.ParseValue(f, s, at).value, count).Some?
  {
    hide R.ParseValue, R.AfterMember;
  }

  lemma ColonParts(f: R.Flags, s: Text, c: R.Cursor)
    requires c.pos <= |s| && R.ParseColon(f, s, c).Some?
    ensures R.SkipAt(f, s, c).Some?
    ensures var d := R.SkipAt(f, s, c).value;
            && d.pos < |s| && Peek(s, d.pos) == COLON && R.ParseColon(f, s, c) == R.SkipAt(f, s, Ahead(d, 1))
  {
    hide R.SkipAt;
  }

  /** A name and its colon, up to the value. */
  lemma NameGives(f: R.Flags, s: Text, c: R.Cursor) returns (name: seq<Piece>, before: Gap, behind: Gap)
    requires c.pos < |s| && s[c.pos] == QUOTE && R.StringAt(s, c, true).Some?
    requires var name := R.StringAt(s, c, true).value;
             && name.pos <= |s| && R.ParseColon(f, s, name).Some?
             && Peek(s, R.ParseColon(f, s, name).value.pos) != NUL
    ensures PiecesOk(name) && Inner(f, before) && Inner(f, behind)
    ensures var t := StringText(name) + GapText(before) + [COLON] + GapText(behind);
            Holds(s, c.pos, t) && R.ParseColon(f, s, R.StringAt(s, c, true).value).value.pos == c.pos + |t|
  {
    hide R.StringAt, R.SkipAt, GapText, StringText, Holds, Inner, PiecesOk, PiecesBytes;
    name := StringGives(s, c, true);
    var at := R.StringAt(s, c, true).value;
    ColonParts(f, s, at);
    before := InnerGap(f, s, at);
    var d := Ahead(at, |GapText(before)|);
    behind := InnerGap(f, s, Ahead(d, 1));
    HoldsOne(s, d.pos, COLON);
    var a, b, e := StringText(name), GapText(before), GapText(behind);
    HoldsJoin(s, c.pos, a, b);
    HoldsJoin(s, c.pos, a + b, [COLON]);
    HoldsJoin(s, c.pos, a + b + [COLON], e);
  }

  lemma JustBrace(s: Text, i: nat, trailing: bool)
    requires Peek(s, i) == RIGHT_BRACE
    ensures Holds(s, i, FieldsText([], trailing) + [RIGHT_BRACE])
  {
    HoldsOne(s, i, RIGHT_BRACE);
    assert [] + [RIGHT_BRACE] == [RIGHT_BRACE];
  }

  lemma NameTextIs(field: Field)
    ensures NameText(field) == StringText(field.name) + GapText(field.before) + [COLON] + GapText(field.behind)
  {
  }

  lemma {:induction false} MembersGive(f: R.Flags, s: Text, c: R.Cursor, count: nat)
    returns (fields: seq<Field>, trailing: bool)
    requires c.pos <= |s| && R.ParseMembers(f, s, c, count).Some?
    ensures fields != [] && FieldsOk(f, fields) && (trailing ==> f.trailingCommas)
    ensures Holds(s, c.pos, FieldsText(fields, trailing) + [RIGHT_BRACE])
    decreases |s| - c.pos, 2
  {
    hide *;
    MembersParts(f, s, c, count);
    var at := R.ParseColon(f, s, R.StringAt(s, c, true).value).value;
    if Peek(s, at.pos) == NUL { NothingAtEnd(f, s, at, count); }
    var name, before, behind := NameGives(f, s, c);
    var t := ValueGives(f, s, at);
    TreeReads(f, s, at, t);
    var after := Moved(at, |TreeText(t)|, TreeEvents(f, t));
    MovedParts(at, |TreeText(t)|, TreeEvents(f, t));
    fields, trailing := FieldsTail(f, s, c.pos, at.pos, after, count, name, before, behind, t);
  }

  /** Behind the value of a member: the rest of the object. */
  lemma {:induction false} FieldsTail(f: R.Flags, s: Text, i: nat, j: nat, after: R.Cursor, count: nat,
                                      name: seq<Piece>, before: Gap, behind: Gap, t: Tree)
    returns (fields: seq<Field>, trailing: bool)
    requires after.pos <= |s| && i < after.pos && R.AfterMember(f, s, after, count).Some?
    requires PiecesOk(name) && Inner(f, before) && Inner(f, behind) && TreeOk(f, t)
    requires var text := StringText(name) + GapText(before) + [COLON] + GapText(behind);
             Holds(s, i, text) && j == i + |text|
    requires Holds(s, j, TreeText(t)) && after.pos == j + |TreeText(t)|
    ensures fields != [] && FieldsOk(f, fields) && (trailing ==> f.trailingCommas)
    ensures Holds(s, i, FieldsText(fields, trailing) + [RIGHT_BRACE])
    decreases |s| - after.pos, 3
  {
    hide *;
    AfterMemberCases(f, s, after, count);
    BracketPunctuates();
    var g := InnerGap(f, s, after);
    var d := Ahead(after, |GapText(g)|);
    MovedParts(after, |GapText(g)|, []);
    NoGap(f);
    NoItems(f, true);
    if Peek(s, d.pos) == RIGHT_BRACE {
      var first := Field(name, before, behind, t, g, []);
      NameTextIs(first);
      fields, trailing := [first] + [], false;
      CommaHolds(s, d.pos, false, []);
      JustBrace(s, d.pos, false);
      FieldAssembled(f, s, i, first, [], false);
    } else {
      MovedParts(d, 1, []);
      var e := R.SkipAt(f, s, Ahead(d, 1)).value;
      SkipKeeps(f, s, Ahead(d, 1));
      if Peek(s, e.pos) == NUL { NothingAtEnd(f, s, e, count + 1); }
      var next := InnerGap(f, s, Ahead(d, 1));
      MovedParts(Ahead(d, 1), |GapText(next)|, []);
      CommaHolds(s, d.pos, true, next);
      var first := Field(name, before, behind, t, g, next);
      NameTextIs(first);
      if f.trailingCommas && Peek(s, e.pos) == RIGHT_BRACE {
        fields, trailing := [first] + [], true;
        JustBrace(s, e.pos, true);
        FieldAssembled(f, s, i, first, [], true);
      } else {
        var rest;
        rest, trailing := MembersGive(f, s, e, count + 1);
        fields := [first] + rest;
        FieldAssembled(f, s, i, first, rest, trailing);
      }
    }
  }

  // ---------- values ----------

  lemma ArrayCases(f: R.Flags, s: Text, c: R.Cursor)
    requires c.pos < |s| && s[c.pos] == LEFT_BRACKET && R.ParseValue(f, s, c).Some?
    ensures var d := Moved(c, 1, [OnStartArray]);
            && R.SkipAt(f, s, d).Some?
            && var e := R.SkipAt(f, s, d).value;
               Peek(s, e.pos) == RIGHT_BRACKET || R.ParseElements(f, s, e, 0).Some?
  {
    hide R.ParseElements, R.SkipAt;
  }

  lemma ObjectCases(f: R.Flags, s: Text, c: R.Cursor)
    requires c.pos < |s| && s[c.pos] == LEFT_BRACE && R.ParseValue(f, s, c).Some?
    ensures var d := Moved(c, 1, [OnStartObject]);
            && R.SkipAt(f, s, d).Some?
            && var e := R.SkipAt(f, s, d).value;
               Peek(s, e.pos) == RIGHT_BRACE || R.ParseMembers(f, s, e, 0).Some?
  {
    hide R.ParseMembers, R.SkipAt;
  }

  lemma ArrayAssembled(f: R.Flags, s: Text, i: nat, lead: Gap, items: seq<Item>, trailing: bool)
    requires Inner(f, lead) && ItemsOk(f, items) && (trailing ==> f.trailingCommas && items != [])
    requires i < |s| && s[i] == LEFT_BRACKET && Holds(s, i + 1, GapText(lead))
    requires Holds(s, i + 1 + |GapText(lead)|, ItemsText(items, trailing) + [RIGHT_BRACKET])
    ensures TreeOk(f, Array(lead, items, trailing)) && Holds(s, i, TreeText(Array(lead, items, trailing)))
  {
    hide GapText, ItemsText, Holds, Inner, ItemsOk;
    ArrayIs(f, lead, items, trailing);
    HoldsJoin(s, i + 1, GapText(lead), ItemsText(items, trailing) + [RIGHT_BRACKET]);
    HoldsCons(s, i, GapText(lead) + (ItemsText(items, trailing) + [RIGHT_BRACKET]));
  }

  lemma ArrayIs(f: R.Flags, lead: Gap, items: seq<Item>, trailing: bool)
    ensures TreeText(Array(lead, items, trailing)) ==
            [LEFT_BRACKET] + (GapText(lead) + (ItemsText(items, trailing) + [RIGHT_BRACKET]))
  {
    hide GapText, ItemsText;
  }

  lemma ObjectIs(f: R.Flags, lead: Gap, fields: seq<Field>, trailing: bool)
    ensures TreeText(Object(lead, fields, trailing)) ==
            [LEFT_BRACE] + (GapText(lead) + (FieldsText(fields, trailing) + [RIGHT_BRACE]))
  {
    hide GapText, FieldsText;
  }

  lemma ObjectAssembled(f: R.Flags, s: Text, i: nat, lead: Gap, fields: seq<Field>, trailing: bool)
    requires Inner(f, lead) && FieldsOk(f, fields) && (trailing ==> f.trailingCommas && fields != [])
    requires i < |s| && s[i] == LEFT_BRACE && Holds(s, i + 1, GapText(lead))
    requires Holds(s, i + 1 + |GapText(lead)|, FieldsText(fields, trailing) + [RIGHT_BRACE])
    ensures TreeOk(f, Object(lead, fields, trailing)) && Holds(s, i, TreeText(Object(lead, fields, trailing)))
  {
    hide GapText, FieldsText, Holds, Inner, FieldsOk;
    ObjectIs(f, lead, fields, trailing);
    HoldsJoin(s, i + 1, GapText(lead), FieldsText(fields, trailing) + [RIGHT_BRACE]);
    HoldsCons(s, i, GapText(lead) + (FieldsText(fields, trailing) + [RIGHT_BRACE]));
  }

  lemma ArrayGives(f: R.Flags, s: Text, c: R.Cursor) returns (t: Tree)
    requires c.pos < |s| && s[c.pos] == LEFT_BRACKET && R.ParseValue(f, s, c).Some?
    ensures t.Array? && TreeOk(f, t) && Holds(s, c.pos, TreeText(t))
    decreases |s| - c.pos, 0
  {
    hide *;
    ArrayCases(f, s, c);
    BracketPunctuates();
    var d := Moved(c, 1, [OnStartArray]);
    MovedParts(c, 1, [OnStartArray]);
    SkipKeeps(f, s, d);
    var e := R.SkipAt(f, s, d).value;
    if Peek(s, e.pos) == NUL { NothingAtEnd(f, s, e, 0); }
    var lead := InnerGap(f, s, d);
    MovedParts(d, |GapText(lead)|, []);
    NoItems(f, false);
    if Peek(s, e.pos) == RIGHT_BRACKET {
      JustBracket(s, e.pos, false);
      ArrayAssembled(f, s, c.pos, lead, [], false);
      t := Array(lead, [], false);
    } else {
      var items, trailing := ElementsGive(f, s, e, 0);
      ArrayAssembled(f, s, c.pos, lead, items, trailing);
      t := Array(lead, items, trailing);
    }
  }

  lemma ObjectGives(f: R.Flags, s: Text, c: R.Cursor) returns (t: Tree)
    requires c.pos < |s| && s[c.pos] == LEFT_BRACE && R.ParseValue(f, s, c).Some?
    ensures t.Object? && TreeOk(f, t) && Holds(s, c.pos, TreeText(t))
    decreases |s| - c.pos, 0
  {
    hide *;
    ObjectCases(f, s, c);
    BracketPunctuates();
    var d := Moved(c, 1, [OnStartObject]);
    MovedParts(c, 1, [OnStartObject]);
    SkipKeeps(f, s, d);
    var e := R.SkipAt(f, s, d).value;
    if Peek(s, e.pos) == NUL { NothingAtEnd(f, s, e, 0); }
    var lead := InnerGap(f, s, d);
    MovedParts(d, |GapText(lead)|, []);
    NoItems(f, false);
    if Peek(s, e.pos) == RIGHT_BRACE {
      JustBrace(s, e.pos, false);
      ObjectAssembled(f, s, c.pos, lead, [], false);
      t := Object(lead, [], false);
    } else {
      var fields, trailing := MembersGive(f, s, e, 0);
      ObjectAssembled(f, s, c.pos, lead, fields, trailing);
      t := Object(lead, fields, trailing);
    }
  }

  lemma ValueIsScalar(f: R.Flags, s: Text, c: R.Cursor)
    requires c.pos <= |s| && Peek(s, c.pos) != LEFT_BRACE && Peek(s, c.pos) != LEFT_BRACKET
    ensures R.ParseValue(f, s, c) == R.Scalar(f, s, c)
  {
  }

  /** Whatever is read as a value is the text of a tree that nothing behind it goes on with. */
  lemma {:induction false} ValueGives(f: R.Flags, s: Text, c: R.Cursor) returns (t: Tree)
    requires c.pos <= |s| && R.ParseValue(f, s, c).Some?
    ensures TreeOk(f, t) && Holds(s, c.pos, TreeText(t))
    ensures t.Number? ==> Bounded(t.n, Peek(s, c.pos + |TreeText(t)|))
    decreases |s| - c.pos, 1
  {
    hide R.ParseValue, R.Scalar, TreeText, TreeOk, Bounded, Holds;
    if Peek(s, c.pos) == LEFT_BRACE {
      t := ObjectGives(f, s, c);
    } else if Peek(s, c.pos) == LEFT_BRACKET {
      t := ArrayGives(f, s, c);
    } else {
      ValueIsScalar(f, s, c);
      t := ScalarGives(f, s, c);
    }
  }

  // ---------- documents ----------

  lemma DocumentCases(f: R.Flags, s: Text)
    requires R.RecursiveParse(f, s).Some?
    ensures R.SkipAt(f, s, R.Cursor(0, [])).Some?
    ensures var c := R.SkipAt(f, s, R.Cursor(0, [])).value;
            && c.pos <= |s| && c.out == [] && Peek(s, c.pos) != NUL && R.ParseValue(f, s, c).Some?
            && var d := R.ParseValue(f, s, c).value;
               && d.pos <= |s|
               && if f.stopWhenDone then R.RecursiveParse(f, s) == Some(d)
                  else R.SkipAt(f, s, d) == R.RecursiveParse(f, s) && Peek(s, R.RecursiveParse(f, s).value.pos) == NUL
  {
    hide R.SkipAt, R.ParseValue;
  }

  lemma DocumentAssembled(f: R.Flags, s: Text, d: Document)
    requires Holds(s, 0, GapText(d.lead)) && Holds(s, |GapText(d.lead)|, TreeText(d.value))
    requires Holds(s, |GapText(d.lead)| + |TreeText(d.value)|, GapText(d.trail))
    ensures |DocumentText(d)| <= |s| && s[..|DocumentText(d)|] == DocumentText(d)
  {
    hide GapText, TreeText;
    HoldsJoin(s, 0, GapText(d.lead), TreeText(d.value));
    HoldsJoin(s, 0, GapText(d.lead) + TreeText(d.value), GapText(d.trail));
    assert s[0..|DocumentText(d)|] == s[..|DocumentText(d)|];
  }

  /** Whatever is accepted is a document that stands in the text. */
  lemma DocumentGives(f: R.Flags, s: Text) returns (d: Document)
    requires R.RecursiveParse(f, s).Some?
    ensures StandsAt(f, s, R.RecursiveParse(f, s).value.pos, d)
  {
    hide R.RecursiveParse, R.SkipAt, R.ParseValue, GapText, TreeText, TreeOk, TreeEvents, Inner, GapOk, Bounded, Holds;
    DocumentCases(f, s);
    var c := R.SkipAt(f, s, R.Cursor(0, [])).value;
    var lead := InnerGap(f, s, R.Cursor(0, []));
    var t := ValueGives(f, s, c);
    TreeReads(f, s, c, t);
    var after := R.ParseValue(f, s, c).value;
    var trail: Gap := [];
    if f.stopWhenDone {
      EmptyGap(f, s, after.pos);
    } else {
      trail := SkipAtGives(f, s, after);
    }
    d := Document(lead, t, trail);
    DocumentAssembled(f, s, d);
  }

  /** The reader accepts a text up to n with these events exactly when a document of the grammar
      stands there whose tree announces them. By both parsers, for every setting of the flags. */
  lemma AcceptedIffDocument(f: R.Flags, s: Text, n: nat, events: seq<Event>)
    ensures R.RecursiveParse(f, s) == Some(R.Cursor(n, events)) <==>
            exists d :: StandsAt(f, s, n, d) && events == TreeEvents(f, d.value)
    ensures R.IterativeParse(f, s) == R.RecursiveParse(f, s)
  {
    hide R.RecursiveParse, R.IterativeParse, TreeEvents, TreeOk, DocumentText, Bounded;
    ParserEquivalence.ParsersAgree(f, s);
    if R.RecursiveParse(f, s) == Some(R.Cursor(n, events)) {
      var d := DocumentGives(f, s);
      DocumentReads(f, s, n, d);
    }
    if exists d :: StandsAt(f, s, n, d) && events == TreeEvents(f, d.value) {
      var d :| StandsAt(f, s, n, d) && events == TreeEvents(f, d.value);
      DocumentReads(f, s, n, d);
    }
  }
}
