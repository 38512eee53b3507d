/** Every document that the grammar allows is read as it is written: recursive descent takes its
    text and sends the events of its tree. */
module SyntaxReads {
  import opened Bytes
  import opened Json
  import opened Syntax
  import opened SyntaxLeaves
  import R = ReaderSpec

  /** The cursor n bytes on, after these events. */
  function Moved(c: R.Cursor, n: nat, events: seq<Event>): R.Cursor {
    R.Cursor(c.pos + n, c.out + events)
  }

  function Ahead(c: R.Cursor, n: nat): R.Cursor {
    c.(pos := c.pos + n)
  }

  lemma MovedTwice(c: R.Cursor, n: nat, a: seq<Event>, m: nat, b: seq<Event>)
    ensures Moved(Moved(c, n, a), m, b) == Moved(c, n + m, a + b)
  {
    assert c.out + a + b == c.out + (a + b);
  }

  // ---------- between tokens ----------

  lemma GapRead(f: R.Flags, s: Text, c: R.Cursor, g: Gap)
    requires Inner(f, g) && Holds(s, c.pos, GapText(g)) && Solid(f, Peek(s, c.pos + |GapText(g)|))
    ensures c.pos + |GapText(g)| <= |s| && R.SkipAt(f, s, c) == Some(Ahead(c, |GapText(g)|))
  {
    hide R.Skip, GapText;
    GapSkips(f, s, c.pos, g);
  }

  /** A byte at which skipping stops and no number goes on. */
  predicate Punctuation(c: Byte) {
    c in {COMMA, COLON, RIGHT_BRACKET, RIGHT_BRACE}
  }

  lemma PunctuationStops(f: R.Flags, c: Byte)
    requires Punctuation(c)
    ensures Solid(f, c) && c != NUL && forall n: Numeral :: Bounded(n, c)
  {
  }

  /** Behind a value stands the gap's first byte or the punctuation behind the gap. */
  lemma GapBounds(f: R.Flags, s: Text, i: nat, g: Gap, n: Numeral)
    requires GapOk(f, g) && Holds(s, i, GapText(g))
    requires Punctuation(Peek(s, i + |GapText(g)|)) || Peek(s, i + |GapText(g)|) == NUL
    ensures Bounded(n, Peek(s, i))
  {
    if g != [] {
      GapUnfold(f, g);
      HoldsHead(s, i, GapText(g));
      assert SkippedOk(f, g[0]);
      assert GapText(g)[0] == SkippedText(g[0])[0];
    }
  }

  /** The bytes that a value can begin with. */
  predicate Begins(c: Byte) {
    c in {0x6E, 0x74, 0x66, QUOTE, LEFT_BRACKET, LEFT_BRACE, MINUS} || 0x30 <= c <= 0x39
  }

  lemma BeginsSolid(f: R.Flags, c: Byte)
    requires Begins(c)
    ensures Solid(f, c) && c != NUL && !Punctuation(c)
  {
  }

  lemma TreeBegins(f: R.Flags, t: Tree)
    requires TreeOk(f, t)
    ensures TreeText(t) != [] && Begins(TreeText(t)[0])
  {
    match t
    case Number(n) =>
      NumeralParts(n);
      assert IntegerText(n) != [] && NumeralText(n)[0] == IntegerText(n)[0];
    case _ =>
  }

  // ---------- scalars ----------

  lemma WordReads(s: Text, c: R.Cursor, word: Text, e: Event)
    requires Holds(s, c.pos, word)
    ensures R.Word(s, c, word, e) == Some(Moved(c, |word|, [e]))
  {
  }

  lemma NumberReads(f: R.Flags, s: Text, c: R.Cursor, n: Numeral)
    requires TreeOk(f, Number(n)) && Holds(s, c.pos, NumeralText(n))
    requires Bounded(n, Peek(s, c.pos + |NumeralText(n)|))
    ensures c.pos < |s| && R.NumberAt(f, s, c) == Some(Moved(c, |NumeralText(n)|, [NumeralEvent(f, n).value]))
  {
    hide NumeralText, R.Number, NumeralEvent, Bounded;
    NumeralReads(f, s, c.pos, n);
  }

  lemma ScalarReads(f: R.Flags, s: Text, c: R.Cursor, t: Tree)
    requires TreeOk(f, t) && Holds(s, c.pos, TreeText(t)) && !t.Array? && !t.Object?
    requires t.Number? ==> Bounded(t.n, Peek(s, c.pos + |TreeText(t)|))
    ensures c.pos <= |s| && R.ParseValue(f, s, c) == Some(Moved(c, |TreeText(t)|, TreeEvents(f, t)))
  {
    hide NumeralText, R.NumberAt, R.StringAt, NumeralEvent, Bounded, StringText, PiecesBytes, R.Word, Holds;
    TreeBegins(f, t);
    HoldsFits(s, c.pos, TreeText(t));
    HoldsHead(s, c.pos, TreeText(t));
    match t
    case Null => WordReads(s, c, NULL_WORD, OnNull);
    case Bool(b) => WordReads(s, c, if b then TRUE_WORD else FALSE_WORD, OnBool(b));
    case Number(n) =>
      NumberReads(f, s, c, n);
      NumberFirst(f, n);
    case String(pieces) => StringReads(s, c, pieces, false);
  }

  lemma NumberFirst(f: R.Flags, n: Numeral)
    requires NumeralOk(n)
    ensures NumeralText(n) != [] && (NumeralText(n)[0] == MINUS || IsDigit(NumeralText(n)[0]))
  {
    NumeralParts(n);
    assert IntegerText(n) != [] && NumeralText(n)[0] == IntegerText(n)[0];
  }

  // ---------- arrays ----------

  lemma ElementClosed(f: R.Flags, s: Text, c: R.Cursor, n: nat, count: nat)
    requires c.pos + n <= |s| && R.SkipAt(f, s, c) == Some(Ahead(c, n)) && Peek(s, c.pos + n) == RIGHT_BRACKET
    ensures R.AfterElement(f, s, c, count) == Some(Moved(c, n + 1, [OnEndArray(count + 1)]))
  {
    hide R.ParseElements, R.SkipAt;
  }

  lemma ElementComma(f: R.Flags, s: Text, c: R.Cursor, n: nat, m: nat, count: nat)
    requires c.pos + n + 1 + m <= |s| && R.SkipAt(f, s, c) == Some(Ahead(c, n)) && Peek(s, c.pos + n) == COMMA
    requires R.SkipAt(f, s, Ahead(c, n + 1)) == Some(Ahead(c, n + 1 + m))
    ensures R.AfterElement(f, s, c, count) ==
            if f.trailingCommas && Peek(s, c.pos + n + 1 + m) == RIGHT_BRACKET then
              Some(Moved(c, n + 1 + m + 1, [OnEndArray(count + 1)]))
            else R.ParseElements(f, s, Ahead(c, n + 1 + m), count + 1)
  {
    hide R.ParseElements, R.SkipAt;
    assert R.Take(s, Ahead(c, n)) == Ahead(c, n + 1);
  }

  lemma CommaShape(more: bool, next: Gap)
    ensures more ==> CommaText(more, next) == [COMMA] + GapText(next)
    ensures !more ==> CommaText(more, next) == []
  {
  }

  lemma AheadTwice(c: R.Cursor, n: nat, m: nat)
    ensures Ahead(Ahead(c, n), m) == Ahead(c, n + m)
  {
  }

  /** Behind an item: the gap, and the closing bracket or a comma. */
  lemma ItemEnds(f: R.Flags, s: Text, c: R.Cursor, after: Gap, more: bool, next: Gap, count: nat, tail: Byte)
    requires Inner(f, after) && Inner(f, next)
    requires Holds(s, c.pos, GapText(after) + CommaText(more, next))
    requires Peek(s, c.pos + |GapText(after)| + |CommaText(more, next)|) == tail
    requires if more then Begins(tail) || (f.trailingCommas && tail == RIGHT_BRACKET) else tail == RIGHT_BRACKET
    ensures var n := |GapText(after)| + |CommaText(more, next)|;
            && c.pos + n <= |s|
            && R.AfterElement(f, s, c, count) ==
               if tail == RIGHT_BRACKET then Some(Moved(c, n + 1, [OnEndArray(count + 1)]))
               else R.ParseElements(f, s, Ahead(c, n), count + 1)
  {
    hide *;
    var g, m := GapText(after), CommaText(more, next);
    HoldsFits(s, c.pos, g + m);
    HoldsSplit(s, c.pos, g, m);
    CommaShape(more, next);
    TailSolid(f, tail);
    MovedParts(c, |g|, []);
    MovedParts(c, |g| + 1, []);
    if more {
      HoldsSplit(s, c.pos + |g|, [COMMA], GapText(next));
      HoldsHead(s, c.pos + |g|, [COMMA]);
      TailSolid(f, COMMA);
      GapRead(f, s, c, after);
      GapRead(f, s, Ahead(c, |g| + 1), next);
      AheadTwice(c, |g| + 1, |GapText(next)|);
      ElementComma(f, s, c, |g|, |GapText(next)|, count);
    } else {
      GapRead(f, s, c, after);
      ElementClosed(f, s, c, |g|, count);
    }
  }

  lemma TailSolid(f: R.Flags, tail: Byte)
    requires Begins(tail) || tail in {COMMA, COLON, RIGHT_BRACKET, RIGHT_BRACE}
    ensures Solid(f, tail) && tail != NUL
    ensures Begins(tail) ==> !Punctuation(tail) && tail !in {COMMA, COLON, RIGHT_BRACKET, RIGHT_BRACE}
  {
  }

  lemma ItemsUnfold(f: R.Flags, items: seq<Item>, trailing: bool)
    requires items != [] && ItemsOk(f, items)
    ensures var first := items[0];
            && TreeOk(f, first.value) && Inner(f, first.after) && Inner(f, first.next) && ItemsOk(f, items[1..])
            && ItemsText(items, trailing) + [RIGHT_BRACKET] ==
               TreeText(first.value) + ((GapText(first.after) + CommaText(|items| > 1 || trailing, first.next))
                                        + (ItemsText(items[1..], trailing) + [RIGHT_BRACKET]))
            && ItemsEvents(f, items) == TreeEvents(f, first.value) + ItemsEvents(f, items[1..])
  {
    hide TreeText, GapText, CommaText, TreeEvents, Inner, TreeOk;
    var t, g, m, r := TreeText(items[0].value), GapText(items[0].after),
                      CommaText(|items| > 1 || trailing, items[0].next), ItemsText(items[1..], trailing);
    Regrouped(t, g, m, r, [RIGHT_BRACKET]);
  }

  lemma Regrouped(t: Text, g: Text, m: Text, r: Text, b: Text)
    ensures t + g + (m + r) + b == t + ((g + m) + (r + b))
  {
    assert t + g + (m + r) + b == t + g + m + r + b;
    assert t + ((g + m) + (r + b)) == t + g + m + r + b;
  }

  /** What the text of the items behind the first begins with. */
  lemma ItemsBegin(f: R.Flags, items: seq<Item>, trailing: bool)
    requires ItemsOk(f, items)
    ensures var t := ItemsText(items, trailing) + [RIGHT_BRACKET];
            if items == [] then t == [RIGHT_BRACKET] else Begins(t[0])
  {
    hide Begins, GapText, CommaText, TreeText;
    if items != [] {
      TreeBegins(f, items[0].value);
      assert (ItemsText(items, trailing) + [RIGHT_BRACKET])[0] == TreeText(items[0].value)[0];
    }
  }

  lemma ElementsStep(f: R.Flags, s: Text, c: R.Cursor, count: nat, after: R.Cursor)
    requires c.pos <= |s| && R.ParseValue(f, s, c) == Some(after)
    ensures R.ParseElements(f, s, c, count) == R.AfterElement(f, s, after, count)
  {
    hide R.ParseValue, R.AfterElement;
  }

  /** A value in front of a gap and a comma or a bracket. */
  lemma BoundedBefore(f: R.Flags, s: Text, i: nat, after: Gap, more: bool, next: Gap, tail: Byte, t: Tree)
    requires Inner(f, after) && Holds(s, i, GapText(after) + CommaText(more, next))
    requires !more ==> Peek(s, i + |GapText(after)|) == tail && Punctuation(tail)
    ensures t.Number? ==> Bounded(t.n, Peek(s, i))
  {
    hide GapText, Bounded;
    HoldsSplit(s, i, GapText(after), CommaText(more, next));
    if more { HoldsHead(s, i + |GapText(after)|, CommaText(more, next)); }
    if t.Number? { GapBounds(f, s, i, after, t.n); }
  }

  lemma EventsJoin(c: R.Cursor, n: nat, a: seq<Event>, k: nat, m: nat, b: seq<Event>, last: seq<Event>)
    ensures Moved(Ahead(Moved(c, n, a), k), m, b + last) == Moved(c, n + k + m, a + b + last)
    ensures Moved(Moved(c, n, a), m, last) == Moved(c, n + m, a + [] + last)
  {
    assert c.out + a + (b + last) == c.out + (a + b + last);
    assert c.out + a + last == c.out + (a + [] + last);
  }

  /** Where the parts of an item stand, and what follows its value. */
  lemma ItemPlaces(f: R.Flags, s: Text, i: nat, first: Item, more: bool, rest: Text)
    requires TreeOk(f, first.value) && Inner(f, first.after) && rest != []
    requires !more ==> rest[0] == RIGHT_BRACKET
    requires Holds(s, i, TreeText(first.value) + ((GapText(first.after) + CommaText(more, first.next)) + rest))
    ensures var t, g := TreeText(first.value), GapText(first.after) + CommaText(more, first.next);
            && Holds(s, i, t) && Holds(s, i + |t|, g) && Peek(s, i + |t| + |g|) == rest[0]
            && Holds(s, i + |t| + |g|, rest)
            && (first.value.Number? ==> Bounded(first.value.n, Peek(s, i + |t|)))
  {
    hide *;
    var t, g := TreeText(first.value), GapText(first.after) + CommaText(more, first.next);
    HoldsSplit(s, i, t, g + rest);
    HoldsSplit(s, i + |t|, g, rest);
    HoldsHead(s, i + |t| + |g|, rest);
    CommaLength(more, first.next);
    BracketPunctuates();
    BoundedBefore(f, s, i + |t|, first.after, more, first.next, rest[0], first.value);
  }

  lemma {:induction false} ItemsRead(f: R.Flags, s: Text, c: R.Cursor, items: seq<Item>, trailing: bool, count: nat)
    requires items != [] && ItemsOk(f, items) && (trailing ==> f.trailingCommas)
    requires Holds(s, c.pos, ItemsText(items, trailing) + [RIGHT_BRACKET])
    ensures c.pos + |ItemsText(items, trailing)| + 1 <= |s|
    ensures R.ParseElements(f, s, c, count) ==
            Some(Moved(c, |ItemsText(items, trailing)| + 1, ItemsEvents(f, items) + [OnEndArray(count + |items|)]))
    decreases items
  {
    hide *;
    var first, more := items[0], |items| > 1 || trailing;
    ItemsUnfold(f, items, trailing);
    HoldsFits(s, c.pos, ItemsText(items, trailing) + [RIGHT_BRACKET]);
    var t, g, rest := TreeText(first.value), GapText(first.after) + CommaText(more, first.next),
                      ItemsText(items[1..], trailing) + [RIGHT_BRACKET];
    ItemsBegin(f, items[1..], trailing);
    ItemPlaces(f, s, c.pos, first, more, rest);
    TreeReads(f, s, c, first.value);
    var own := TreeEvents(f, first.value);
    var after := Moved(c, |t|, own);
    MovedParts(c, |t|, own);
    ElementsStep(f, s, c, count, after);
    ItemEnds(f, s, after, first.after, more, first.next, count, rest[0]);
    if |items| == 1 {
      EventsJoin(c, |t|, own, 0, |g| + 1, [], [OnEndArray(count + 1)]);
      NoItems(f, trailing);
      assert items[1..] == [];
    } else {
      TailSolid(f, rest[0]);
      MovedParts(after, |g|, []);
      ItemsRead(f, s, Ahead(after, |g|), items[1..], trailing, count + 1);
      EventsJoin(c, |t|, own, |g|, |rest|, ItemsEvents(f, items[1..]), [OnEndArray(count + |items|)]);
    }
  }

  lemma BracketPunctuates()
    ensures Punctuation(RIGHT_BRACKET) && Punctuation(RIGHT_BRACE)
    ensures RIGHT_BRACKET != NUL && RIGHT_BRACE != NUL && COMMA != NUL
  {
  }

  lemma CommaLength(more: bool, next: Gap)
    ensures !more ==> CommaText(more, next) == []
  {
  }

  lemma MovedParts(c: R.Cursor, n: nat, events: seq<Event>)
    ensures Moved(c, n, events).pos == c.pos + n && Ahead(c, n).pos == c.pos + n
  {
  }

  lemma NoItems(f: R.Flags, trailing: bool)
    ensures ItemsOk(f, []) && ItemsEvents(f, []) == [] && ItemsText([], trailing) == []
    ensures FieldsOk(f, []) && FieldsEvents(f, []) == [] && FieldsText([], trailing) == []
  {
  }

  // ---------- objects ----------

  lemma MemberClosed(f: R.Flags, s: Text, c: R.Cursor, n: nat, count: nat)
    requires c.pos + n <= |s| && R.SkipAt(f, s, c) == Some(Ahead(c, n)) && Peek(s, c.pos + n) == RIGHT_BRACE
    ensures R.AfterMember(f, s, c, count) == Some(Moved(c, n + 1, [OnEndObject(count + 1)]))
  {
    hide R.ParseMembers, R.SkipAt;
  }

  lemma MemberComma(f: R.Flags, s: Text, c: R.Cursor, n: nat, m: nat, count: nat)
    requires c.pos + n + 1 + m <= |s| && R.SkipAt(f, s, c) == Some(Ahead(c, n)) && Peek(s, c.pos + n) == COMMA
    requires R.SkipAt(f, s, Ahead(c, n + 1)) == Some(Ahead(c, n + 1 + m))
    ensures R.AfterMember(f, s, c, count) ==
            if f.trailingCommas && Peek(s, c.pos + n + 1 + m) == RIGHT_BRACE then
              Some(Moved(c, n + 1 + m + 1, [OnEndObject(count + 1)]))
            else R.ParseMembers(f, s, Ahead(c, n + 1 + m), count + 1)
  {
    hide R.ParseMembers, R.SkipAt;
    assert R.Take(s, Ahead(c, n)) == Ahead(c, n + 1);
  }

  lemma FieldEnds(f: R.Flags, s: Text, c: R.Cursor, after: Gap, more: bool, next: Gap, count: nat, tail: Byte)
    requires Inner(f, after) && Inner(f, next)
    requires Holds(s, c.pos, GapText(after) + CommaText(more, next))
    requires Peek(s, c.pos + |GapText(after)| + |CommaText(more, next)|) == tail
    requires if more then Begins(tail) || (f.trailingCommas && tail == RIGHT_BRACE) else tail == RIGHT_BRACE
    ensures var n := |GapText(after)| + |CommaText(more, next)|;
            && c.pos + n <= |s|
            && R.AfterMember(f, s, c, count) ==
               if tail == RIGHT_BRACE then Some(Moved(c, n + 1, [OnEndObject(count + 1)]))
               else R.ParseMembers(f, s, Ahead(c, n), count + 1)
  {
    hide *;
    var g, m := GapText(after), CommaText(more, next);
    HoldsFits(s, c.pos, g + m);
    HoldsSplit(s, c.pos, g, m);
    CommaShape(more, next);
    TailSolid(f, tail);
    MovedParts(c, |g|, []);
    MovedParts(c, |g| + 1, []);
    if more {
      HoldsSplit(s, c.pos + |g|, [COMMA], GapText(next));
      HoldsHead(s, c.pos + |g|, [COMMA]);
      TailSolid(f, COMMA);
      GapRead(f, s, c, after);
      GapRead(f, s, Ahead(c, |g| + 1), next);
      AheadTwice(c, |g| + 1, |GapText(next)|);
      MemberComma(f, s, c, |g|, |GapText(next)|, count);
    } else {
      GapRead(f, s, c, after);
      MemberClosed(f, s, c, |g|, count);
    }
  }

  /** A name and its colon, with the gaps around it, in front of a value. */
  lemma NameRead(f: R.Flags, s: Text, c: R.Cursor, field: Field)
    requires PiecesOk(field.name) && Inner(f, field.before) && Inner(f, field.behind)
    requires Holds(s, c.pos, NameText(field)) && Begins(Peek(s, c.pos + |NameText(field)|))
    ensures c.pos + |NameText(field)| <= |s| && Peek(s, c.pos) == QUOTE
    ensures var name := R.StringAt(s, c, true);
            && name.Some? && name.value.pos <= |s|
            && R.ParseColon(f, s, name.value) == Some(Moved(c, |NameText(field)|, [OnKey(PiecesBytes(field.name))]))
  {
    hide R.StringAt, R.SkipAt, GapText, StringText, Holds, Begins, Solid, Inner, PiecesOk;
    var a, b, d := StringText(field.name), GapText(field.before), GapText(field.behind);
    HoldsFits(s, c.pos, NameText(field));
    assert NameText(field) == a + (b + ([COLON] + d));
    HoldsSplit(s, c.pos, a, b + ([COLON] + d));
    HoldsSplit(s, c.pos + |a|, b, [COLON] + d);
    HoldsSplit(s, c.pos + |a| + |b|, [COLON], d);
    HoldsHead(s, c.pos + |a| + |b|, [COLON]);
    TailSolid(f, COLON);
    TailSolid(f, Peek(s, c.pos + |NameText(field)|));
    StringReads(s, c, field.name, true);
    var name := R.StringAt(s, c, true).value;
    GapRead(f, s, name, field.before);
    GapRead(f, s, R.Take(s, Ahead(name, |b|)), field.behind);
  }

  lemma FieldsUnfold(f: R.Flags, fields: seq<Field>, trailing: bool)
    requires fields != [] && FieldsOk(f, fields)
    ensures var first := fields[0];
            && PiecesOk(first.name) && Inner(f, first.before) && Inner(f, first.behind)
            && TreeOk(f, first.value) && Inner(f, first.after) && Inner(f, first.next) && FieldsOk(f, fields[1..])
            && FieldsText(fields, trailing) + [RIGHT_BRACE] ==
               NameText(first) + (TreeText(first.value)
                                  + ((GapText(first.after) + CommaText(|fields| > 1 || trailing, first.next))
                                     + (FieldsText(fields[1..], trailing) + [RIGHT_BRACE])))
            && FieldsEvents(f, fields) ==
               [OnKey(PiecesBytes(first.name))] + TreeEvents(f, first.value) + FieldsEvents(f, fields[1..])
  {
    hide TreeText, GapText, CommaText, TreeEvents, Inner, TreeOk, NameText, PiecesOk;
    var name, t, g := NameText(fields[0]), TreeText(fields[0].value), GapText(fields[0].after);
    var m, r := CommaText(|fields| > 1 || trailing, fields[0].next), FieldsText(fields[1..], trailing);
    Regrouped(name + t, g, m, r, [RIGHT_BRACE]);
    Joined(name, t, (g + m) + (r + [RIGHT_BRACE]));
  }

  lemma Joined(a: Text, b: Text, c: Text)
    ensures a + b + c == a + (b + c)
  {
  }

  lemma FieldsBegin(f: R.Flags, fields: seq<Field>, trailing: bool)
    ensures var t := FieldsText(fields, trailing) + [RIGHT_BRACE];
            if fields == [] then t == [RIGHT_BRACE] else t[0] == QUOTE && Begins(t[0])
  {
    hide GapText, CommaText, TreeText, PiecesText;
    if fields != [] {
      assert NameText(fields[0])[0] == QUOTE;
      assert (FieldsText(fields, trailing) + [RIGHT_BRACE])[0] == NameText(fields[0])[0];
    }
  }

  lemma MembersStep(f: R.Flags, s: Text, c: R.Cursor, count: nat, at: R.Cursor, after: R.Cursor)
    requires c.pos <= |s| && Peek(s, c.pos) == QUOTE
    requires var name := R.StringAt(s, c, true);
             name.Some? && name.value.pos <= |s| && R.ParseColon(f, s, name.value) == Some(at)
    requires at.pos <= |s| && R.ParseValue(f, s, at) == Some(after)
    ensures R.ParseMembers(f, s, c, count) == R.AfterMember(f, s, after, count)
  {
    hide R.ParseValue, R.AfterMember, R.StringAt, R.ParseColon;
  }

  /** Where the parts of a field stand, and what follows its value. */
  lemma FieldPlaces(f: R.Flags, s: Text, i: nat, first: Field, more: bool, rest: Text)
    requires TreeOk(f, first.value) && Inner(f, first.after) && rest != []
    requires !more ==> rest[0] == RIGHT_BRACE
    requires Holds(s, i, NameText(first)
                         + (TreeText(first.value) + ((GapText(first.after) + CommaText(more, first.next)) + rest)))
    ensures var name, t := NameText(first), TreeText(first.value);
            var g := GapText(first.after) + CommaText(more, first.next);
            && Holds(s, i, name) && Begins(Peek(s, i + |name|)) && Holds(s, i + |name|, t)
            && Holds(s, i + |name| + |t|, g) && Peek(s, i + |name| + |t| + |g|) == rest[0]
            && Holds(s, i + |name| + |t| + |g|, rest)
            && (first.value.Number? ==> Bounded(first.value.n, Peek(s, i + |name| + |t|)))
  {
    hide *;
    var name, t, g := NameText(first), TreeText(first.value), GapText(first.after) + CommaText(more, first.next);
    HoldsSplit(s, i, name, t + (g + rest));
    HoldsSplit(s, i + |name|, t, g + rest);
    HoldsSplit(s, i + |name| + |t|, g, rest);
    HoldsHead(s, i + |name| + |t| + |g|, rest);
    TreeBegins(f, first.value);
    HoldsHead(s, i + |name|, t);
    CommaLength(more, first.next);
    BracketPunctuates();
    BoundedBefore(f, s, i + |name| + |t|, first.after, more, first.next, rest[0], first.value);
  }

  /** One field, up to what follows it. */
  lemma FieldRead(f: R.Flags, s: Text, c: R.Cursor, first: Field, count: nat)
    requires PiecesOk(first.name) && Inner(f, first.before) && Inner(f, first.behind) && TreeOk(f, first.value)
    requires Holds(s, c.pos, NameText(first)) && Begins(Peek(s, c.pos + |NameText(first)|))
    requires Holds(s, c.pos + |NameText(first)|, TreeText(first.value))
    requires first.value.Number? ==>
               Bounded(first.value.n, Peek(s, c.pos + |NameText(first)| + |TreeText(first.value)|))
    ensures var n, events := |NameText(first)| + |TreeText(first.value)|,
                             [OnKey(PiecesBytes(first.name))] + TreeEvents(f, first.value);
            && c.pos + n <= |s|
            && R.ParseMembers(f, s, c, count) == R.AfterMember(f, s, Moved(c, n, events), count)
    decreases first, 1
  {
    hide *;
    NameRead(f, s, c, first);
    var key, own := [OnKey(PiecesBytes(first.name))], TreeEvents(f, first.value);
    var at := Moved(c, |NameText(first)|, key);
    MovedParts(c, |NameText(first)|, key);
    TreeReads(f, s, at, first.value);
    var after := Moved(at, |TreeText(first.value)|, own);
    MovedTwice(c, |NameText(first)|, key, |TreeText(first.value)|, own);
    MembersStep(f, s, c, count, at, after);
  }

  lemma {:induction false} FieldsRead(f: R.Flags, s: Text, c: R.Cursor, fields: seq<Field>, trailing: bool, count: nat)
    requires fields != [] && FieldsOk(f, fields) && (trailing ==> f.trailingCommas)
    requires Holds(s, c.pos, FieldsText(fields, trailing) + [RIGHT_BRACE])
    ensures c.pos + |FieldsText(fields, trailing)| + 1 <= |s|
    ensures R.ParseMembers(f, s, c, count) ==
            Some(Moved(c, |FieldsText(fields, trailing)| + 1,
                       FieldsEvents(f, fields) + [OnEndObject(count + |fields|)]))
    decreases fields
  {
    hide *;
    var first, more := fields[0], |fields| > 1 || trailing;
    FieldsUnfold(f, fields, trailing);
    HoldsFits(s, c.pos, FieldsText(fields, trailing) + [RIGHT_BRACE]);
    var n, g := |NameText(first)| + |TreeText(first.value)|, GapText(first.after) + CommaText(more, first.next);
    var rest := FieldsText(fields[1..], trailing) + [RIGHT_BRACE];
    FieldsBegin(f, fields[1..], trailing);
    FieldPlaces(f, s, c.pos, first, more, rest);
    FieldRead(f, s, c, first, count);
    var own := [OnKey(PiecesBytes(first.name))] + TreeEvents(f, first.value);
    var after := Moved(c, n, own);
    MovedParts(c, n, own);
    FieldEnds(f, s, after, first.after, more, first.next, count, rest[0]);
    if |fields| == 1 {
      EventsJoin(c, n, own, 0, |g| + 1, [], [OnEndObject(count + 1)]);
      NoItems(f, trailing);
      assert fields[1..] == [];
    } else {
      TailSolid(f, rest[0]);
      MovedParts(after, |g|, []);
      FieldsRead(f, s, Ahead(after, |g|), fields[1..], trailing, count + 1);
      EventsJoin(c, n, own, |g|, |rest|, FieldsEvents(f, fields[1..]), [OnEndObject(count + |fields|)]);
    }
  }

  // ---------- values ----------

  lemma ArrayParts(f: R.Flags, t: Tree)
    requires TreeOk(f, t) && t.Array?
    ensures Inner(f, t.lead) && ItemsOk(f, t.items) && (t.trailing ==> f.trailingCommas && t.items != [])
    ensures TreeText(t) == [LEFT_BRACKET] + (GapText(t.lead) + (ItemsText(t.items, t.trailing) + [RIGHT_BRACKET]))
    ensures TreeEvents(f, t) == [OnStartArray] + (ItemsEvents(f, t.items) + [OnEndArray(|t.items|)])
  {
    hide GapText, ItemsText;
  }

  lemma ObjectParts(f: R.Flags, t: Tree)
    requires TreeOk(f, t) && t.Object?
    ensures Inner(f, t.lead) && FieldsOk(f, t.fields) && (t.trailing ==> f.trailingCommas && t.fields != [])
    ensures TreeText(t) == [LEFT_BRACE] + (GapText(t.lead) + (FieldsText(t.fields, t.trailing) + [RIGHT_BRACE]))
    ensures TreeEvents(f, t) == [OnStartObject] + (FieldsEvents(f, t.fields) + [OnEndObject(|t.fields|)])
  {
    hide GapText, FieldsText;
  }

  /** Inside an array, behind its bracket and the gap after it. */
  lemma ArrayStep(f: R.Flags, s: Text, c: R.Cursor, n: nat)
    requires c.pos < |s| && s[c.pos] == LEFT_BRACKET && c.pos + 1 + n <= |s|
    requires var d := Moved(c, 1, [OnStartArray]); R.SkipAt(f, s, d) == Some(Ahead(d, n))
    ensures var d := Ahead(Moved(c, 1, [OnStartArray]), n);
            R.ParseValue(f, s, c) ==
            if Peek(s, d.pos) == RIGHT_BRACKET then Some(Moved(d, 1, [OnEndArray(0)]))
            else R.ParseElements(f, s, d, 0)
  {
    hide R.ParseElements, R.SkipAt;
  }

  lemma ObjectStep(f: R.Flags, s: Text, c: R.Cursor, n: nat)
    requires c.pos < |s| && s[c.pos] == LEFT_BRACE && c.pos + 1 + n <= |s|
    requires var d := Moved(c, 1, [OnStartObject]); R.SkipAt(f, s, d) == Some(Ahead(d, n))
    ensures var d := Ahead(Moved(c, 1, [OnStartObject]), n);
            R.ParseValue(f, s, c) ==
            if Peek(s, d.pos) == RIGHT_BRACE then Some(Moved(d, 1, [OnEndObject(0)]))
            else R.ParseMembers(f, s, d, 0)
  {
    hide R.ParseMembers, R.SkipAt;
  }

  lemma EventsInside(c: R.Cursor, n: nat, first: Event, m: nat, b: seq<Event>)
    ensures Moved(Ahead(Moved(c, 1, [first]), n), m, b) == Moved(c, 1 + n + m, [first] + b)
  {
    assert c.out + [first] + b == c.out + ([first] + b);
  }

  lemma ArrayReads(f: R.Flags, s: Text, c: R.Cursor, t: Tree)
    requires t.Array? && TreeOk(f, t) && Holds(s, c.pos, TreeText(t))
    ensures c.pos + |TreeText(t)| <= |s| && R.ParseValue(f, s, c) == Some(Moved(c, |TreeText(t)|, TreeEvents(f, t)))
    decreases t, 0
  {
    hide *;
    ArrayParts(f, t);
    var g, rest := GapText(t.lead), ItemsText(t.items, t.trailing) + [RIGHT_BRACKET];
    HoldsHead(s, c.pos, TreeText(t));
    assert TreeText(t)[1..] == g + rest;
    HoldsSplit(s, c.pos + 1, g, rest);
    HoldsFits(s, c.pos + 1 + |g|, rest);
    ItemsBegin(f, t.items, t.trailing);
    HoldsHead(s, c.pos + 1 + |g|, rest);
    TailSolid(f, rest[0]);
    var d := Moved(c, 1, [OnStartArray]);
    MovedParts(c, 1, [OnStartArray]);
    MovedParts(d, |g|, []);
    GapRead(f, s, d, t.lead);
    ArrayStep(f, s, c, |g|);
    if t.items == [] {
      NoItems(f, t.trailing);
      EventsInside(c, |g|, OnStartArray, 1, [OnEndArray(0)]);
      assert [] + [OnEndArray(0)] == [OnEndArray(0)];
    } else {
      ItemsRead(f, s, Ahead(d, |g|), t.items, t.trailing, 0);
      EventsInside(c, |g|, OnStartArray, |rest|, ItemsEvents(f, t.items) + [OnEndArray(|t.items|)]);
    }
  }

  lemma ObjectReads(f: R.Flags, s: Text, c: R.Cursor, t: Tree)
    requires t.Object? && TreeOk(f, t) && Holds(s, c.pos, TreeText(t))
    ensures c.pos + |TreeText(t)| <= |s| && R.ParseValue(f, s, c) == Some(Moved(c, |TreeText(t)|, TreeEvents(f, t)))
    decreases t, 0
  {
    hide *;
    ObjectParts(f, t);
    var g, rest := GapText(t.lead), FieldsText(t.fields, t.trailing) + [RIGHT_BRACE];
    HoldsHead(s, c.pos, TreeText(t));
    assert TreeText(t)[1..] == g + rest;
    HoldsSplit(s, c.pos + 1, g, rest);
    HoldsFits(s, c.pos + 1 + |g|, rest);
    FieldsBegin(f, t.fields, t.trailing);
    HoldsHead(s, c.pos + 1 + |g|, rest);
    TailSolid(f, rest[0]);
    var d := Moved(c, 1, [OnStartObject]);
    MovedParts(c, 1, [OnStartObject]);
    MovedParts(d, |g|, []);
    GapRead(f, s, d, t.lead);
    ObjectStep(f, s, c, |g|);
    if t.fields == [] {
      NoItems(f, t.trailing);
      EventsInside(c, |g|, OnStartObject, 1, [OnEndObject(0)]);
      assert [] + [OnEndObject(0)] == [OnEndObject(0)];
    } else {
      FieldsRead(f, s, Ahead(d, |g|), t.fields, t.trailing, 0);
      EventsInside(c, |g|, OnStartObject, |rest|, FieldsEvents(f, t.fields) + [OnEndObject(|t.fields|)]);
    }
  }

  /** A value is read as it is written, wherever it stands and nothing goes on with it. */
  lemma {:induction false} TreeReads(f: R.Flags, s: Text, c: R.Cursor, t: Tree)
    requires TreeOk(f, t) && Holds(s, c.pos, TreeText(t))
    requires t.Number? ==> Bounded(t.n, Peek(s, c.pos + |TreeText(t)|))
    ensures c.pos + |TreeText(t)| <= |s| && R.ParseValue(f, s, c) == Some(Moved(c, |TreeText(t)|, TreeEvents(f, t)))
    decreases t, 1
  {
    hide *;
    HoldsFits(s, c.pos, TreeText(t));
    match t
    case Array(_, _, _) => ArrayReads(f, s, c, t);
    case Object(_, _, _) => ObjectReads(f, s, c, t);
    case _ => ScalarReads(f, s, c, t);
  }

  // ---------- documents ----------

  lemma DocumentPlaces(f: R.Flags, s: Text, n: nat, d: Document)
    requires StandsAt(f, s, n, d)
    ensures var lead, t, trail := GapText(d.lead), TreeText(d.value), GapText(d.trail);
            && Holds(s, 0, lead) && Holds(s, |lead|, t) && Holds(s, |lead| + |t|, trail)
            && n == |lead| + |t| + |trail| <= |s|
            && (d.value.Number? ==> Bounded(d.value.n, Peek(s, |lead| + |t|)))
  {
    hide GapText, TreeText, Bounded;
    var lead, t, trail := GapText(d.lead), TreeText(d.value), GapText(d.trail);
    assert s[..n] == lead + (t + trail) && s[0..n] == s[..n];
    assert Holds(s, 0, lead + (t + trail));
    HoldsSplit(s, 0, lead, t + trail);
    HoldsSplit(s, |lead|, t, trail);
    if d.value.Number? {
      if f.stopWhenDone {
        EmptyGap(f, s, n);
      } else {
        GapBounds(f, s, |lead| + |t|, d.trail, d.value.n);
      }
    }
  }

  lemma DocumentStep(f: R.Flags, s: Text, a: nat, after: R.Cursor)
    requires R.SkipAt(f, s, R.Cursor(0, [])) == Some(R.Cursor(a, [])) && a <= |s| && Peek(s, a) != NUL
    requires R.ParseValue(f, s, R.Cursor(a, [])) == Some(after) && after.pos <= |s|
    ensures R.RecursiveParse(f, s) ==
            if f.stopWhenDone then Some(after)
            else
              match R.SkipAt(f, s, after)
              case None => None
              case Some(e) => if Peek(s, e.pos) == NUL then Some(e) else None
  {
    hide R.SkipAt, R.ParseValue;
  }

  lemma TrailRead(f: R.Flags, s: Text, c: R.Cursor, g: Gap)
    requires GapOk(f, g) && Holds(s, c.pos, GapText(g)) && Peek(s, c.pos + |GapText(g)|) == NUL
    ensures R.SkipAt(f, s, c) == Some(Ahead(c, |GapText(g)|))
  {
    hide R.Skip, GapText;
    HoldsFits(s, c.pos, GapText(g));
    GapSkips(f, s, c.pos, g);
  }

  /** What stands in the text up to n is accepted there, with the events of its value. */
  lemma DocumentReads(f: R.Flags, s: Text, n: nat, d: Document)
    requires StandsAt(f, s, n, d)
    ensures R.RecursiveParse(f, s) == Some(R.Cursor(n, TreeEvents(f, d.value)))
  {
    hide *;
    DocumentParts(f, s, n, d);
    DocumentPlaces(f, s, n, d);
    var lead, t := GapText(d.lead), TreeText(d.value);
    var c := R.Cursor(0, []);
    TreeBegins(f, d.value);
    HoldsHead(s, |lead|, t);
    TailSolid(f, t[0]);
    StartCursor(c, |lead|);
    GapRead(f, s, c, d.lead);
    TreeReads(f, s, Ahead(c, |lead|), d.value);
    StartMoved(c, |lead|, |t|, TreeEvents(f, d.value));
    var after := R.Cursor(|lead| + |t|, TreeEvents(f, d.value));
    DocumentStep(f, s, |lead|, after);
    if f.stopWhenDone {
      EmptyGap(f, s, n);
    } else {
      TrailRead(f, s, after, d.trail);
      StartAhead(after, |GapText(d.trail)|);
    }
  }

  lemma DocumentParts(f: R.Flags, s: Text, n: nat, d: Document)
    requires StandsAt(f, s, n, d)
    ensures Inner(f, d.lead) && TreeOk(f, d.value) && GapOk(f, d.trail)
    ensures if f.stopWhenDone then d.trail == [] else Peek(s, n) == NUL
  {
  }

  lemma StartAhead(c: R.Cursor, n: nat)
    ensures Ahead(c, n) == R.Cursor(c.pos + n, c.out)
  {
  }

  lemma StartCursor(c: R.Cursor, n: nat)
    requires c == R.Cursor(0, [])
    ensures c.pos == 0 && Ahead(c, n) == R.Cursor(n, [])
  {
  }

  lemma StartMoved(c: R.Cursor, n: nat, m: nat, events: seq<Event>)
    requires c == R.Cursor(0, [])
    ensures Moved(Ahead(c, n), m, events) == R.Cursor(n + m, events)
  {
    assert [] + events == events;
  }
}
