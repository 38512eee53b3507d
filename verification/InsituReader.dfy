/** A whole document parsed in situ: the reader of recursive descent over a buffer that its
    own strings overwrite. Strings are reported as places in the buffer. The events are those
    of the copying parse, and when parsing ends every string reported still stands. */
module InsituReader {
  import opened Bytes
  import opened Json
  import opened ReaderSpec
  import opened Insitu
  import ParserEquivalence
  import Utf8

  /** What the handler receives: strings as a start and a length in the buffer. */
  datatype Sent =
    | Plain(event: Event)
    | Slice(isKey: bool, head: nat, length: nat)

  /** The event that an entry denotes as long as the buffer holds these bytes. */
  function Shown(e: Sent, s: Text): Event {
    match e
    case Plain(event) => event
    case Slice(isKey, head, length) =>
      var bytes := if head + length <= |s| then s[head..head + length] else [];
      if isKey then OnKey(bytes) else OnString(bytes)
  }

  function AllShown(sent: seq<Sent>, s: Text): (r: seq<Event>)
    ensures |r| == |sent|
  {
    seq(|sent|, k requires 0 <= k < |sent| => Shown(sent[k], s))
  }

  /** The bytes of a string and its terminator lie before n. */
  predicate Fits(e: Sent, s: Text, n: nat)
    requires n <= |s|
  {
    e.Slice? ==> e.head + e.length < n && s[e.head + e.length] == NUL
  }

  predicate AllFit(sent: seq<Sent>, s: Text, n: nat)
    requires n <= |s|
  {
    forall k :: 0 <= k < |sent| ==> Fits(sent[k], s, n)
  }

  /** Two texts that differ at most before i. */
  predicate Agree(a: Text, b: Text, i: nat) {
    |a| == |b| && forall k :: i <= k < |a| ==> a[k] == b[k]
  }

  lemma AgreePeek(a: Text, b: Text, i: nat, k: nat)
    requires Agree(a, b, i) && i <= k
    ensures Peek(a, k) == Peek(b, k)
  {
  }

  // ---------- scanning looks forward only ----------

  lemma {:induction false} SameSpaces(a: Text, b: Text, i: nat)
    requires Agree(a, b, i) && i <= |a|
    ensures SkipSpaces(a, i) == SkipSpaces(b, i)
    decreases |a| - i
  {
    if IsSpace(Peek(a, i)) {
      SameSpaces(a, b, i + 1);
    }
  }

  lemma {:induction false} SameBlockEnd(a: Text, b: Text, i: nat)
    requires Agree(a, b, i) && i <= |a|
    ensures BlockEnd(a, i) == BlockEnd(b, i)
    decreases |a| - i
  {
    AgreePeek(a, b, i, i + 1);
    if Peek(a, i) != NUL && !(Peek(a, i) == STAR && Peek(a, i + 1) == SLASH) {
      SameBlockEnd(a, b, i + 1);
    }
  }

  lemma {:induction false} SameLineEnd(a: Text, b: Text, i: nat)
    requires Agree(a, b, i) && i <= |a|
    ensures LineEnd(a, i) == LineEnd(b, i)
    decreases |a| - i
  {
    if Peek(a, i) != NUL && Peek(a, i) != LINE_FEED {
      SameLineEnd(a, b, i + 1);
    }
  }

  lemma {:induction false} SameComments(a: Text, b: Text, i: nat)
    requires Agree(a, b, i) && i <= |a|
    ensures SkipComments(a, i) == SkipComments(b, i)
    decreases |a| - i
  {
    AgreePeek(a, b, i, i + 1);
    if Peek(a, i) == SLASH && Peek(a, i + 1) == STAR {
      SameBlockEnd(a, b, i + 2);
      if BlockEnd(a, i + 2).Some? {
        var j := BlockEnd(a, i + 2).value;
        SameSpaces(a, b, j);
        SameComments(a, b, SkipSpaces(a, j));
      }
    } else if Peek(a, i) == SLASH && Peek(a, i + 1) == SLASH {
      SameLineEnd(a, b, i + 2);
      var j := LineEnd(a, i + 2);
      SameSpaces(a, b, j);
      SameComments(a, b, SkipSpaces(a, j));
    }
  }

  lemma SameSkip(f: Flags, a: Text, b: Text, i: nat)
    requires Agree(a, b, i) && i <= |a|
    ensures Skip(f, a, i) == Skip(f, b, i)
  {
    SameSpaces(a, b, i);
    SameComments(a, b, SkipSpaces(a, i));
  }

  lemma {:induction false} SameDigitsEnd(a: Text, b: Text, i: nat)
    requires Agree(a, b, i) && i <= |a|
    ensures DigitsEnd(a, i) == DigitsEnd(b, i)
    decreases |a| - i
  {
    if IsDigit(Peek(a, i)) {
      SameDigitsEnd(a, b, i + 1);
    }
  }

  lemma {:induction false} SameDecimal(a: Text, b: Text, i: nat, j: nat)
    requires Agree(a, b, i) && i <= j <= |a| && forall k :: i <= k < j ==> IsDigit(a[k])
    ensures (forall k :: i <= k < j ==> IsDigit(b[k])) && Decimal(a, i, j) == Decimal(b, i, j)
    decreases j
  {
    if i < j {
      SameDecimal(a, b, i, j - 1);
      assert IsDigit(a[j - 1]);
    }
  }

  lemma SameIntegerEnd(a: Text, b: Text, i: nat)
    requires Agree(a, b, i) && i <= |a|
    ensures IntegerEnd(a, i) == IntegerEnd(b, i)
  {
    SameDigitsEnd(a, b, i);
  }

  lemma SameFractionEnd(a: Text, b: Text, i: nat)
    requires Agree(a, b, i) && i <= |a|
    ensures FractionEnd(a, i) == FractionEnd(b, i)
  {
    AgreePeek(a, b, i, i + 1);
    if i < |a| {
      SameDigitsEnd(a, b, i + 1);
    }
  }

  lemma SameExponentEnd(a: Text, b: Text, i: nat)
    requires Agree(a, b, i) && i <= |a|
    ensures ExponentEnd(a, i) == ExponentEnd(b, i)
  {
    AgreePeek(a, b, i, i + 1);
    AgreePeek(a, b, i, i + 2);
    if i + 1 <= |a| {
      SameDigitsEnd(a, b, i + 1);
    }
    if i + 2 <= |a| {
      SameDigitsEnd(a, b, i + 2);
    }
  }

  lemma SameNumber(f: Flags, a: Text, b: Text, i: nat)
    requires Agree(a, b, i) && i <= |a|
    ensures Number(f, a, i) == Number(f, b, i)
  {
    hide IntegerEnd, FractionEnd, ExponentEnd, IntegerEvent, DoubleEvent, Decimal;
    AgreePeek(a, b, i, i);
    var start := if Peek(a, i) == MINUS then i + 1 else i;
    SameIntegerEnd(a, b, start);
    if IntegerEnd(a, start).Some? {
      var j := IntegerEnd(a, start).value;
      IntegerEndIsDigits(a, start);
      SameDecimal(a, b, start, j);
      SameFractionEnd(a, b, j);
      if FractionEnd(a, j).Some? {
        var k := FractionEnd(a, j).value;
        SameExponentEnd(a, b, k);
        if ExponentEnd(a, k).Some? {
          assert a[i..ExponentEnd(a, k).value] == b[i..ExponentEnd(a, k).value];
        }
      }
    }
  }

  lemma SameHolds(a: Text, b: Text, i: nat, word: Text)
    requires Agree(a, b, i)
    ensures Holds(a, i, word) == Holds(b, i, word)
  {
    if i + |word| <= |a| {
      assert a[i..i + |word|] == b[i..i + |word|];
    }
  }

  /** A scalar that is no string, read from one text or the other after any events. */
  lemma SameScalar(f: Flags, a: Text, b: Text, c: Cursor)
    requires Agree(a, b, c.pos) && c.pos <= |a| && Peek(a, c.pos) != QUOTE
    ensures match Scalar(f, a, Cursor(c.pos, []))
            case None => Scalar(f, b, c) == None
            case Some(d) => |d.out| == 1 && Scalar(f, b, c) == Some(Cursor(d.pos, c.out + d.out))
  {
    hide Holds, Number;
    AgreePeek(a, b, c.pos, c.pos);
    SameHolds(a, b, c.pos, NULL_WORD);
    SameHolds(a, b, c.pos, TRUE_WORD);
    SameHolds(a, b, c.pos, FALSE_WORD);
    SameNumber(f, a, b, c.pos);
    var d := Scalar(f, a, Cursor(c.pos, []));
    if d.Some? {
      assert d.value.out == [d.value.out[0]];
    }
  }

  lemma {:induction false} SameString(a: Text, b: Text, i: nat, acc: Text)
    requires Agree(a, b, i) && i <= |a|
    ensures StringBody(a, i, acc) == StringBody(b, i, acc)
    decreases |a| - i
  {
    hide UnicodeEscape, Utf8.Encoding;
    AgreePeek(a, b, i, i);
    AgreePeek(a, b, i, i + 1);
    var c, e := Peek(a, i), Peek(a, i + 1);
    if c == BACKSLASH {
      if Unescape(e) != NUL {
        SameString(a, b, i + 2, acc + [Unescape(e)]);
      } else if e == LOWER_U {
        SameEscape(a, b, i + 2);
        if UnicodeEscape(a, i + 2).Some? {
          var u := UnicodeEscape(a, i + 2).value;
          SameString(a, b, u.pos, acc + Utf8.Encoding(u.codepoint));
        }
      }
    } else if c != QUOTE && c >= SPACE {
      SameString(a, b, i + 1, acc + [c]);
    }
  }

  /** The string that begins with the quote at i. */
  lemma SameStringAfter(a: Text, b: Text, i: nat)
    requires Agree(a, b, i) && i < |a|
    ensures |a| == |b| && StringBody(a, i + 1, []) == StringBody(b, i + 1, [])
  {
    SameString(a, b, i + 1, []);
  }

  // ---------- what was reported stays ----------

  lemma ShownKept(sent: seq<Sent>, a: Text, b: Text, n: nat, m: nat)
    requires |a| == |b| && n <= m <= |a| && a[..n] == b[..n] && AllFit(sent, a, n)
    ensures AllShown(sent, a) == AllShown(sent, b) && AllFit(sent, b, m)
  {
    assert forall k :: 0 <= k < n ==> a[k] == a[..n][k] == b[k];
    forall k | 0 <= k < |sent| ensures Shown(sent[k], a) == Shown(sent[k], b) && Fits(sent[k], b, m) {
      assert Fits(sent[k], a, n);
      if sent[k].Slice? {
        var i, j := sent[k].head, sent[k].head + sent[k].length;
        assert a[i..j] == b[i..j];
      }
    }
  }

  lemma ShownAppend(sent: seq<Sent>, e: Sent, s: Text)
    ensures AllShown(sent + [e], s) == AllShown(sent, s) + [Shown(e, s)]
  {
  }

  /** One more string, decoded between pos and next: what was reported before it still
      stands, and the text from next on is as it was. */
  lemma StringReported(sent: seq<Sent>, e: Sent, before: Text, after: Text, text: Text, pos: nat, next: nat)
    requires |after| == |before| && pos <= next <= |after|
    requires after[..pos] == before[..pos] && after[next..] == before[next..]
    requires AllFit(sent, before, pos) && Agree(before, text, pos) && Fits(e, after, next)
    ensures AllShown(sent + [e], after) == AllShown(sent, before) + [Shown(e, after)]
    ensures AllFit(sent + [e], after, next) && Agree(after, text, next)
  {
    ShownKept(sent, before, after, pos, next);
    ShownAppend(sent, e, after);
    AgreeKept(before, after, text, pos, next);
  }

  lemma AgreeKept(before: Text, after: Text, text: Text, pos: nat, next: nat)
    requires |after| == |before| && pos <= next <= |after|
             && after[next..] == before[next..] && Agree(before, text, pos)
    ensures Agree(after, text, next)
  {
    forall k | next <= k < |after| ensures after[k] == text[k] {
      assert after[k] == after[next..][k - next] == before[next..][k - next];
    }
  }

  /** What holds before and after decoding a string, as sequences. */
  lemma StringFrame(before: Text, after: Text, pos: nat, head: nat, next: nat)
    requires |after| == |before| && pos < head <= next <= |after| && after[..head] == before[..head]
    requires forall k :: next <= k < |after| ==> after[k] == before[k]
    ensures after[..pos] == before[..pos] && after[next..] == before[next..]
  {
    assert after[..pos] == after[..head][..pos];
    assert before[..pos] == before[..head][..pos];
  }

  class InsituReader {
    const buf: array<Byte>
    const flags: Flags
    var pos: nat             // the read cursor
    var sent: seq<Sent>      // what the handler has received
    var failed: bool
    var frames: seq<Frame>   // stack_, as the automaton uses it

    constructor (buf: array<Byte>, flags: Flags)
      ensures this.buf == buf && this.flags == flags && pos == 0 && sent == [] && !failed && frames == []
    {
      this.buf, this.flags := buf, flags;
      pos, sent, failed, frames := 0, [], false, [];
    }

    /** The events received, with the strings as the buffer shows them now. */
    ghost function At(): Cursor
      reads this, buf
    {
      Cursor(pos, AllShown(sent, buf[..]))
    }

    /** What is not yet read is as it was in the text; what was reported lies before it. */
    ghost predicate Standing(text: Text)
      reads this, buf
    {
      pos <= buf.Length && Agree(buf[..], text, pos) && AllFit(sent, buf[..], pos)
    }

    /** The reader stands where the copying parse of the text does, or has failed with it. */
    ghost predicate Reached(text: Text, r: Option<Cursor>)
      reads this, buf
    {
      match r
      case None => failed
      case Some(c) => !failed && Standing(text) && At() == c
    }

    function PeekByte(): Byte
      reads this, buf
    {
      if pos < buf.Length then buf[pos] else NUL
    }

    /** Reports an event that holds no string, and goes on from there. */
    method Report(next: nat, event: Event, ghost text: Text)
      requires Standing(text) && pos <= next <= buf.Length
      modifies this`pos, this`sent
      ensures Standing(text) && At() == Emit(old(At()), next, event)
    {
      ShownKept(sent, buf[..], buf[..], pos, next);
      ShownAppend(sent, Plain(event), buf[..]);
      pos, sent := next, sent + [Plain(event)];
    }

    method Advance(next: nat, ghost text: Text)
      requires Standing(text) && pos <= next <= buf.Length
      modifies this`pos
      ensures Standing(text) && At() == old(At()).(pos := next)
    {
      ShownKept(sent, buf[..], buf[..], pos, next);
      pos := next;
    }

    method Consume(wanted: Byte, ghost text: Text) returns (found: bool)
      requires Standing(text) && wanted != NUL
      modifies this`pos
      ensures found <==> Peek(text, old(pos)) == wanted
      ensures Standing(text) && At() == if found then ReaderSpec.Take(text, old(At())) else old(At())
    {
      found := PeekByte() == wanted;
      if found {
        Advance(pos + 1, text);
      }
    }

    method SkipWhitespace()
      requires pos <= buf.Length
      modifies this`pos
      ensures pos == SkipSpaces(buf[..], old(pos)) && pos <= buf.Length
    {
      while IsSpace(PeekByte())
        invariant pos <= buf.Length
        invariant SkipSpaces(buf[..], pos) == SkipSpaces(buf[..], old(pos))
        decreases buf.Length - pos
      {
        pos := pos + 1;
      }
    }

    method SkipBlockComment()
      requires pos <= buf.Length && !failed
      modifies this`pos, this`failed
      ensures pos <= buf.Length
      ensures BlockEnd(buf[..], old(pos)) == if failed then None else Some(pos)
    {
      while true
        invariant pos <= buf.Length && !failed
        invariant BlockEnd(buf[..], pos) == BlockEnd(buf[..], old(pos))
        decreases buf.Length - pos
      {
        var c := PeekByte();
        if c == NUL {
          failed := true;
          return;
        }
        pos := pos + 1;
        if c == STAR && PeekByte() == SLASH {
          pos := pos + 1;
          return;
        }
      }
    }

    method SkipLineComment()
      requires pos <= buf.Length
      modifies this`pos
      ensures pos == LineEnd(buf[..], old(pos)) && pos <= buf.Length
    {
      while PeekByte() != NUL
        invariant pos <= buf.Length
        invariant LineEnd(buf[..], pos) == LineEnd(buf[..], old(pos))
        decreases buf.Length - pos
      {
        var c := PeekByte();
        pos := pos + 1;
        if c == LINE_FEED {
          return;
        }
      }
    }

    /** White space and comments, in the buffer as it stands. */
    method SkipUnread()
      requires pos <= buf.Length && !failed
      modifies this`pos, this`failed
      ensures pos <= buf.Length
      ensures Skip(flags, buf[..], old(pos)) == if failed then None else Some(pos)
    {
      SkipWhitespace();
      if flags.comments {
        while PeekByte() == SLASH
          invariant pos <= buf.Length && !failed
          invariant SkipComments(buf[..], pos) == Skip(flags, buf[..], old(pos))
          decreases buf.Length - pos
        {
          pos := pos + 1;
          if PeekByte() == STAR {
            pos := pos + 1;
            SkipBlockComment();
            if failed {
              return;
            }
          } else if PeekByte() == SLASH {
            pos := pos + 1;
            SkipLineComment();
          } else {
            failed := true;
            return;
          }
          SkipWhitespace();
        }
      }
    }

    method SkipWhitespaceAndComments(ghost text: Text)
      requires Standing(text) && !failed
      modifies this`pos, this`failed
      ensures Reached(text, SkipAt(flags, text, old(At())))
    {
      hide Skip;
      ghost var start := pos;
      SameSkip(flags, buf[..], text, start);
      SkipUnread();
      if !failed {
        ShownKept(sent, buf[..], buf[..], start, pos);
      }
    }

    /** A literal word or a number. */
    method ParseScalar(ghost text: Text)
      requires Standing(text) && !failed && PeekByte() != QUOTE
      modifies this`pos, this`failed, this`sent
      ensures Reached(text, Scalar(flags, text, old(At())))
    {
      hide Scalar;
      SameScalar(flags, buf[..], text, At());
      var next := Scalar(flags, buf[..], Cursor(pos, []));
      if next.Some? {
        Report(next.value.pos, next.value.out[0], text);
      } else {
        failed := true;
      }
    }

    /** A string, decoded where it stands. What was reported before lies in front of it. */
    method ParseString(ghost text: Text, isKey: bool)
      requires Standing(text) && !failed && pos < buf.Length && buf[pos] == QUOTE
      modifies this`pos, this`failed, this`sent, buf
      ensures Reached(text, StringAt(text, old(At()), isKey))
    {
      hide StringBody, AllShown, AllFit, Agree;
      ghost var before := buf[..];
      SameStringAfter(before, text, pos);
      var stream := new InsituStream(buf, pos);
      var head, length := stream.ParseString();
      if stream.failed {
        failed := true;
        return;
      }
      ghost var after := buf[..];
      assert after[..head] == before[..head] && after[head..head + length] == buf[head..head + length];
      StringFrame(before, after, pos, head, stream.src);
      StringReported(sent, Slice(isKey, head, length), before, after, text, pos, stream.src);
      pos, sent := stream.src, sent + [Slice(isKey, head, length)];
    }

    method ParseValue(ghost text: Text)
      requires Standing(text) && !failed
      modifies this`pos, this`failed, this`sent, buf
      ensures Reached(text, ReaderSpec.ParseValue(flags, text, old(At())))
      decreases buf.Length - pos, 1
    {
      hide StringAt, NumberAt, Word;
      var c := PeekByte();
      if c == QUOTE {
        ParseString(text, false);
      } else if c == LEFT_BRACE {
        ParseObject(text);
      } else if c == LEFT_BRACKET {
        ParseArray(text);
      } else {
        ParseScalar(text);
      }
    }

    method ParseObject(ghost text: Text)
      requires Standing(text) && !failed && pos < buf.Length && buf[pos] == LEFT_BRACE
      modifies this`pos, this`failed, this`sent, buf
      ensures Reached(text, ReaderSpec.ParseObject(flags, text, old(At())))
      decreases buf.Length - pos, 0
    {
      hide SkipAt;
      Report(pos + 1, OnStartObject, text);
      SkipWhitespaceAndComments(text);
      if failed {
        return;
      }
      if PeekByte() == RIGHT_BRACE {
        Report(pos + 1, OnEndObject(0), text);
        return;
      }
      var memberCount := 0;
      while true
        invariant old(pos) < pos && !failed && Standing(text)
        invariant ParseMembers(flags, text, At(), memberCount) == ReaderSpec.ParseObject(flags, text, old(At()))
        decreases buf.Length - pos
      {
        var closed := ParseMember(text, memberCount);
        if failed || closed {
          return;
        }
        memberCount := memberCount + 1;
      }
    }

    /** A member, and the comma before the next one or the closing brace. */
    method ParseMember(ghost text: Text, memberCount: nat) returns (closed: bool)
      requires Standing(text) && !failed
      modifies this`pos, this`failed, this`sent, buf
      ensures closed || failed ==> Reached(text, ParseMembers(flags, text, old(At()), memberCount))
      ensures !closed && !failed ==>
                old(pos) < pos && Standing(text) &&
                ParseMembers(flags, text, old(At()), memberCount) == ParseMembers(flags, text, At(), memberCount + 1)
      decreases buf.Length - pos, 4
    {
      hide StringAt, ParseColon, AfterMember;
      closed := false;
      if PeekByte() != QUOTE {
        failed := true;
        return;
      }
      ParseString(text, true);
      if failed {
        return;
      }
      ParseMemberValue(text);
      if failed {
        return;
      }
      closed := ParseMemberEnd(text, memberCount);
    }

    /** The colon after a member name, and the member's value. */
    method ParseMemberValue(ghost text: Text)
      requires Standing(text) && !failed
      modifies this`pos, this`failed, this`sent, buf
      ensures Reached(text, match ParseColon(flags, text, old(At()))
                            case None => None
                            case Some(at) => ReaderSpec.ParseValue(flags, text, at))
      ensures !failed ==> old(pos) < pos
      decreases buf.Length - pos, 2
    {
      hide SkipAt, ReaderSpec.ParseValue;
      SkipWhitespaceAndComments(text);
      if failed {
        return;
      }
      var colon := Consume(COLON, text);
      if !colon {
        failed := true;
        return;
      }
      SkipWhitespaceAndComments(text);
      if failed {
        return;
      }
      ParseValue(text);
    }

    /** After a member: the comma before the next one, or the closing brace. */
    method ParseMemberEnd(ghost text: Text, memberCount: nat) returns (closed: bool)
      requires Standing(text) && !failed
      modifies this`pos, this`failed, this`sent
      ensures closed || failed ==> Reached(text, AfterMember(flags, text, old(At()), memberCount))
      ensures !closed && !failed ==>
                old(pos) < pos && Standing(text) &&
                AfterMember(flags, text, old(At()), memberCount) == ParseMembers(flags, text, At(), memberCount + 1)
      decreases buf.Length - pos, 2
    {
      hide SkipAt, ParseMembers;
      closed := false;
      SkipWhitespaceAndComments(text);
      if failed {
        return;
      }
      var comma := Consume(COMMA, text);
      if !comma {
        closed := PeekByte() == RIGHT_BRACE;
        if closed {
          Report(pos + 1, OnEndObject(memberCount + 1), text);
        } else {
          failed := true;
        }
        return;
      }
      SkipWhitespaceAndComments(text);
      if !failed && flags.trailingCommas && PeekByte() == RIGHT_BRACE {
        Report(pos + 1, OnEndObject(memberCount + 1), text);
        closed := true;
      }
    }

    method ParseArray(ghost text: Text)
      requires Standing(text) && !failed && pos < buf.Length && buf[pos] == LEFT_BRACKET
      modifies this`pos, this`failed, this`sent, buf
      ensures Reached(text, ReaderSpec.ParseArray(flags, text, old(At())))
      decreases buf.Length - pos, 0
    {
      hide SkipAt, ReaderSpec.ParseValue, AfterElement;
      Report(pos + 1, OnStartArray, text);
      SkipWhitespaceAndComments(text);
      if failed {
        return;
      }
      if PeekByte() == RIGHT_BRACKET {
        Report(pos + 1, OnEndArray(0), text);
        return;
      }
      var elementCount := 0;
      while true
        invariant old(pos) < pos && !failed && Standing(text)
        invariant ParseElements(flags, text, At(), elementCount) == ReaderSpec.ParseArray(flags, text, old(At()))
        decreases buf.Length - pos
      {
        ParseValue(text);
        if failed {
          return;
        }
        var closed := ParseElementEnd(text, elementCount);
        if failed || closed {
          return;
        }
        elementCount := elementCount + 1;
      }
    }

    /** After an element: the comma before the next one, or the closing bracket. */
    method ParseElementEnd(ghost text: Text, elementCount: nat) returns (closed: bool)
      requires Standing(text) && !failed
      modifies this`pos, this`failed, this`sent
      ensures closed || failed ==> Reached(text, AfterElement(flags, text, old(At()), elementCount))
      ensures !closed && !failed ==>
                old(pos) < pos && Standing(text) &&
                AfterElement(flags, text, old(At()), elementCount) == ParseElements(flags, text, At(), elementCount + 1)
      decreases buf.Length - pos, 2
    {
      hide SkipAt, ParseElements;
      closed := false;
      SkipWhitespaceAndComments(text);
      if failed {
        return;
      }
      var comma := Consume(COMMA, text);
      if !comma {
        closed := PeekByte() == RIGHT_BRACKET;
        if closed {
          Report(pos + 1, OnEndArray(elementCount + 1), text);
        } else {
          failed := true;
        }
        return;
      }
      SkipWhitespaceAndComments(text);
      if !failed && flags.trailingCommas && PeekByte() == RIGHT_BRACKET {
        Report(pos + 1, OnEndArray(elementCount + 1), text);
        closed := true;
      }
    }

    /** The whole buffer. The reader accepts what the copying parse of the same bytes accepts,
        and the events are the same when every string is read from the finished buffer, where
        each stands with its terminator. What was not read is unchanged. */
    method Parse()
      requires pos == 0 && sent == [] && !failed
      modifies this`pos, this`failed, this`sent, buf
      ensures match RecursiveParse(flags, old(buf[..]))
              case None => failed
              case Some(c) => !failed && pos == c.pos && AllShown(sent, buf[..]) == c.out
                              && AllFit(sent, buf[..], pos) && buf[pos..] == old(buf[..])[pos..]
    {
      hide SkipAt, ReaderSpec.ParseValue;
      ghost var text := buf[..];
      assert At() == Cursor(0, []);
      SkipWhitespaceAndComments(text);
      if failed {
        return;
      }
      if PeekByte() == NUL {
        failed := true;
        return;
      }
      ParseValue(text);
      if !failed && !flags.stopWhenDone {
        SkipWhitespaceAndComments(text);
        failed := failed || PeekByte() != NUL;
      }
    }

    // ---------- the automaton in place ----------

    /** Saves the state to return to and starts counting. */
    method PushFrame(src: State)
      modifies this`frames
      ensures frames == old(frames) + [Frame(AfterValue(src), 0)]
    {
      var n := src;
      if src == ArrayInitial || src == ElementDelimiter {
        n := Element;
      } else if src == KeyValueDelimiter {
        n := MemberValue;
      }
      frames := frames + [Frame(n, 0)];
    }

    /** Steps over a delimiter, and counts it in the innermost container. */
    method CountTop(ghost text: Text, ghost dst: State)
      requires Standing(text) && frames != [] && pos < buf.Length
      modifies this`pos, this`frames
      ensures Standing(text)
      ensures forall src :: Counted(Config(src, old(frames), old(At())), dst) == Some(Config(dst, frames, At()))
    {
      Advance(pos + 1, text);
      var top := frames[|frames| - 1];
      frames := frames[|frames| - 1 := top.(count := top.count + 1)];
    }

    /** Leaves the innermost container and restores the state saved under it. */
    method PopFrame(src: State, isObject: bool, ghost text: Text) returns (next: State)
      requires Standing(text) && frames != [] && pos < buf.Length
      modifies this`frames, this`pos, this`sent
      ensures Standing(text)
      ensures Popped(Config(src, old(frames), old(At())), isObject) == Some(Config(next, frames, At()))
    {
      var top := frames[|frames| - 1];
      frames := frames[..|frames| - 1];
      var c := top.count;
      if src == (if isObject then MemberValue else Element) {
        c := c + 1;
      }
      next := top.state;
      if next == Start {
        next := Finish;
      }
      Report(pos + 1, if isObject then OnEndObject(c) else OnEndArray(c), text);
    }

    method Transit(src: State, dst: State, ghost text: Text) returns (next: State)
      requires Standing(text) && pos < buf.Length && !failed
      requires WellStacked(Config(src, frames, At()))
      requires dst == Predict(src, Tokenize(buf[pos]))
      modifies this, buf
      ensures match ReaderSpec.Transit(flags, text, Config(src, old(frames), old(At())), dst)
              case None => next == Error
              case Some(m) => !failed && Standing(text) && m == Config(next, frames, At()) && WellStacked(m)
    {
      hide ReaderSpec.ParseValue, StringAt;
      TransitKeepsStack(flags, text, Config(src, frames, At()));
      match dst
      case ObjectInitial =>
        PushFrame(src);
        Report(pos + 1, OnStartObject, text);
        next := dst;
      case ArrayInitial =>
        PushFrame(src);
        Report(pos + 1, OnStartArray, text);
        next := dst;
      case MemberKey =>
        ParseString(text, true);
        next := if failed then Error else dst;
      case KeyValueDelimiter =>
        Advance(pos + 1, text);
        next := dst;
      case MemberValue =>
        ParseValue(text);
        next := if failed then Error else dst;
      case Element =>
        ParseValue(text);
        next := if failed then Error else dst;
      case MemberDelimiter =>
        CountTop(text, dst);
        next := dst;
      case ElementDelimiter =>
        CountTop(text, dst);
        next := dst;
      case ObjectFinish =>
        if !flags.trailingCommas && src == MemberDelimiter {
          failed := true;
          next := Error;
        } else {
          next := PopFrame(src, true, text);
        }
      case ArrayFinish =>
        if !flags.trailingCommas && src == ElementDelimiter {
          failed := true;
          next := Error;
        } else {
          next := PopFrame(src, false, text);
        }
      case SingleValue =>
        ParseValue(text);
        next := if failed then Error else Finish;
      case _ =>
        next := Error;
    }

    /** The whole buffer, parsed in place by the automaton: the same result as by recursive
        descent on a copy, and the same strings left standing. */
    method IterativeParse()
      requires pos == 0 && sent == [] && !failed && frames == []
      modifies this, buf
      ensures match RecursiveParse(flags, old(buf[..]))
              case None => failed
              case Some(c) => !failed && pos == c.pos && AllShown(sent, buf[..]) == c.out
                              && AllFit(sent, buf[..], pos) && buf[pos..] == old(buf[..])[pos..]
    {
      hide SkipAt, ReaderSpec.Transit, RecursiveParse;
      ghost var text := buf[..];
      assert At() == Cursor(0, []);
      ParserEquivalence.ParsersAgree(flags, text);
      var state := Start;
      SkipWhitespaceAndComments(text);
      if failed {
        return;
      }
      while PeekByte() != NUL
        invariant Standing(text) && !failed
        invariant WellStacked(Config(state, frames, At()))
        invariant Run(flags, text, Config(state, frames, At())) == ReaderSpec.IterativeParse(flags, text)
        decreases buf.Length - pos
      {
        var n := Predict(state, Tokenize(PeekByte()));
        ghost var before := Config(state, frames, At());
        var d := Transit(state, n, text);
        if d == Error {
          failed := true;
          return;
        }
        assert Run(flags, text, before) == Continue(flags, text, Config(d, frames, At()));
        state := d;
        if flags.stopWhenDone && state == Finish {
          return;
        }
        SkipWhitespaceAndComments(text);
        if failed {
          return;
        }
      }
      failed := state != Finish;
    }
  }
}
