/** GenericReader: recursive descent, and the automaton with its explicit stack, as the
    imperative code they are, each method proved against ReaderSpec. */
module Reader {
  import opened Bytes
  import opened Json
  import opened ReaderSpec
  import Utf8

  class Reader {
    const text: Text
    const flags: Flags
    var pos: nat             // the stream cursor
    var events: seq<Event>   // what the handler has received
    var failed: bool         // parseResult_ holds an error
    var frames: seq<Frame>   // stack_, as the automaton uses it

    constructor (text: Text, flags: Flags)
      ensures this.text == text && this.flags == flags
      ensures pos == 0 && events == [] && !failed && frames == []
    {
      this.text, this.flags := text, flags;
      pos, events, failed, frames := 0, [], false, [];
    }

    function At(): Cursor reads this {
      Cursor(pos, events)
    }

    /** The reader stands where the specification says it does, or has failed with it. */
    ghost predicate Reached(r: Option<Cursor>)
      reads this
    {
      pos <= |text| &&
      match r
      case None => failed
      case Some(c) => !failed && At() == c
    }

    method Consume(wanted: Byte) returns (found: bool)
      requires pos <= |text| && wanted != NUL
      modifies this`pos
      ensures found <==> Peek(text, old(pos)) == wanted
      ensures pos == if found then old(pos) + 1 else old(pos)
      ensures pos <= |text|
    {
      found := Peek(text, pos) == wanted;
      if found {
        pos := pos + 1;
      }
    }

    method SkipWhitespace()
      requires pos <= |text|
      modifies this`pos
      ensures pos == SkipSpaces(text, old(pos)) && pos <= |text|
    {
      while IsSpace(Peek(text, pos))
        invariant pos <= |text|
        invariant SkipSpaces(text, pos) == SkipSpaces(text, old(pos))
        decreases |text| - pos
      {
        pos := pos + 1;
      }
    }

    method SkipBlockComment()
      requires pos <= |text| && !failed
      modifies this`pos, this`failed
      ensures pos <= |text|
      ensures BlockEnd(text, old(pos)) == if failed then None else Some(pos)
    {
      while true
        invariant pos <= |text| && !failed
        invariant BlockEnd(text, pos) == BlockEnd(text, old(pos))
        decreases |text| - pos
      {
        if Peek(text, pos) == NUL {
          failed := true;
          return;
        }
        var star := Consume(STAR);
        if star {
          var slash := Consume(SLASH);
          if slash {
            return;
          }
        } else {
          pos := pos + 1;
        }
      }
    }

    method SkipLineComment()
      requires pos <= |text|
      modifies this`pos
      ensures pos == LineEnd(text, old(pos)) && pos <= |text|
    {
      while Peek(text, pos) != NUL
        invariant pos <= |text|
        invariant LineEnd(text, pos) == LineEnd(text, old(pos))
        decreases |text| - pos
      {
        var c := Peek(text, pos);
        pos := pos + 1;
        if c == LINE_FEED {
          return;
        }
      }
    }

    method SkipWhitespaceAndComments()
      requires pos <= |text| && !failed
      modifies this`pos, this`failed
      ensures Reached(SkipAt(flags, text, old(At())))
    {
      SkipWhitespace();
      if flags.comments {
        var slash := Peek(text, pos) == SLASH;
        while slash
          invariant pos <= |text| && !failed
          invariant slash <==> Peek(text, pos) == SLASH
          invariant SkipComments(text, pos) == Skip(flags, text, old(pos))
          decreases |text| - pos
        {
          pos := pos + 1;
          var star := Consume(STAR);
          if star {
            SkipBlockComment();
            if failed {
              return;
            }
          } else {
            var line := Consume(SLASH);
            if line {
              SkipLineComment();
            } else {
              failed := true;
              return;
            }
          }
          SkipWhitespace();
          slash := Peek(text, pos) == SLASH;
        }
      }
    }

    method ParseHex4() returns (codepoint: nat)
      requires pos <= |text| && !failed
      modifies this`pos, this`failed
      ensures pos <= |text|
      ensures Hex4(text, old(pos)) == if failed then None else Some(codepoint)
      ensures !failed ==> pos == old(pos) + 4
    {
      codepoint := 0;
      for i := 0 to 4
        invariant pos == old(pos) + i <= |text| && !failed
        invariant HexValue(text, old(pos), i) == Some(codepoint)
      {
        var c := Peek(text, pos);
        codepoint := codepoint * 16 + c;
        if IsDigit(c) {
          codepoint := codepoint - DIGIT_0;
        } else if 0x41 <= c <= 0x46 {
          codepoint := codepoint - (UPPER_A - 10);
        } else if 0x61 <= c <= 0x66 {
          codepoint := codepoint - (LOWER_A - 10);
        } else {
          HexStops(text, old(pos), i);
          failed := true;
          return;
        }
        pos := pos + 1;
      }
    }

    /** The code point after `\u`: one unit, or a high surrogate with its low surrogate. */
    method ParseUnicodeEscape() returns (codepoint: nat)
      requires pos <= |text| && !failed
      modifies this`pos, this`failed
      ensures pos <= |text|
      ensures UnicodeEscape(text, old(pos)) == if failed then None else Some(Utf8.Coded(pos, codepoint))
    {
      codepoint := ParseHex4();
      if failed {
        return;
      }
      if 0xD800 <= codepoint <= 0xDBFF {
        var escaped := Consume(BACKSLASH);
        if escaped {
          escaped := Consume(LOWER_U);
        }
        if !escaped {
          failed := true;
          return;
        }
        var low := ParseHex4();
        if failed {
          return;
        }
        if low < 0xDC00 || low > 0xDFFF {
          failed := true;
          return;
        }
        codepoint := (codepoint - 0xD800) * 0x400 + (low - 0xDC00) + 0x10000;
      }
    }

    /** Decodes the string body at the cursor into `bytes`, the temporary stack buffer. */
    method ParseStringToStream() returns (bytes: Text)
      requires pos <= |text| && !failed
      modifies this`pos, this`failed
      ensures pos <= |text|
      ensures StringBody(text, old(pos), []) == if failed then None else Some(Scanned(pos, bytes))
    {
      hide UnicodeEscape, Utf8.Encoding;
      bytes := [];
      while true
        invariant pos <= |text| && !failed
        invariant StringBody(text, pos, bytes) == StringBody(text, old(pos), [])
        decreases |text| - pos
      {
        var c := Peek(text, pos);
        if c == BACKSLASH {
          pos := pos + 1;
          var e := Peek(text, pos);
          if Unescape(e) != NUL {
            pos := pos + 1;
            bytes := bytes + [Unescape(e)];
          } else if e == LOWER_U {
            pos := pos + 1;
            var codepoint := ParseUnicodeEscape();
            if failed {
              return;
            }
            bytes := Utf8.Encode(bytes, codepoint);
          } else {
            failed := true;
            return;
          }
        } else if c == QUOTE {
          pos := pos + 1;
          return;
        } else if c < SPACE {
          failed := true;
          return;
        } else {
          pos := pos + 1;
          bytes := bytes + [c];
        }
      }
    }

    method ParseString(isKey: bool)
      requires pos < |text| && !failed && Peek(text, pos) == QUOTE
      modifies this`pos, this`failed, this`events
      ensures Reached(StringAt(text, old(At()), isKey))
    {
      pos := pos + 1;
      var bytes := ParseStringToStream();
      if failed {
        return;
      }
      events := events + [if isKey then OnKey(bytes) else OnString(bytes)];
    }

    /** Consumes the digits of an integer, in 32 bits first and in 64 bits when 32 do not
        suffice; `useDouble` when 64 bits do not suffice either. Neither accumulator wraps. */
    method ParseInteger(minus: bool) returns (i: nat, i64: nat, use64bit: bool, useDouble: bool)
      requires pos <= |text| && IntegerEnd(text, pos).Some?
      requires forall k :: pos <= k < IntegerEnd(text, pos).value ==> IsDigit(text[k])
      modifies this`pos
      ensures Some(pos) == IntegerEnd(text, old(pos))
      ensures i <= 0xFFFF_FFFF && i64 <= 0xFFFF_FFFF_FFFF_FFFF
      ensures var m := Decimal(text, old(pos), pos);
              IntegerEvent(minus, m) ==
              if useDouble then None
              else if use64bit then Some(if minus then OnInt64(-(i64 as int)) else OnUint64(i64))
              else Some(if minus then OnInt(-(i as int)) else OnUint(i))
    {
      ghost var start, end := pos, IntegerEnd(text, pos).value;
      i, i64, use64bit, useDouble := 0, 0, false, false;
      if Peek(text, pos) == DIGIT_0 {
        pos := pos + 1;
        return;
      }
      i, use64bit := ParseInteger32(minus);
      if use64bit {
        DecimalGrows(text, start, pos + 1, end);
        i64, useDouble := ParseInteger64(minus, start, i);
      }
    }

    method ParseInteger32(minus: bool) returns (i: nat, use64bit: bool)
      requires pos < |text| && IsDigit(Peek(text, pos))
      requires var end := DigitsEnd(text, pos); forall k :: pos <= k < end ==> IsDigit(text[k])
      modifies this`pos
      ensures old(pos) < pos <= DigitsEnd(text, old(pos))
      ensures DigitsEnd(text, pos) == DigitsEnd(text, old(pos))
      ensures i == Decimal(text, old(pos), pos) <= if minus then 0x8000_0000 else 0xFFFF_FFFF
      ensures use64bit <==> IsDigit(Peek(text, pos))
      ensures use64bit ==> i * 10 + (Peek(text, pos) - DIGIT_0) > if minus then 0x8000_0000 else 0xFFFF_FFFF
    {
      ghost var start, end := pos, DigitsEnd(text, pos);
      var guard, last := if minus then 214748364 else 429496729, if minus then 0x38 else 0x35;
      i, use64bit := Peek(text, pos) - DIGIT_0, false;
      pos := pos + 1;
      while IsDigit(Peek(text, pos))
        invariant start < pos <= end && DigitsEnd(text, pos) == end
        invariant i == Decimal(text, start, pos) <= guard * 10 + (last - DIGIT_0)
        decreases end - pos
      {
        if i >= guard && (i != guard || Peek(text, pos) > last) {
          use64bit := true;
          return;
        }
        i := i * 10 + (Peek(text, pos) - DIGIT_0);
        pos := pos + 1;
      }
    }

    method ParseInteger64(minus: bool, ghost start: nat, first: nat) returns (i64: nat, useDouble: bool)
      requires start < pos < |text| && IsDigit(Peek(text, pos))
      requires var end := DigitsEnd(text, pos); forall k :: start <= k < end ==> IsDigit(text[k])
      requires first == Decimal(text, start, pos) <= 0xFFFF_FFFF
      modifies this`pos
      ensures pos == DigitsEnd(text, old(pos))
      ensures i64 <= 0xFFFF_FFFF_FFFF_FFFF
      ensures useDouble <==> Decimal(text, start, pos) > if minus then 0x8000_0000_0000_0000 else 0xFFFF_FFFF_FFFF_FFFF
      ensures !useDouble ==> i64 == Decimal(text, start, pos)
    {
      ghost var end := DigitsEnd(text, pos);
      i64, useDouble := first, false;
      var guard := if minus then 0x0CCC_CCCC_CCCC_CCCC else 0x1999_9999_9999_9999;
      var last := if minus then 0x38 else 0x35;
      while IsDigit(Peek(text, pos))
        invariant start < pos <= end && DigitsEnd(text, pos) == end
        invariant i64 == Decimal(text, start, pos) <= guard * 10 + (last - DIGIT_0)
        decreases end - pos
      {
        if i64 >= guard && (i64 != guard || Peek(text, pos) > last) {
          DecimalGrows(text, start, pos + 1, end);
          useDouble := true;
          SkipDigits();
          return;
        }
        i64 := i64 * 10 + (Peek(text, pos) - DIGIT_0);
        pos := pos + 1;
      }
    }

    method SkipDigits()
      requires pos <= |text|
      modifies this`pos
      ensures pos == DigitsEnd(text, old(pos)) && pos <= |text|
    {
      while IsDigit(Peek(text, pos))
        invariant pos <= |text|
        invariant DigitsEnd(text, pos) == DigitsEnd(text, old(pos))
        decreases |text| - pos
      {
        pos := pos + 1;
      }
    }

    method ParseFraction() returns (found: bool)
      requires pos <= |text| && !failed
      modifies this`pos, this`failed
      ensures pos <= |text|
      ensures FractionEnd(text, old(pos)) == if failed then None else Some(pos)
      ensures !failed ==> (found <==> pos > old(pos))
    {
      found := Consume(DOT);
      if found {
        if !IsDigit(Peek(text, pos)) {
          failed := true;
          return;
        }
        SkipDigits();
      }
    }

    method ParseExponent() returns (found: bool)
      requires pos <= |text| && !failed
      modifies this`pos, this`failed
      ensures pos <= |text|
      ensures ExponentEnd(text, old(pos)) == if failed then None else Some(pos)
      ensures !failed ==> (found <==> pos > old(pos))
    {
      found := Consume(LOWER_E);
      if !found {
        found := Consume(UPPER_E);
      }
      if found {
        var plus := Consume(PLUS);
        if !plus {
          var expMinus := Consume(MINUS);
        }
        if !IsDigit(Peek(text, pos)) {
          failed := true;
          return;
        }
        SkipDigits();
      }
    }

    method ParseNumber()
      requires pos <= |text| && !failed
      modifies this`pos, this`failed, this`events
      ensures Reached(NumberAt(flags, text, old(At())))
    {
      var startOffset := pos;
      var minus := Consume(MINUS);
      if !IsDigit(Peek(text, pos)) {
        failed := true;
        return;
      }
      IntegerEndIsDigits(text, pos);
      var i, i64, use64bit, useDouble := ParseInteger(minus);
      var fraction := ParseFraction();
      if failed {
        return;
      }
      var exponent := ParseExponent();
      if failed {
        return;
      }
      if useDouble || fraction || exponent {
        match flags.toDouble(text[startOffset..pos])
        case None => failed := true;
        case Some(d) => events := events + [OnDouble(d)];
      } else if use64bit {
        events := events + [if minus then OnInt64(-(i64 as int)) else OnUint64(i64)];
      } else {
        events := events + [if minus then OnInt(-(i as int)) else OnUint(i)];
      }
    }

    method ParseNull()
      requires pos < |text| && !failed && Peek(text, pos) == LOWER_N
      modifies this`pos, this`failed, this`events
      ensures Reached(Word(text, old(At()), NULL_WORD, OnNull))
    {
      hide Holds, Peek;
      WordsShown(text, pos);
      pos := pos + 1;
      var ok := Consume(LOWER_U);
      if ok { ok := Consume(LOWER_L); }
      if ok { ok := Consume(LOWER_L); }
      if ok {
        events := events + [OnNull];
      } else {
        failed := true;
      }
    }

    method ParseTrue()
      requires pos < |text| && !failed && Peek(text, pos) == LOWER_T
      modifies this`pos, this`failed, this`events
      ensures Reached(Word(text, old(At()), TRUE_WORD, OnBool(true)))
    {
      hide Holds, Peek;
      WordsShown(text, pos);
      pos := pos + 1;
      var ok := Consume(LOWER_R);
      if ok { ok := Consume(LOWER_U); }
      if ok { ok := Consume(LOWER_E); }
      if ok {
        events := events + [OnBool(true)];
      } else {
        failed := true;
      }
    }

    method ParseFalse()
      requires pos < |text| && !failed && Peek(text, pos) == LOWER_F
      modifies this`pos, this`failed, this`events
      ensures Reached(Word(text, old(At()), FALSE_WORD, OnBool(false)))
    {
      hide Holds, Peek;
      WordsShown(text, pos);
      pos := pos + 1;
      var ok := Consume(LOWER_A);
      if ok { ok := Consume(LOWER_L); }
      if ok { ok := Consume(LOWER_S); }
      if ok { ok := Consume(LOWER_E); }
      if ok {
        events := events + [OnBool(false)];
      } else {
        failed := true;
      }
    }

    method ParseValue()
      requires pos <= |text| && !failed
      modifies this`pos, this`failed, this`events
      ensures Reached(ReaderSpec.ParseValue(flags, text, old(At())))
      decreases |text| - pos, 1
    {
      var c := Peek(text, pos);
      if c == LOWER_N {
        ParseNull();
      } else if c == LOWER_T {
        ParseTrue();
      } else if c == LOWER_F {
        ParseFalse();
      } else if c == QUOTE {
        ParseString(false);
      } else if c == LEFT_BRACE {
        ParseObject();
      } else if c == LEFT_BRACKET {
        ParseArray();
      } else {
        ParseNumber();
      }
    }

    method ParseObject()
      requires pos < |text| && !failed && Peek(text, pos) == LEFT_BRACE
      modifies this`pos, this`failed, this`events
      ensures Reached(ReaderSpec.ParseObject(flags, text, old(At())))
      decreases |text| - pos, 0
    {
      hide SkipAt;
      pos := pos + 1;
      events := events + [OnStartObject];
      SkipWhitespaceAndComments();
      if failed {
        return;
      }
      var empty := Consume(RIGHT_BRACE);
      if empty {
        events := events + [OnEndObject(0)];
        return;
      }
      var memberCount := 0;
      while true
        invariant old(pos) < pos <= |text| && !failed
        invariant ParseMembers(flags, text, At(), memberCount) == ReaderSpec.ParseObject(flags, text, old(At()))
        decreases |text| - pos
      {
        var closed := ParseMember(memberCount);
        if failed || closed {
          return;
        }
        memberCount := memberCount + 1;
      }
    }

    /** A member, and the comma before the next one or the closing brace. */
    method ParseMember(memberCount: nat) returns (closed: bool)
      requires pos <= |text| && !failed
      modifies this`pos, this`failed, this`events
      ensures closed || failed ==> Reached(ParseMembers(flags, text, old(At()), memberCount))
      ensures !closed && !failed ==>
                old(pos) < pos <= |text| &&
                ParseMembers(flags, text, old(At()), memberCount) == ParseMembers(flags, text, At(), memberCount + 1)
      decreases |text| - pos, 4
    {
      closed := false;
      if Peek(text, pos) != QUOTE {
        failed := true;
        return;
      }
      ParseString(true);
      if failed {
        return;
      }
      ParseMemberValue();
      if failed {
        return;
      }
      closed := ParseMemberEnd(memberCount);
    }

    /** After a member: the comma before the next one, or the closing brace. */
    method ParseMemberEnd(memberCount: nat) returns (closed: bool)
      requires pos <= |text| && !failed
      modifies this`pos, this`failed, this`events
      ensures closed || failed ==> Reached(AfterMember(flags, text, old(At()), memberCount))
      ensures !closed && !failed ==>
                old(pos) < pos <= |text| &&
                AfterMember(flags, text, old(At()), memberCount) == ParseMembers(flags, text, At(), memberCount + 1)
      decreases |text| - pos, 2
    {
      closed := false;
      SkipWhitespaceAndComments();
      if failed {
        return;
      }
      var comma := Consume(COMMA);
      if comma {
        SkipWhitespaceAndComments();
        if failed {
          return;
        }
      } else {
        closed := Consume(RIGHT_BRACE);
        if closed {
          events := events + [OnEndObject(memberCount + 1)];
        } else {
          failed := true;
        }
        return;
      }
      if flags.trailingCommas && Peek(text, pos) == RIGHT_BRACE {
        events := events + [OnEndObject(memberCount + 1)];
        pos := pos + 1;
        closed := true;
      }
    }

    /** The colon after a member name, and the member's value. */
    method ParseMemberValue()
      requires pos <= |text| && !failed
      modifies this`pos, this`failed, this`events
      ensures Reached(match ParseColon(flags, text, old(At()))
                      case None => None
                      case Some(at) => ReaderSpec.ParseValue(flags, text, at))
      ensures !failed ==> old(pos) < pos
      decreases |text| - pos, 2
    {
      SkipWhitespaceAndComments();
      if failed {
        return;
      }
      var colon := Consume(COLON);
      if !colon {
        failed := true;
        return;
      }
      SkipWhitespaceAndComments();
      if failed {
        return;
      }
      ParseValue();
    }

    method ParseArray()
      requires pos < |text| && !failed && Peek(text, pos) == LEFT_BRACKET
      modifies this`pos, this`failed, this`events
      ensures Reached(ReaderSpec.ParseArray(flags, text, old(At())))
      decreases |text| - pos, 0
    {
      hide SkipAt, ReaderSpec.ParseValue, AfterElement;
      pos := pos + 1;
      events := events + [OnStartArray];
      SkipWhitespaceAndComments();
      if failed {
        return;
      }
      var empty := Consume(RIGHT_BRACKET);
      if empty {
        events := events + [OnEndArray(0)];
        return;
      }
      var elementCount := 0;
      while true
        invariant old(pos) < pos <= |text| && !failed
        invariant ParseElements(flags, text, At(), elementCount) == ReaderSpec.ParseArray(flags, text, old(At()))
        decreases |text| - pos
      {
        ParseValue();
        if failed {
          return;
        }
        var closed := ParseElementEnd(elementCount);
        if failed || closed {
          return;
        }
        elementCount := elementCount + 1;
      }
    }

    /** After an element: the comma before the next one, or the closing bracket. */
    method ParseElementEnd(elementCount: nat) returns (closed: bool)
      requires pos <= |text| && !failed
      modifies this`pos, this`failed, this`events
      ensures closed || failed ==> Reached(AfterElement(flags, text, old(At()), elementCount))
      ensures !closed && !failed ==>
                old(pos) < pos <= |text| &&
                AfterElement(flags, text, old(At()), elementCount) == ParseElements(flags, text, At(), elementCount + 1)
      decreases |text| - pos, 2
    {
      closed := false;
      SkipWhitespaceAndComments();
      if failed {
        return;
      }
      var comma := Consume(COMMA);
      if comma {
        SkipWhitespaceAndComments();
        if failed {
          return;
        }
      } else {
        closed := Consume(RIGHT_BRACKET);
        if closed {
          events := events + [OnEndArray(elementCount + 1)];
        } else {
          failed := true;
        }
        return;
      }
      if flags.trailingCommas && Peek(text, pos) == RIGHT_BRACKET {
        events := events + [OnEndArray(elementCount + 1)];
        pos := pos + 1;
        closed := true;
      }
    }

    /** Parse with recursive descent. */
    method Parse()
      requires pos == 0 && events == [] && !failed
      modifies this`pos, this`failed, this`events
      ensures Reached(RecursiveParse(flags, text))
    {
      SkipWhitespaceAndComments();
      if failed {
        return;
      }
      if Peek(text, pos) == NUL {
        failed := true;
        return;
      }
      ParseValue();
      if failed {
        return;
      }
      if !flags.stopWhenDone {
        SkipWhitespaceAndComments();
        if failed {
          return;
        }
        if Peek(text, pos) != NUL {
          failed := true;
        }
      }
    }

    /** Saves the state to return to and starts counting. */
    method PushFrame(src: State)
      modifies this`frames
      ensures frames == old(frames) + [Frame(AfterValue(src), 0)]
    {
      var n := src;
      if src == ArrayInitial || src == ElementDelimiter {
        n := Element;
      } else if src == KeyValueDelimiter {
        n := MemberValue;
      }
      frames := frames + [Frame(n, 0)];
    }

    method Transit(src: State, dst: State) returns (next: State)
      requires pos < |text| && !failed
      requires WellStacked(Config(src, frames, At()))
      requires dst == Predict(src, Tokenize(Peek(text, pos)))
      modifies this
      ensures pos <= |text|
      ensures match ReaderSpec.Transit(flags, text, Config(src, old(frames), old(At())), dst)
              case None => next == Error
              case Some(m) => !failed && m == Config(next, frames, At()) && WellStacked(m)
    {
      TransitKeepsStack(flags, text, Config(src, frames, At()));
      match dst
      case ObjectInitial =>
        PushFrame(src);
        events := events + [OnStartObject];
        pos := pos + 1;
        next := dst;
      case ArrayInitial =>
        PushFrame(src);
        events := events + [OnStartArray];
        pos := pos + 1;
        next := dst;
      case MemberKey =>
        ParseString(true);
        next := if failed then Error else dst;
      case KeyValueDelimiter =>
        pos := pos + 1;
        next := dst;
      case MemberValue =>
        ParseValue();
        next := if failed then Error else dst;
      case Element =>
        ParseValue();
        next := if failed then Error else dst;
      case MemberDelimiter =>
        pos := pos + 1;
        CountTop();
        next := dst;
      case ElementDelimiter =>
        pos := pos + 1;
        CountTop();
        next := dst;
      case ObjectFinish =>
        if !flags.trailingCommas && src == MemberDelimiter {
          failed := true;
          next := Error;
        } else {
          next := PopFrame(src, true);
        }
      case ArrayFinish =>
        if !flags.trailingCommas && src == ElementDelimiter {
          failed := true;
          next := Error;
        } else {
          next := PopFrame(src, false);
        }
      case SingleValue =>
        ParseValue();
        next := if failed then Error else Finish;
      case _ =>
        next := Error;
    }

    /** One more delimiter in the innermost container. */
    method CountTop()
      requires frames != []
      modifies this`frames
      ensures var k := |old(frames)| - 1;
              frames == old(frames)[k := old(frames)[k].(count := old(frames)[k].count + 1)]
    {
      var top := frames[|frames| - 1];
      frames := frames[|frames| - 1 := top.(count := top.count + 1)];
    }

    /** Leaves the innermost container and restores the state saved under it. */
    method PopFrame(src: State, isObject: bool) returns (next: State)
      requires frames != [] && pos < |text|
      modifies this`frames, this`pos, this`events
      ensures Popped(Config(src, old(frames), old(At())), isObject) == Some(Config(next, frames, At()))
    {
      var top := frames[|frames| - 1];
      frames := frames[..|frames| - 1];
      var c := top.count;
      if src == (if isObject then MemberValue else Element) {
        c := c + 1;
      }
      next := top.state;
      if next == Start {
        next := Finish;
      }
      events := events + [if isObject then OnEndObject(c) else OnEndArray(c)];
      pos := pos + 1;
    }

    /** Parse with the automaton. */
    method IterativeParse()
      requires pos == 0 && events == [] && !failed && frames == []
      modifies this
      ensures Reached(ReaderSpec.IterativeParse(flags, text))
    {
      var state := Start;
      SkipWhitespaceAndComments();
      if failed {
        return;
      }
      while Peek(text, pos) != NUL
        invariant pos <= |text| && !failed
        invariant WellStacked(Config(state, frames, At()))
        invariant Run(flags, text, Config(state, frames, At())) == ReaderSpec.IterativeParse(flags, text)
        decreases |text| - pos
      {
        var n := Predict(state, Tokenize(Peek(text, pos)));
        ghost var before := Config(state, frames, At());
        var d := Transit(state, n);
        if d == Error {
          failed := true;
          return;
        }
        assert Run(flags, text, before) == Continue(flags, text, Config(d, frames, At()));
        state := d;
        if flags.stopWhenDone && state == Finish {
          return;
        }
        SkipWhitespaceAndComments();
        if failed {
          return;
        }
      }
      if state != Finish {
        failed := true;
      }
    }
  }

  /** The three literal words, byte by byte. */
  lemma WordsShown(s: Text, i: nat)
    requires i <= |s|
    ensures Holds(s, i, NULL_WORD) <==>
            Peek(s, i) == LOWER_N && Peek(s, i + 1) == LOWER_U && Peek(s, i + 2) == LOWER_L && Peek(s, i + 3) == LOWER_L
    ensures Holds(s, i, TRUE_WORD) <==>
            Peek(s, i) == LOWER_T && Peek(s, i + 1) == LOWER_R && Peek(s, i + 2) == LOWER_U && Peek(s, i + 3) == LOWER_E
    ensures Holds(s, i, FALSE_WORD) <==>
            Peek(s, i) == LOWER_F && Peek(s, i + 1) == LOWER_A && Peek(s, i + 2) == LOWER_L
            && Peek(s, i + 3) == LOWER_S && Peek(s, i + 4) == LOWER_E
  {
    hide Holds, Peek;
    WordShown(s, i, NULL_WORD);
    WordShown(s, i, TRUE_WORD);
    WordShown(s, i, FALSE_WORD);
    assert Peek(s, i + 0) == Peek(s, i);
    forall word: Text | |word| in {4, 5}
      ensures (forall k :: 0 <= k < |word| ==> Peek(s, i + k) == word[k]) <==>
              Peek(s, i) == word[0] && Peek(s, i + 1) == word[1]
              && Peek(s, i + 2) == word[2] && Peek(s, i + 3) == word[3]
              && (|word| == 5 ==> Peek(s, i + 4) == word[4])
    {
    }
  }

  /** A word stands at i exactly when its bytes are shown there one after the other. */
  lemma WordShown(s: Text, i: nat, word: Text)
    requires i <= |s| && forall k :: 0 <= k < |word| ==> word[k] != NUL
    ensures Holds(s, i, word) <==> forall k :: 0 <= k < |word| ==> Peek(s, i + k) == word[k]
  {
    if forall k :: 0 <= k < |word| ==> Peek(s, i + k) == word[k] {
      assert |word| > 0 ==> Peek(s, i + (|word| - 1)) == word[|word| - 1];
      assert s[i..i + |word|] == word;
    }
    if Holds(s, i, word) {
      forall k | 0 <= k < |word| ensures Peek(s, i + k) == word[k] {
        HoldsPeek(s, i, word, k);
      }
    }
  }

  lemma HexStops(s: Text, i: nat, n: nat)
    requires n < 4 && HexDigit(Peek(s, i + n)) == None
    ensures HexValue(s, i, 4) == None
  {
    HexDigits(s, i);
  }

  lemma {:induction false} DecimalGrows(s: Text, i: nat, j: nat, k: nat)
    requires i <= j <= k <= |s|
    requires forall n :: i <= n < k ==> IsDigit(s[n])
    ensures Decimal(s, i, j) <= Decimal(s, i, k)
    decreases k
  {
    if j < k {
      DecimalGrows(s, i, j, k - 1);
      assert IsDigit(s[k - 1]);
    }
  }
}
