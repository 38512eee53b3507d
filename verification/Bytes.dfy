/** Byte strings, the character classes of JSON text and the reading rule of a
    zero-terminated stream. */
module Bytes {

  datatype Option<+T> = None | Some(value: T)

  type Byte = b: int | 0 <= b < 256
  type Text = seq<Byte>

  const NUL: Byte := 0x00
  const BACKSPACE: Byte := 0x08
  const TAB: Byte := 0x09
  const LINE_FEED: Byte := 0x0A
  const FORM_FEED: Byte := 0x0C
  const CARRIAGE_RETURN: Byte := 0x0D
  const SPACE: Byte := 0x20
  const QUOTE: Byte := 0x22
  const HASH: Byte := 0x23
  const PERCENT: Byte := 0x25
  const STAR: Byte := 0x2A
  const PLUS: Byte := 0x2B
  const COMMA: Byte := 0x2C
  const MINUS: Byte := 0x2D
  const DOT: Byte := 0x2E
  const SLASH: Byte := 0x2F
  const DIGIT_0: Byte := 0x30
  const DIGIT_1: Byte := 0x31
  const DIGIT_9: Byte := 0x39
  const COLON: Byte := 0x3A
  const UPPER_A: Byte := 0x41
  const UPPER_E: Byte := 0x45
  const LEFT_BRACKET: Byte := 0x5B
  const BACKSLASH: Byte := 0x5C
  const RIGHT_BRACKET: Byte := 0x5D
  const LOWER_A: Byte := 0x61
  const LOWER_B: Byte := 0x62
  const LOWER_E: Byte := 0x65
  const LOWER_F: Byte := 0x66
  const LOWER_L: Byte := 0x6C
  const LOWER_N: Byte := 0x6E
  const LOWER_R: Byte := 0x72
  const LOWER_S: Byte := 0x73
  const LOWER_T: Byte := 0x74
  const LOWER_U: Byte := 0x75
  const LEFT_BRACE: Byte := 0x7B
  const RIGHT_BRACE: Byte := 0x7D
  const TILDE: Byte := 0x7E

  predicate IsSpace(c: Byte) {
    c == SPACE || c == LINE_FEED || c == CARRIAGE_RETURN || c == TAB
  }

  predicate IsDigit(c: Byte) {
    DIGIT_0 <= c <= DIGIT_9
  }

  /** What a zero-terminated stream shows at position i: the terminator past the end. */
  function Peek(s: Text, i: nat): Byte {
    if i < |s| then s[i] else NUL
  }

  /** `part` stands in `s` at position `i`. */
  predicate Holds(s: Text, i: nat, part: Text) {
    i + |part| <= |s| && s[i..i + |part|] == part
  }

  lemma HoldsSplit(s: Text, i: nat, a: Text, b: Text)
    requires Holds(s, i, a + b)
    ensures Holds(s, i, a) && Holds(s, i + |a|, b)
  {
    var t := s[i..i + |a + b|];
    assert t[..|a|] == a && t[|a|..] == b;
    assert s[i..i + |a|] == t[..|a|];
    assert s[i + |a|..i + |a| + |b|] == t[|a|..];
  }

  lemma HoldsPeek(s: Text, i: nat, part: Text, k: nat)
    requires Holds(s, i, part) && k < |part|
    ensures Peek(s, i + k) == part[k]
  {
    assert s[i..i + |part|][k] == s[i + k];
  }
}
