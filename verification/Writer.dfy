/** Writer and PrettyWriter as the imperative handler they are: an output stream, a stack of
    levels and a root flag, each method proved against WriterSpec. */
module Writer {
  import opened Bytes
  import opened Bits
  import opened Json
  import opened Utf8
  import opened WriterSpec
  import Codec
  import Itoa

  class Writer {
    const style: Style
    var os: Text
    var levels: seq<Level>
    var hasRoot: bool

    constructor (style: Style)
      ensures this.style == style && State() == WriterState([], [], false)
    {
      this.style := style;
      os, levels, hasRoot := [], [], false;
    }

    function State(): WriterState
      reads this
    {
      WriterState(os, levels, hasRoot)
    }

    method Put(c: Byte)
      modifies this`os
      ensures os == old(os) + [c]
    {
      os := os + [c];
    }

    method PutAll(bytes: Text)
      modifies this`os
      ensures os == old(os) + bytes
    {
      os := os + bytes;
    }

    /** The indentation of the current depth. */
    method WriteIndent()
      requires style.format.Pretty?
      modifies this`os
      ensures os == old(os) + Indent(style.format, |levels|)
    {
      var count := |levels| * style.format.indentCount;
      ghost var start := os;
      for n := 0 to count
        invariant os == start + Repeat(style.format.indentChar, n)
      {
        Put(style.format.indentChar);
        assert Repeat(style.format.indentChar, n + 1) == Repeat(style.format.indentChar, n) + [style.format.indentChar];
      }
    }

    /** Writer::Prefix: separators only. */
    method Prefix()
      requires style.format.Compact?
      requires levels == [] ==> !hasRoot
      modifies this
      ensures os == old(os) + PrefixText(style.format, old(levels))
      ensures levels == Bump(old(levels)) && hasRoot == (old(hasRoot) || old(levels) == [])
    {
      if levels != [] {
        var level := levels[|levels| - 1];
        if level.valueCount > 0 {
          if level.inArray {
            Put(COMMA);
          } else {
            Put(if level.valueCount % 2 == 0 then COMMA else COLON);
          }
        }
        levels := levels[..|levels| - 1] + [level.(valueCount := level.valueCount + 1)];
      } else {
        hasRoot := true;
      }
    }

    /** PrettyWriter::PrettyPrefix: separators, line breaks and indentation. */
    method PrettyPrefix()
      requires style.format.Pretty?
      requires levels == [] ==> !hasRoot
      modifies this
      ensures os == old(os) + PrefixText(style.format, old(levels))
      ensures levels == Bump(old(levels)) && hasRoot == (old(hasRoot) || old(levels) == [])
    {
      if levels != [] {
        var level := levels[|levels| - 1];
        if level.inArray {
          if level.valueCount > 0 {
            Put(COMMA);
            if style.format.singleLineArrays {
              Put(SPACE);
            }
          }
          if !style.format.singleLineArrays {
            Put(LINE_FEED);
            WriteIndent();
          }
        } else {
          if level.valueCount > 0 {
            if level.valueCount % 2 == 0 {
              Put(COMMA);
              Put(LINE_FEED);
            } else {
              Put(COLON);
              Put(SPACE);
            }
          } else {
            Put(LINE_FEED);
          }
          if level.valueCount % 2 == 0 {
            WriteIndent();
          }
        }
        levels := levels[..|levels| - 1] + [level.(valueCount := level.valueCount + 1)];
      } else {
        hasRoot := true;
      }
    }

    method AnyPrefix()
      requires levels == [] ==> !hasRoot
      modifies this
      ensures os == old(os) + PrefixText(style.format, old(levels))
      ensures levels == Bump(old(levels)) && hasRoot == (old(hasRoot) || old(levels) == [])
    {
      if style.format.Compact? {
        Prefix();
      } else {
        PrettyPrefix();
      }
    }

    /** Four bits of a number, as the hex table index. */
    static method Nibble(u: nat, shift: nat) returns (d: nat)
      requires shift in {0, 4, 8, 12}
      ensures d == (match shift case 0 => u % 16 case 4 => u / 16 % 16 case 8 => u / 256 % 16 case _ => u / 4096 % 16)
    {
      assert Shr(u, 0) == u && Pow2(4) == 16;
      Shifts(u);
      AndLowBits(Shr(u, shift), 4);
      d := And(Shr(u, shift), 15);
    }

    method PutUnit(u: nat)
      requires u < 0x10000
      modifies this`os
      ensures os == old(os) + UnitEscape(u)
    {
      var a := Nibble(u, 12);
      var b := Nibble(u, 8);
      var c := Nibble(u, 4);
      var d := Nibble(u, 0);
      os := os + [BACKSLASH, LOWER_U, HexLetter(a), HexLetter(b), HexLetter(c), HexLetter(d)];
    }

    method PutCodepoint(codepoint: nat)
      requires IsScalar(codepoint)
      modifies this`os
      ensures os == old(os) + CodepointEscape(codepoint)
    {
      if codepoint <= 0xD7FF || 0xE000 <= codepoint <= 0xFFFF {
        PutUnit(codepoint);
      } else {
        var lead, trail := Codec.Surrogates(codepoint - 0x10000);
        PutUnit(lead);
        PutUnit(trail);
      }
    }

    /** One byte, escaped where the table says so. */
    method PutByte(c: Byte)
      modifies this`os
      ensures os == old(os) + ByteText(c)
    {
      var letter := EscapeLetter(c);
      if letter == NUL {
        Put(c);
      } else if letter == LOWER_U {
        PutUnit(c);
      } else {
        os := os + [BACKSLASH, letter];
      }
    }

    /** Writes what stands at byte k of a string: one code point escaped, or one byte. */
    method WriteNext(str: Text, k: nat) returns (ok: bool, next: nat, ghost piece: Text)
      requires k < |str|
      modifies this`os
      ensures !ok ==> BodyFrom(style.ascii, str, k) == None
      ensures ok ==> k < next <= |str| && os == old(os) + piece
                     && BodyFrom(style.ascii, str, k) == Prepended(piece, BodyFrom(style.ascii, str, next))
    {
      var c := str[k];
      ok, next, piece := true, k + 1, [];
      if style.ascii && c >= 0x80 {
        var codepoint;
        ok, codepoint, next := Codec.Decode(str, k);
        if ok {
          PutCodepoint(codepoint);
          piece := CodepointEscape(codepoint);
        }
      } else {
        PutByte(c);
        piece := ByteText(c);
      }
    }

    method WriteString(str: Text) returns (ok: bool)
      modifies this`os
      ensures match StringText(style.ascii, str)
              case None => !ok
              case Some(text) => ok && os == old(os) + text
    {
      hide *;
      Put(QUOTE);
      ghost var start, body: Text := os, [];
      var k := 0;
      PrependTwice([], [], BodyFrom(style.ascii, str, 0));
      while k < |str|
        invariant k <= |str| && os == start + body
        invariant BodyFrom(style.ascii, str, 0) == Prepended(body, BodyFrom(style.ascii, str, k))
        decreases |str| - k
      {
        ghost var piece;
        ghost var at := k;
        ok, k, piece := WriteNext(str, k);
        if !ok {
          StringTextOf(style.ascii, str, body, at);
          return;
        }
        PrependTwice(body, piece, BodyFrom(style.ascii, str, k));
        body := body + piece;
      }
      StringTextOf(style.ascii, str, body, k);
      Put(QUOTE);
      ok := true;
      assert start + body + [QUOTE] == old(os) + ([QUOTE] + body + [QUOTE]);
    }

    method StartObject()
      requires Allowed(State(), OnStartObject)
      modifies this
      ensures Step(style, old(State()), OnStartObject) == Some(State())
    {
      AnyPrefix();
      levels := levels + [Level(0, false)];
      Put(LEFT_BRACE);
    }

    method StartArray()
      requires Allowed(State(), OnStartArray)
      modifies this
      ensures Step(style, old(State()), OnStartArray) == Some(State())
    {
      AnyPrefix();
      levels := levels + [Level(0, true)];
      Put(LEFT_BRACKET);
    }

    /** EndObject and EndArray: the line break before the bracket unless the container is empty. */
    method EndContainer(inArray: bool)
      requires levels != []
      modifies this
      ensures var n := |old(levels)| - 1;
              && levels == old(levels)[..n] && hasRoot == old(hasRoot)
              && os == old(os) + Closing(style.format, inArray, old(levels)[n].valueCount, n)
                       + [if inArray then RIGHT_BRACKET else RIGHT_BRACE]
    {
      var empty := levels[|levels| - 1].valueCount == 0;
      levels := levels[..|levels| - 1];
      if style.format.Pretty? && !empty && !(inArray && style.format.singleLineArrays) {
        Put(LINE_FEED);
        WriteIndent();
      }
      Put(if inArray then RIGHT_BRACKET else RIGHT_BRACE);
    }

    /** A scalar: its prefix, then its text. */
    method Scalar(e: Event) returns (ok: bool)
      requires Allowed(State(), e) && !e.OnStartObject? && !e.OnStartArray? && !e.OnEndObject? && !e.OnEndArray?
      modifies this
      ensures match Step(style, old(State()), e)
              case None => !ok
              case Some(w) => ok && State() == w
    {
      AnyPrefix();
      ok := true;
      match e
      case OnNull => PutAll(NULL_WORD);
      case OnBool(b) => PutAll(if b then TRUE_WORD else FALSE_WORD);
      case OnInt(i) => os := Itoa.I32toa(i, os);
      case OnUint(i) => os := Itoa.U32toa(i, os);
      case OnInt64(i) => os := Itoa.I64toa(i, os);
      case OnUint64(i) => os := Itoa.U64toa(i, os);
      case OnString(s) => ok := WriteString(s);
      case OnKey(s) => ok := WriteString(s);
    }

    /** The handler interface: false exactly when an ASCII target meets ill-formed UTF-8. */
    method Handle(e: Event) returns (ok: bool)
      requires Allowed(State(), e)
      modifies this
      ensures match Step(style, old(State()), e)
              case None => !ok
              case Some(w) => ok && State() == w
    {
      ok := true;
      if e.OnStartObject? {
        StartObject();
      } else if e.OnStartArray? {
        StartArray();
      } else if e.OnEndObject? || e.OnEndArray? {
        EndContainer(e.OnEndArray?);
      } else {
        ok := Scalar(e);
      }
    }
  }
}
