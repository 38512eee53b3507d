/** In-situ string parsing: the decoded bytes are written into the buffer they are read
    from. The write cursor never overtakes the read cursor, so no byte is overwritten
    before it is read, and the result is that of the copying parse. */
module Insitu {
  import opened Bytes
  import opened ReaderSpec
  import Utf8

  class InsituStream {
    const buf: array<Byte>   // the text; its terminator is the cell past the end
    var src: nat             // read cursor
    var dst: nat             // write cursor
    var failed: bool

    constructor (buf: array<Byte>, src: nat)
      requires src <= buf.Length
      ensures this.buf == buf && this.src == src == dst && !failed
    {
      this.buf, this.src, dst, failed := buf, src, src, false;
    }

    /** Everything from the read cursor on, and everything before the string, is as it was;
        the write cursor is at or behind the read cursor. */
    ghost predicate Intact(text: Text, head: nat)
      reads this, buf
    {
      && |text| == buf.Length
      && head <= dst <= src <= buf.Length
      && (forall k :: 0 <= k < head ==> buf[k] == text[k])
      && (forall k :: src <= k < buf.Length ==> buf[k] == text[k])
    }

    function PeekByte(): Byte
      reads this, buf
    {
      if src < buf.Length then buf[src] else NUL
    }

    method Take()
      requires src < buf.Length
      modifies this`src
      ensures src == old(src) + 1
    {
      src := src + 1;
    }

    /** Writes one byte behind the read cursor. */
    method Put(c: Byte, ghost text: Text, ghost head: nat)
      requires Intact(text, head) && dst < src
      modifies this`dst, buf
      ensures dst == old(dst) + 1 && Intact(text, head)
      ensures buf[head..dst] == old(buf[head..dst]) + [c]
    {
      buf[dst] := c;
      dst := dst + 1;
      assert buf[head..dst] == buf[head..dst - 1] + [c];
    }

    /** Writes the UTF-8 form of a code point read from an escape. */
    method PutCodepoint(codepoint: nat, ghost text: Text, ghost head: nat)
      requires codepoint <= 0x10FFFF
      requires Intact(text, head) && dst + |Utf8.Encoding(codepoint)| <= src
      modifies this`dst, buf
      ensures dst == old(dst) + |Utf8.Encoding(codepoint)| && Intact(text, head)
      ensures buf[head..dst] == old(buf[head..dst]) + Utf8.Encoding(codepoint)
    {
      hide Utf8.Encoding;
      var bytes := Utf8.Encode([], codepoint);
      assert bytes == Utf8.Encoding(codepoint);
      ghost var before := buf[head..dst];
      for k := 0 to |bytes|
        invariant dst == old(dst) + k && Intact(text, head)
        invariant buf[head..dst] == before + bytes[..k]
      {
        Put(bytes[k], text, head);
        assert bytes[..k + 1] == bytes[..k] + [bytes[k]];
      }
      assert bytes[..|bytes|] == bytes;
    }

    /** One escape sequence: the backslash at the read cursor and what it announces. */
    method ParseEscape(ghost text: Text, ghost head: nat)
      requires Intact(text, head) && !failed && src < buf.Length && buf[src] == BACKSLASH
      modifies this, buf
      ensures Intact(text, head)
      ensures !failed ==> old(src) < src && dst - old(dst) <= src - old(src)
      ensures StringBody(text, old(src), old(buf[head..dst])) ==
              if failed then None else StringBody(text, src, buf[head..dst])
    {
      hide StringBody, Utf8.Encoding, UnicodeEscape;
      assert Peek(text, src) == BACKSLASH;
      EscapeUnfold(text, src, buf[head..dst]);
      Take();
      var e := PeekByte();
      assert e == Peek(text, src);
      if Unescape(e) != NUL {
        Take();
        Put(Unescape(e), text, head);
      } else if e == LOWER_U {
        Take();
        SameEscape(text, buf[..], src);
        var escape := UnicodeEscape(buf[..], src);
        if escape == None {
          failed := true;
          return;
        }
        src := escape.value.pos;
        PutCodepoint(escape.value.codepoint, text, head);
      } else {
        failed := true;
      }
    }

    /** Decodes the string body at the read cursor in place. */
    method ParseStringToStream(ghost text: Text)
      requires src == dst <= buf.Length && !failed && text == buf[..]
      modifies this, buf
      ensures Intact(text, old(src))
      ensures match StringBody(text, old(src), [])
              case None => failed
              case Some(r) => !failed && src == r.pos && old(src) < dst
                              && buf[old(src)..dst] == r.bytes + [NUL]
    {
      ghost var head := src;
      assert buf[head..dst] == [];
      while true
        invariant Intact(text, head) && !failed
        invariant StringBody(text, src, buf[head..dst]) == StringBody(text, head, [])
        decreases buf.Length - src
      {
        var c := PeekByte();
        assert c == Peek(text, src);
        if c == BACKSLASH {
          ParseEscape(text, head);
          if failed {
            return;
          }
        } else if c == QUOTE {
          Take();
          Put(NUL, text, head);
          return;
        } else if c < SPACE {
          failed := true;
          return;
        } else {
          Take();
          Put(c, text, head);
        }
      }
    }

    /** A whole string. On success the decoded bytes stand, terminated, where the text of the
        string stood, and their length is reported; on failure the copying parse fails too.
        Bytes before the string and bytes not yet read are never changed. */
    method ParseString() returns (head: nat, length: nat)
      requires src < buf.Length && !failed && buf[src] == QUOTE
      modifies this, buf
      ensures head == old(src) + 1 <= src <= buf.Length
      ensures buf[..head] == old(buf[..head])
      ensures forall k :: src <= k < buf.Length ==> buf[k] == old(buf[k])
      ensures match StringBody(old(buf[..]), head, [])
              case None => failed
              case Some(r) => !failed && src == r.pos && length == |r.bytes| && head + length < src
                              && buf[head..head + length] == r.bytes && buf[head + length] == NUL
    {
      ghost var text := buf[..];
      Take();
      head := src;
      dst := src;
      length := 0;
      ParseStringToStream(text);
      if failed {
        return;
      }
      length := dst - head - 1;
      assert buf[head..dst][..length] == buf[head..head + length];
      assert buf[head..dst][length] == buf[head + length];
    }
  }

  lemma {:induction false} SameHex(a: Text, b: Text, i: nat, n: nat)
    requires |a| == |b| && forall k :: i <= k < |a| ==> a[k] == b[k]
    ensures HexValue(a, i, n) == HexValue(b, i, n)
  {
    if n > 0 {
      SameHex(a, b, i, n - 1);
    }
  }

  /** An escape is read from the bytes at and after its first digit only. */
  lemma SameEscape(a: Text, b: Text, i: nat)
    requires |a| == |b| && forall k :: i <= k < |a| ==> a[k] == b[k]
    ensures UnicodeEscape(a, i) == UnicodeEscape(b, i)
  {
    SameHex(a, b, i, 4);
    SameHex(a, b, i + 6, 4);
  }

  /** An escape, one step of the specification. */
  lemma EscapeUnfold(s: Text, i: nat, acc: Text)
    requires i < |s| && s[i] == BACKSLASH
    ensures StringBody(s, i, acc) ==
            var e := Peek(s, i + 1);
            if Unescape(e) != NUL then (if i + 2 <= |s| then StringBody(s, i + 2, acc + [Unescape(e)]) else None)
            else if e == LOWER_U then
              match UnicodeEscape(s, i + 2)
              case None => None
              case Some(u) => StringBody(s, u.pos, acc + Utf8.Encoding(u.codepoint))
            else None
  {
    hide UnicodeEscape, Utf8.Encoding;
  }
}
