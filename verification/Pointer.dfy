/** The pointer class: the parser fills one buffer of `length` bytes with all names, each
    followed by a terminator, and never writes outside it. */
module Pointer {
  import opened Bytes
  import opened Utf8
  import opened PointerSpec
  import Codec
  import ReaderSpec
  import WriterSpec

  /** A token as it is stored: its name lies in the name buffer. */
  datatype Slot = Slot(start: nat, length: nat, index: nat)

  /** The bytes that a percent-decoding stream at i gives to a decoder, NUL where it fails. */
  function Shown4(s: Text, i: nat): (r: Text)
    ensures |r| == 4
  {
    var t := Triplets(s, i);
    [Peek(t, 0), Peek(t, 1), Peek(t, 2), Peek(t, 3)]
  }

  /** One %XY triplet; on failure the byte is NUL. */
  method TakeTriplet(s: Text, i: nat) returns (c: Byte, valid: bool)
    ensures Triplet(s, i) == if valid then Some(c) else None
    ensures !valid ==> c == NUL
  {
    if Peek(s, i) != PERCENT || i + 3 > |s| {
      return NUL, false;
    }
    c := 0;
    for j := 0 to 2
      invariant j == 0 ==> c == 0
      invariant j >= 1 ==> ReaderSpec.HexDigit(s[i + 1]).Some? && c < (if j == 1 then 16 else 256)
      invariant j == 1 ==> c == ReaderSpec.HexDigit(s[i + 1]).value
      invariant j == 2 ==> ReaderSpec.HexDigit(s[i + 2]).Some?
                           && c == 16 * ReaderSpec.HexDigit(s[i + 1]).value + ReaderSpec.HexDigit(s[i + 2]).value
    {
      var digit := ReaderSpec.HexDigit(s[i + 1 + j]);
      if digit.None? {
        return NUL, false;
      }
      c := c * 16 + digit.value;
    }
    return c, true;
  }

  /** The bytes of up to four triplets, as a decoder asks for them. */
  method TakeTriplets(s: Text, i: nat) returns (t: Text, valid: bool)
    ensures t == Shown4(s, i)
    ensures valid <==> Triplets(s, i) != []
  {
    var c0, v0 := TakeTriplet(s, i);
    if !v0 { return [NUL, NUL, NUL, NUL], false; }
    var c1, v1 := TakeTriplet(s, i + 3);
    if !v1 {
      assert Triplets(s, i) == [c0];
      return [c0, NUL, NUL, NUL], true;
    }
    var c2, v2 := TakeTriplet(s, i + 6);
    if !v2 {
      assert Triplets(s, i + 3) == [c1];
      return [c0, c1, NUL, NUL], true;
    }
    var c3, v3 := TakeTriplet(s, i + 9);
    ghost var rest := Triplets(s, i + 9);
    assert rest == if v3 then [c3] + Triplets(s, i + 12) else [];
    assert Triplets(s, i + 6) == [c2] + rest;
    assert Triplets(s, i + 3) == [c1] + Triplets(s, i + 6);
    t := [c0, c1, c2, c3];
    valid := true;
  }

  lemma ShownDecodes(s: Text, i: nat)
    ensures DecodeAt(Shown4(s, i), 0) == DecodeAt(Triplets(s, i), 0)
    ensures Triplets(s, i) != [] && DecodeAt(Triplets(s, i), 0).Some? ==>
              var n := DecodeAt(Triplets(s, i), 0).value.pos;
              n <= 4 && n <= |Triplets(s, i)| && Shown4(s, i)[..n] == Triplets(s, i)[..n]
              && n == SequenceLength(Shown4(s, i)[0])
  {
    hide Triplets, DecodeAt, SequenceLength, Peek;
    var t, u := Triplets(s, i), Shown4(s, i);
    PeekList(u);
    SameStart(u, t);
    if t != [] && DecodeAt(t, 0).Some? {
      DecodedLength(t);
      PeekPrefix(t, u, DecodeAt(t, 0).value.pos);
    }
  }

  lemma PeekList(u: Text)
    requires |u| == 4
    ensures Peek(u, 0) == u[0] && Peek(u, 1) == u[1] && Peek(u, 2) == u[2] && Peek(u, 3) == u[3]
  {
  }

  /** One code point is decoded from what the stream shows in four places. */
  lemma SameStart(a: Text, b: Text)
    requires Peek(a, 0) == Peek(b, 0) && Peek(a, 1) == Peek(b, 1)
             && Peek(a, 2) == Peek(b, 2) && Peek(a, 3) == Peek(b, 3)
    ensures DecodeAt(a, 0) == DecodeAt(b, 0)
  {
    hide Peek, SequenceLength, IsSecond, IsTail;
    assert Peek(a, 0 + 1) == Peek(b, 0 + 1) && Peek(a, 0 + 2) == Peek(b, 0 + 2) && Peek(a, 0 + 3) == Peek(b, 0 + 3);
  }

  lemma DecodedLength(t: Text)
    requires t != [] && DecodeAt(t, 0).Some?
    ensures var n := DecodeAt(t, 0).value.pos; n <= 4 && n <= |t| && n == SequenceLength(Peek(t, 0))
  {
    hide IsSecond, IsTail, Peek;
  }

  lemma PeekPrefix(t: Text, u: Text, n: nat)
    requires n <= 4 && n <= |t| && u == [Peek(t, 0), Peek(t, 1), Peek(t, 2), Peek(t, 3)]
    ensures u[..n] == t[..n]
  {
  }

  /** Decodes a percent-encoded sequence in place at the name cursor. Inside a token of a
      fragment the cursor is at least two behind, so even what a failure writes fits. */
  method DecodePercent(s: Text, i: nat, buf: array<Byte>, name: nat) returns (ok: bool, n: nat)
    requires buf.Length == |s| && i < |s| && name + 2 <= i
    modifies buf
    ensures ok <==> Triplets(s, i) != [] && DecodeAt(Triplets(s, i), 0).Some?
    ensures ok ==> n == DecodeAt(Triplets(s, i), 0).value.pos && name + n + 2 <= i + 3 * n <= |s|
    ensures ok ==> n <= |Triplets(s, i)| && buf[name..name + n] == Triplets(s, i)[..n]
    ensures buf[..name] == old(buf[..name])
  {
    hide Triplets, DecodeAt;
    var t, valid := TakeTriplets(s, i);
    ShownDecodes(s, i);
    var decoded, next, out := Codec.Validate(t, 0, []);
    ShownPrefix(t, next);
    if !valid {
      buf[name] := NUL;
      return false, 0;
    }
    PutBytes(out, buf, name);
    return decoded, next;
  }

  method PutBytes(out: Text, buf: array<Byte>, name: nat)
    requires name + |out| <= buf.Length
    modifies buf
    ensures buf[..name] == old(buf[..name]) && buf[name..name + |out|] == out
  {
    for k := 0 to |out|
      invariant buf[..name] == old(buf[..name])
      invariant buf[name..name + k] == out[..k]
    {
      buf[name + k] := out[k];
    }
    assert out[..|out|] == out;
  }

  lemma ShownPrefix(t: Text, n: nat)
    requires |t| == 4 && n == SequenceLength(Peek(t, 0))
    ensures [] + Codec.Shown(t, 0, n) == t[..n] && 1 <= n <= 4
  {
    assert Codec.Shown(t, 0, 1) == [t[0]];
    assert Codec.Shown(t, 0, 2) == [t[0], t[1]];
    assert Codec.Shown(t, 0, 3) == [t[0], t[1], t[2]];
  }

  /** The array index of a name, unless it is just a name. */
  method IndexOfName(name: Text, digitsOnly: bool) returns (index: nat)
    requires digitsOnly <==> AllDigits(name)
    ensures index == IndexOf(name)
  {
    if !digitsOnly || |name| == 0 || (|name| > 1 && name[0] == DIGIT_0) {
      return INVALID_INDEX;
    }
    var n := 0;
    for k := 0 to |name|
      invariant n < TWO_TO_32 && Accumulate(name, 0, 0) == Accumulate(name, k, n)
    {
      assert IsDigit(name[k]);
      var m := (n * 10 + (name[k] - DIGIT_0)) % TWO_TO_32;
      if m < n {
        return INVALID_INDEX;
      }
      n := m;
    }
    return n;
  }

  /** A name from position `at`, written to the buffer from `start` on. */
  method ReadName(s: Text, fragment: bool, at: nat, buf: array<Byte>, start: nat)
    returns (fault: Option<Fault>, i: nat, name: nat, digitsOnly: bool)
    requires buf.Length == |s| && at <= |s| && start + (if fragment then 2 else 1) <= at
    modifies buf
    ensures start <= name && name + (if fragment then 2 else 1) <= i <= |s|
    ensures fault.Some? ==> NameAt(s, at, fragment, []) == Bad(fault.value, i)
    ensures fault.None? ==> NameAt(s, at, fragment, []) == Piece(buf[start..name], i)
    ensures fault.None? ==> (digitsOnly <==> AllDigits(buf[start..name]))
    ensures buf[..start] == old(buf[..start])
  {
    hide Triplets, DecodeAt, NextPiece, NeedPercentEncode;
    fault, i, name, digitsOnly := None, at, start, true;
    assert buf[start..start] == [];
    while i < |s| && s[i] != SLASH
      invariant fault.None? && at <= i <= |s| && start <= name && name + (if fragment then 2 else 1) <= i
      invariant NameAt(s, at, fragment, []) == NameAt(s, i, fragment, buf[start..name])
      invariant digitsOnly <==> AllDigits(buf[start..name])
      invariant buf[..start] == old(buf[..start])
      decreases |s| - i
    {
      ghost var before := buf[..];
      var n;
      fault, i, n := ReadPiece(s, fragment, i, buf, name);
      if fault.Some? {
        return;
      }
      SliceGrows(before, buf[..], start, name, n);
      if n > 1 || !IsDigit(buf[name]) {
        digitsOnly := false;
      }
      PieceDigits(before[start..name], buf[name..name + n]);
      name := name + n;
    }
  }

  /** A slice that goes on where nothing before was changed. */
  lemma SliceGrows(before: Text, after: Text, start: nat, name: nat, n: nat)
    requires start <= name && name + n <= |after| == |before| && after[..name] == before[..name]
    ensures after[start..name + n] == before[start..name] + after[name..name + n]
    ensures after[..start] == before[..start]
  {
    assert after[start..name] == after[..name][start..] && before[start..name] == before[..name][start..];
    assert after[..start] == after[..name][..start] && before[..start] == before[..name][..start];
  }

  /** Only a lone byte of a piece can be a digit. */
  lemma PieceDigits(read: Text, bytes: Text)
    requires bytes != [] && (|bytes| > 1 ==> bytes[0] >= 0x80)
    ensures AllDigits(read + bytes) <==> AllDigits(read) && |bytes| == 1 && IsDigit(bytes[0])
  {
    if AllDigits(read + bytes) {
      assert (read + bytes)[|read|] == bytes[0];
      assert forall k :: 0 <= k < |read| ==> (read + bytes)[k] == read[k];
    }
  }

  /** One turn of the inner loop: n bytes more in the name, or a fault at position j. */
  method ReadPiece(s: Text, fragment: bool, i: nat, buf: array<Byte>, name: nat)
    returns (fault: Option<Fault>, j: nat, n: nat)
    requires buf.Length == |s| && i < |s| && s[i] != SLASH && name + (if fragment then 2 else 1) <= i
    modifies buf
    ensures i <= j <= |s|
    ensures fault.Some? ==> NextPiece(s, i, fragment) == Bad(fault.value, j)
    ensures fault.None? ==>
              && n > 0 && name + n + (if fragment then 2 else 1) <= j
              && NextPiece(s, i, fragment) == Piece(buf[name..name + n], j)
              && (n > 1 ==> buf[name] >= 0x80)
    ensures buf[..name] == old(buf[..name])
  {
    hide Triplets, DecodeAt, NeedPercentEncode;
    var c := s[i];
    j := i;
    fault, n := None, 1;
    if fragment {
      if c == PERCENT {
        var ok, length := DecodePercent(s, i, buf, name);
        if !ok {
          fault := Some(InvalidPercentEncoding);
          return;
        }
        j := i + 3 * length - 1;
        SequenceBytes(Triplets(s, i));
        assert buf[name..name + length][0] == buf[name];
        if length == 1 {
          c := buf[name];
        } else {
          n := length;
          j := j + 1;
          return;
        }
      } else if NeedPercentEncode(c) {
        fault := Some(CharacterMustPercentEncode);
        return;
      }
    }
    j := j + 1;
    if c == TILDE {
      if j < |s| && s[j] == DIGIT_0 {
        c := TILDE;
      } else if j < |s| && s[j] == DIGIT_1 {
        c := SLASH;
      } else {
        fault := Some(InvalidEscape);
        return;
      }
      j := j + 1;
    }
    buf[name] := c;
    assert buf[name..name + 1] == [c];
  }

  lemma SequenceBytes(t: Text)
    requires t != [] && DecodeAt(t, 0).Some?
    ensures var n := DecodeAt(t, 0).value.pos; 1 <= n <= 4 && n <= |t| && (n > 1 ==> t[0] >= 0x80)
  {
  }

  function NameIn(slot: Slot, buffer: Text): Text {
    if slot.start + slot.length <= |buffer| then buffer[slot.start..slot.start + slot.length] else []
  }

  /** The tokens, with their names looked up in the buffer. */
  function TokensIn(slots: seq<Slot>, buffer: Text): (r: seq<Token>)
    ensures |r| == |slots|
  {
    seq(|slots|, k requires 0 <= k < |slots| => Token(NameIn(slots[k], buffer), slots[k].index))
  }

  /** Writing behind all names changes no token. */
  lemma TokensKept(slots: seq<Slot>, before: Text, after: Text, name: nat)
    requires forall slot :: slot in slots ==> slot.start + slot.length <= name
    requires name <= |before| && name <= |after| && before[..name] == after[..name]
    ensures TokensIn(slots, before) == TokensIn(slots, after)
  {
    forall k | 0 <= k < |slots| ensures NameIn(slots[k], before) == NameIn(slots[k], after) {
      var slot := slots[k];
      assert slot in slots;
      assert before[slot.start..slot.start + slot.length] == before[..name][slot.start..slot.start + slot.length];
      assert after[slot.start..slot.start + slot.length] == after[..name][slot.start..slot.start + slot.length];
    }
  }

  lemma TokensGrow(slots: seq<Slot>, buffer: Text, slot: Slot)
    ensures TokensIn(slots + [slot], buffer) == TokensIn(slots, buffer) + [Token(NameIn(slot, buffer), slot.index)]
  {
  }

  class GenericPointer {
    var slots: seq<Slot>
    var names: array<Byte>
    var fault: Option<Fault>
    var faultOffset: nat

    function View(): Parsed
      reads this, names
    {
      match fault
      case Some(f) => Rejected(f, faultOffset)
      case None => Tokens(TokensIn(slots, names[..]))
    }

    constructor ()
      ensures View() == Tokens([])
    {
      slots, fault, faultOffset := [], None, 0;
      names := new Byte[0];
    }

    /** Parses a string or a fragment. All names fit into a buffer as long as the text. */
    method Parse(source: Text)
      modifies this
      ensures View() == PointerSpec.Parse(source)
      ensures fresh(names) && names.Length == |source|
    {
      hide NameAt, IndexOf, AllDigits, TokensFrom;
      slots, fault, faultOffset := [], None, 0;
      names := new Byte[|source|];
      var i, fragment := 0, false;
      if Peek(source, 0) == HASH {
        fragment, i := true, 1;
      }
      if i != |source| && Peek(source, i) != SLASH {
        fault, faultOffset := Some(MustBeginWithSolidus), i;
        return;
      }
      ParseTokens(source, fragment, i);
    }

    method ParseTokens(source: Text, fragment: bool, at: nat)
      requires slots == [] && fault.None? && names.Length == |source|
      requires AtSolidusOrEnd(source, at) && (fragment ==> at >= 1)
      modifies this`slots, this`fault, this`faultOffset, names
      ensures View() == TokensFrom(source, at, fragment, [])
    {
      hide NameAt, IndexOf, AllDigits, TokensIn;
      var i, name := at, 0;
      NoTokens(names[..]);
      while i < |source|
        invariant fault.None? && AtSolidusOrEnd(source, i) && name + (if fragment then 1 else 0) <= i
        invariant forall slot :: slot in slots ==> slot.start + slot.length <= name
        invariant TokensFrom(source, at, fragment, []) == TokensFrom(source, i, fragment, TokensIn(slots, names[..]))
        decreases |source| - i
      {
        ghost var before := names[..];
        var bad, next, end, digitsOnly := ReadName(source, fragment, i + 1, names, name);
        if bad.Some? {
          slots, fault, faultOffset := [], bad, next;
          return;
        }
        var index := IndexOfName(names[name..end], digitsOnly);
        ghost var token := Token(names[name..end], index);
        names[end] := NUL;
        TokensKept(slots, before, names[..], name);
        var slot := Slot(name, end - name, index);
        TokensGrow(slots, names[..], slot);
        assert NameIn(slot, names[..]) == token.name;
        slots := slots + [slot];
        i, name := next, end + 1;
      }
    }

    /** Writes the tokens as a string or as a fragment; a fragment fails on a name that is
        not UTF-8. */
    method Stringify(fragment: bool) returns (ok: bool, os: Text)
      requires fault.None?
      ensures PointerSpec.Stringify(fragment, View().tokens) == if ok then Some(os) else None
    {
      hide NameIn, TokensText, NameText;
      ghost var tokens := View().tokens;
      os := if fragment then [HASH] else [];
      ghost var head, written := os, [];
      WriterSpec.PrependTwice([], [], TokensText(fragment, tokens));
      for t := 0 to |slots|
        invariant os == head + written
        invariant TokensText(fragment, tokens) == WriterSpec.Prepended(written, TokensText(fragment, tokens[t..]))
      {
        var name := NameIn(slots[t], names[..]);
        assert tokens[t].name == name && tokens[t..][1..] == tokens[t + 1..];
        TokensTextStep(fragment, tokens[t..]);
        var text;
        ok, text := WriteName(fragment, name, os + [SLASH]);
        if !ok { return; }
        ghost var own := [SLASH] + NameText(fragment, name, 0).value;
        WriterSpec.PrependTwice(written, own, TokensText(fragment, tokens[t + 1..]));
        assert os + [SLASH] + NameText(fragment, name, 0).value == head + (written + own);
        os := text;
        written := written + own;
      }
      TokensTextEnd(fragment, tokens, |slots|, written);
      return true, os;
    }
  }

  lemma TokensTextEnd(fragment: bool, tokens: seq<Token>, n: nat, written: Text)
    requires n == |tokens|
    ensures WriterSpec.Prepended(written, TokensText(fragment, tokens[n..])) == Some(written)
  {
    assert written + [] == written;
  }

  lemma TokensTextStep(fragment: bool, tokens: seq<Token>)
    requires tokens != []
    ensures TokensText(fragment, tokens) ==
            match NameText(fragment, tokens[0].name, 0)
            case None => None
            case Some(t) => WriterSpec.Prepended([SLASH] + t, TokensText(fragment, tokens[1..]))
  {
  }

  method PutPercent(os: Text, bytes: Text) returns (out: Text)
    ensures out == os + PercentText(bytes)
  {
    out := os;
    for k := 0 to |bytes|
      invariant out + PercentText(bytes[k..]) == os + PercentText(bytes)
    {
      var u := bytes[k];
      var triplet := [PERCENT, WriterSpec.HexLetter(u / 16), WriterSpec.HexLetter(u % 16)];
      assert PercentText(bytes[k..]) == triplet + PercentText(bytes[k + 1..]);
      assert out + (triplet + PercentText(bytes[k + 1..])) == out + triplet + PercentText(bytes[k + 1..]);
      out := out + triplet;
    }
    assert out + [] == out;
  }

  /** The UTF-8 sequence at j of a name, percent-encoded. */
  method EncodePercent(name: Text, j: nat) returns (valid: bool, next: nat, triplets: Text)
    requires j < |name|
    ensures valid <==> DecodeAt(name, j).Some?
    ensures valid ==> next == DecodeAt(name, j).value.pos && triplets == PercentText(name[j..next])
  {
    hide DecodeAt, PercentText;
    var bytes;
    valid, next, bytes := Codec.Validate(name, j, []);
    triplets := [];
    if valid {
      SequenceEnds(name, j);
      Codec.ShownIsText(name, j, next - j);
      assert bytes == name[j..next];
      triplets := PutPercent([], bytes);
      assert [] + PercentText(bytes) == PercentText(bytes);
    }
  }

  method WriteName(fragment: bool, name: Text, os: Text) returns (ok: bool, out: Text)
    ensures match NameText(fragment, name, 0)
            case None => !ok
            case Some(t) => ok && out == os + t
  {
    hide NameText, NeedPercentEncode, DecodeAt, PercentText;
    out := os;
    ghost var written: Text := [];
    WriterSpec.PrependTwice([], [], NameText(fragment, name, 0));
    var j := 0;
    while j < |name|
      invariant j <= |name| && out == os + written
      invariant NameText(fragment, name, 0) == WriterSpec.Prepended(written, NameText(fragment, name, j))
    {
      var c := name[j];
      NameSplits(fragment, name, j);
      var put: Text;
      if c == TILDE {
        put, j := [TILDE, DIGIT_0], j + 1;
      } else if c == SLASH {
        put, j := [TILDE, DIGIT_1], j + 1;
      } else if fragment && NeedPercentEncode(c) {
        var valid, next, triplets := EncodePercent(name, j);
        if !valid {
          return false, out;
        }
        put, j := triplets, next;
      } else {
        put, j := [c], j + 1;
      }
      WriterSpec.PrependTwice(written, put, NameText(fragment, name, j));
      out := out + put;
      written := written + put;
    }
    NameEnds(fragment, name);
    assert written + [] == written;
    ok := true;
  }

  lemma SequenceEnds(s: Text, i: nat)
    requires i < |s| && DecodeAt(s, i).Some?
    ensures DecodeAt(s, i).value.pos == i + SequenceLength(s[i]) <= |s|
  {
  }

  lemma NoTokens(buffer: Text)
    ensures TokensIn([], buffer) == []
  {
  }
}
