/** Gaps, numbers and strings are read exactly as they are written: what the reader's scanning
    functions take is the text of a gap, a numeral or a list of pieces, and each such text is
    taken where nothing behind it goes on with it. */
module SyntaxLeaves {
  import opened Bytes
  import opened Json
  import opened Syntax
  import Utf8
  import R = ReaderSpec

  lemma HoldsJoin(s: Text, i: nat, a: Text, b: Text)
    requires Holds(s, i, a) && Holds(s, i + |a|, b)
    ensures Holds(s, i, a + b)
  {
    assert s[i..i + |a| + |b|] == s[i..i + |a|] + s[i + |a|..i + |a| + |b|];
  }

  lemma HoldsOne(s: Text, i: nat, c: Byte)
    ensures Holds(s, i, [c]) <==> i < |s| && s[i] == c
    ensures c != NUL ==> (Holds(s, i, [c]) <==> Peek(s, i) == c)
  {
    if i < |s| { assert s[i..i + 1] == [s[i]]; }
  }

  lemma HoldsHead(s: Text, i: nat, t: Text)
    requires t != [] && Holds(s, i, t)
    ensures i < |s| && s[i] == t[0] && Peek(s, i) == t[0] && Holds(s, i + 1, t[1..])
  {
    assert t == [t[0]] + t[1..];
    HoldsSplit(s, i, [t[0]], t[1..]);
    HoldsOne(s, i, t[0]);
  }

  lemma HoldsCons(s: Text, i: nat, t: Text)
    requires i < |s| && Holds(s, i + 1, t)
    ensures Holds(s, i, [s[i]] + t)
  {
    HoldsOne(s, i, s[i]);
    HoldsJoin(s, i, [s[i]], t);
  }

  // ---------- gaps ----------

  lemma {:induction false} BlockEndIs(s: Text, i: nat, body: Text)
    requires Holds(s, i, body + [STAR, SLASH]) && forall k :: 0 <= k < |body| ==> body[k] != NUL
    requires forall k :: 0 <= k < |body| - 1 ==> !(body[k] == STAR && body[k + 1] == SLASH)
    ensures R.BlockEnd(s, i) == Some(i + |body| + 2)
    decreases |body|
  {
    var t := body + [STAR, SLASH];
    HoldsPeek(s, i, t, 0);
    HoldsPeek(s, i, t, 1);
    if body != [] {
      assert t[1..] == body[1..] + [STAR, SLASH];
      HoldsHead(s, i, t);
      BlockEndIs(s, i + 1, body[1..]);
    }
  }

  lemma {:induction false} LineEndIs(s: Text, i: nat, body: Text, ended: bool)
    requires Holds(s, i, body + if ended then [LINE_FEED] else [])
    requires forall k :: 0 <= k < |body| ==> body[k] != NUL && body[k] != LINE_FEED
    requires !ended ==> Peek(s, i + |body|) == NUL
    ensures R.LineEnd(s, i) == i + |body| + if ended then 1 else 0
    decreases |body|
  {
    var t := body + if ended then [LINE_FEED] else [];
    if body != [] {
      assert t[1..] == body[1..] + if ended then [LINE_FEED] else [];
      HoldsHead(s, i, t);
      LineEndIs(s, i + 1, body[1..], ended);
    } else if ended {
      HoldsHead(s, i, t);
    }
  }

  /** Skipping begins with a blank, a block comment or a line comment, or is at its end. */
  lemma SkipStep(f: R.Flags, s: Text, i: nat)
    requires i <= |s|
    ensures IsSpace(Peek(s, i)) ==> i < |s| && R.Skip(f, s, i) == R.Skip(f, s, i + 1)
    ensures f.comments && Peek(s, i) == SLASH && Peek(s, i + 1) == STAR ==>
              i + 2 <= |s| &&
              R.Skip(f, s, i) == match R.BlockEnd(s, i + 2) case None => None case Some(j) => R.Skip(f, s, j)
    ensures f.comments && Peek(s, i) == SLASH && Peek(s, i + 1) == SLASH ==>
              i + 2 <= |s| && R.Skip(f, s, i) == R.Skip(f, s, R.LineEnd(s, i + 2))
    ensures f.comments && Peek(s, i) == SLASH && Peek(s, i + 1) != STAR && Peek(s, i + 1) != SLASH ==>
              R.Skip(f, s, i) == None
    ensures !IsSpace(Peek(s, i)) && (f.comments ==> Peek(s, i) != SLASH) ==> R.Skip(f, s, i) == Some(i)
  {
  }

  /** Where skipping stops. */
  predicate Solid(f: R.Flags, c: Byte) {
    !IsSpace(c) && (f.comments ==> c != SLASH)
  }

  predicate Open(g: Gap) {
    g != [] && !Finished(g[|g| - 1])
  }

  lemma GapUnfold(f: R.Flags, g: Gap)
    requires GapOk(f, g) && g != []
    ensures GapText(g) == SkippedText(g[0]) + GapText(g[1..]) && SkippedOk(f, g[0]) && GapOk(f, g[1..])
    ensures |g| > 1 ==> Finished(g[0]) && (Open(g) <==> Open(g[1..]))
    ensures |g| == 1 ==> GapText(g[1..]) == [] && (Open(g) <==> !Finished(g[0]))
  {
  }

  lemma {:induction false} GapSkips(f: R.Flags, s: Text, i: nat, g: Gap)
    requires GapOk(f, g) && Holds(s, i, GapText(g)) && Solid(f, Peek(s, i + |GapText(g)|))
    requires Open(g) ==> Peek(s, i + |GapText(g)|) == NUL
    ensures i + |GapText(g)| <= |s| && R.Skip(f, s, i) == Some(i + |GapText(g)|)
    decreases |g|
  {
    hide *;
    HoldsFits(s, i, GapText(g));
    if g == [] {
      EmptyGap(f, s, i);
      SolidStays(f, s, i);
    } else {
      GapUnfold(f, g);
      var first := SkippedText(g[0]);
      HoldsSplit(s, i, first, GapText(g[1..]));
      if |g| == 1 { EmptyGap(f, s, i + |first|); }
      SkippedTaken(f, s, i, g[0]);
      if |g| == 1 { assert g[1..] == []; }
      GapSkips(f, s, i + |first|, g[1..]);
    }
  }

  lemma HoldsFits(s: Text, i: nat, t: Text)
    requires Holds(s, i, t)
    ensures i + |t| <= |s|
  {
  }

  lemma SolidStays(f: R.Flags, s: Text, i: nat)
    requires i <= |s| && Solid(f, Peek(s, i))
    ensures R.Skip(f, s, i) == Some(i)
  {
    hide R.Skip;
    SkipStep(f, s, i);
  }

  /** One blank or comment is passed. */
  lemma SkippedTaken(f: R.Flags, s: Text, i: nat, g: Skipped)
    requires SkippedOk(f, g) && Holds(s, i, SkippedText(g))
    requires !Finished(g) ==> Peek(s, i + |SkippedText(g)|) == NUL
    ensures i + |SkippedText(g)| <= |s| && R.Skip(f, s, i) == R.Skip(f, s, i + |SkippedText(g)|)
  {
    hide R.Skip, R.BlockEnd, R.LineEnd, Holds, Peek;
    HoldsFits(s, i, SkippedText(g));
    match g
    case Blank(c) =>
      HoldsHead(s, i, [c]);
      SkipStep(f, s, i);
    case Block(body) =>
      assert SkippedText(g) == [SLASH, STAR] + (body + [STAR, SLASH]);
      OpensWith(s, i, STAR, body + [STAR, SLASH]);
      BlockEndIs(s, i + 2, body);
      SkipStep(f, s, i);
    case Line(body, ended) =>
      assert SkippedText(g) == [SLASH, SLASH] + (body + if ended then [LINE_FEED] else []);
      OpensWith(s, i, SLASH, body + if ended then [LINE_FEED] else []);
      LineEndIs(s, i + 2, body, ended);
      SkipStep(f, s, i);
  }

  lemma OpensWith(s: Text, i: nat, c: Byte, rest: Text)
    requires Holds(s, i, [SLASH, c] + rest)
    ensures Peek(s, i) == SLASH && Peek(s, i + 1) == c && Holds(s, i + 2, rest)
  {
    HoldsSplit(s, i, [SLASH, c], rest);
    HoldsPeek(s, i, [SLASH, c], 0);
    HoldsPeek(s, i, [SLASH, c], 1);
  }

  lemma {:induction false} BlockGives(s: Text, i: nat) returns (body: Text)
    requires i <= |s| && R.BlockEnd(s, i).Some?
    ensures R.BlockEnd(s, i) == Some(i + |body| + 2) && Holds(s, i, body + [STAR, SLASH])
    ensures forall k :: 0 <= k < |body| ==> body[k] != NUL
    ensures forall k :: 0 <= k < |body| - 1 ==> !(body[k] == STAR && body[k + 1] == SLASH)
    decreases |s| - i
  {
    if Peek(s, i) == STAR && Peek(s, i + 1) == SLASH {
      body := [];
      assert s[i..i + 2] == [STAR, SLASH];
    } else {
      var rest := BlockGives(s, i + 1);
      body := [s[i]] + rest;
      HoldsCons(s, i, rest + [STAR, SLASH]);
      assert [s[i]] + (rest + [STAR, SLASH]) == body + [STAR, SLASH];
      if rest != [] { HoldsPeek(s, i + 1, rest + [STAR, SLASH], 0); }
    }
  }

  lemma {:induction false} LineGives(s: Text, i: nat) returns (body: Text, ended: bool)
    requires i <= |s|
    ensures var t := body + if ended then [LINE_FEED] else []; Holds(s, i, t) && R.LineEnd(s, i) == i + |t|
    ensures forall k :: 0 <= k < |body| ==> body[k] != NUL && body[k] != LINE_FEED
    ensures !ended ==> Peek(s, i + |body|) == NUL
    decreases |s| - i
  {
    if Peek(s, i) == NUL {
      body, ended := [], false;
      assert s[i..i] == [];
    } else if Peek(s, i) == LINE_FEED {
      body, ended := [], true;
      HoldsOne(s, i, LINE_FEED);
      assert [] + [LINE_FEED] == [LINE_FEED];
    } else {
      var rest;
      rest, ended := LineGives(s, i + 1);
      var tail := if ended then [LINE_FEED] else [];
      body := [s[i]] + rest;
      HoldsCons(s, i, rest + tail);
      assert [s[i]] + (rest + tail) == body + tail;
    }
  }

  lemma GapCons(f: R.Flags, g: Skipped, rest: Gap)
    requires SkippedOk(f, g) && GapOk(f, rest) && (rest != [] ==> Finished(g))
    ensures GapOk(f, [g] + rest) && GapText([g] + rest) == SkippedText(g) + GapText(rest)
    ensures Open([g] + rest) <==> if rest == [] then !Finished(g) else Open(rest)
  {
    assert ([g] + rest)[1..] == rest;
  }

  /** What is skipped first. */
  lemma FirstSkipped(f: R.Flags, s: Text, i: nat) returns (g: Skipped)
    requires i <= |s| && R.Skip(f, s, i).Some? && !Solid(f, Peek(s, i))
    ensures SkippedOk(f, g) && Holds(s, i, SkippedText(g)) && i + |SkippedText(g)| <= |s|
    ensures R.Skip(f, s, i) == R.Skip(f, s, i + |SkippedText(g)|)
    ensures !Finished(g) ==> Peek(s, i + |SkippedText(g)|) == NUL
  {
    hide R.Skip, R.BlockEnd, R.LineEnd, Holds;
    SkipStep(f, s, i);
    if IsSpace(Peek(s, i)) {
      g := Blank(s[i]);
      HoldsOne(s, i, s[i]);
    } else if Peek(s, i + 1) == STAR {
      var body := BlockGives(s, i + 2);
      g := Block(body);
      TwoThen(s, i, SLASH, STAR, body + [STAR, SLASH]);
      assert SkippedText(g) == [SLASH, STAR] + (body + [STAR, SLASH]);
      HoldsFits(s, i, SkippedText(g));
    } else {
      var body, ended := LineGives(s, i + 2);
      g := Line(body, ended);
      TwoThen(s, i, SLASH, SLASH, body + if ended then [LINE_FEED] else []);
      assert SkippedText(g) == [SLASH, SLASH] + (body + if ended then [LINE_FEED] else []);
      HoldsFits(s, i, SkippedText(g));
    }
  }

  lemma NulIsSolid(f: R.Flags)
    ensures Solid(f, NUL)
  {
  }

  /** Whatever is skipped is a gap. */
  lemma {:induction false} SkipGives(f: R.Flags, s: Text, i: nat) returns (g: Gap)
    requires i <= |s| && R.Skip(f, s, i).Some?
    ensures GapOk(f, g) && Holds(s, i, GapText(g)) && R.Skip(f, s, i) == Some(i + |GapText(g)|)
    ensures Solid(f, Peek(s, i + |GapText(g)|)) && (Open(g) ==> Peek(s, i + |GapText(g)|) == NUL)
    decreases |s| - i
  {
    hide *;
    if Solid(f, Peek(s, i)) {
      g := [];
      EmptyGap(f, s, i);
      SolidStays(f, s, i);
    } else {
      var first := FirstSkipped(f, s, i);
      var j := i + |SkippedText(first)|;
      if Finished(first) {
        var rest := SkipGives(f, s, j);
        g := [first] + rest;
        GapCons(f, first, rest);
        HoldsJoin(s, i, SkippedText(first), GapText(rest));
      } else {
        EmptyGap(f, s, j);
        NulIsSolid(f);
        SolidStays(f, s, j);
        g := [first] + [];
        GapCons(f, first, []);
        assert SkippedText(first) + [] == SkippedText(first);
      }
    }
  }

  lemma EmptyGap(f: R.Flags, s: Text, i: nat)
    requires i <= |s|
    ensures GapOk(f, []) && GapText([]) == [] && !Open([]) && Holds(s, i, [])
  {
    assert s[i..i] == [];
  }

  lemma TwoThen(s: Text, i: nat, a: Byte, b: Byte, t: Text)
    requires Peek(s, i) == a != NUL && Peek(s, i + 1) == b != NUL && Holds(s, i + 2, t)
    ensures Holds(s, i, [a, b] + t)
  {
    assert s[i..i + 2] == [a, b];
    HoldsJoin(s, i, [a, b], t);
  }

  // ---------- numbers ----------

  lemma {:induction false} DigitsTaken(s: Text, i: nat, d: Text)
    requires Holds(s, i, d) && AllDigits(d) && !IsDigit(Peek(s, i + |d|))
    ensures R.DigitsEnd(s, i) == i + |d|
    decreases |d|
  {
    if d != [] {
      HoldsHead(s, i, d);
      DigitsTaken(s, i + 1, d[1..]);
    }
  }

  lemma {:induction false} DigitsGive(s: Text, i: nat) returns (d: Text)
    requires i <= |s|
    ensures Holds(s, i, d) && AllDigits(d) && R.DigitsEnd(s, i) == i + |d| && !IsDigit(Peek(s, i + |d|))
    decreases |s| - i
  {
    d := [];
    if IsDigit(Peek(s, i)) {
      var rest := DigitsGive(s, i + 1);
      d := [s[i]] + rest;
      HoldsCons(s, i, rest);
    } else {
      assert s[i..i] == [];
    }
  }

  lemma DigitsHeld(s: Text, i: nat, d: Text)
    requires Holds(s, i, d) && AllDigits(d)
    ensures forall k :: i <= k < i + |d| ==> IsDigit(s[k])
  {
    assert forall k :: i <= k < i + |d| ==> s[k] == s[i..i + |d|][k - i];
  }

  lemma {:induction false} DecimalIsNatural(s: Text, i: nat, d: Text)
    requires Holds(s, i, d) && AllDigits(d) && forall k :: i <= k < i + |d| ==> IsDigit(s[k])
    ensures R.Decimal(s, i, i + |d|) == Natural(d)
    decreases |d|
  {
    if d != [] {
      var init, last := d[..|d| - 1], d[|d| - 1];
      assert d == init + [last];
      HoldsSplit(s, i, init, [last]);
      HoldsOne(s, i + |init|, last);
      DecimalIsNatural(s, i, init);
    }
  }

  /** An integer part: a zero, or digits with no digit behind them. */
  lemma IntegerTaken(s: Text, i: nat, d: Text)
    requires Holds(s, i, d) && AllDigits(d) && d != [] && (d[0] == 0x30 ==> |d| == 1)
    requires d == [0x30] || !IsDigit(Peek(s, i + |d|))
    ensures i + |d| <= |s| && R.IntegerEnd(s, i) == Some(i + |d|)
  {
    HoldsHead(s, i, d);
    if d[0] != 0x30 { DigitsTaken(s, i, d); }
  }

  lemma IntegerGives(s: Text, i: nat) returns (d: Text)
    requires i <= |s| && R.IntegerEnd(s, i).Some?
    ensures Holds(s, i, d) && AllDigits(d) && d != [] && (d[0] == 0x30 ==> |d| == 1)
    ensures d == [0x30] || !IsDigit(Peek(s, i + |d|))
    ensures R.IntegerEnd(s, i) == Some(i + |d|)
  {
    if Peek(s, i) == DIGIT_0 {
      d := [0x30];
      HoldsOne(s, i, DIGIT_0);
    } else {
      d := DigitsGive(s, i);
      HoldsHead(s, i, d);
    }
  }

  predicate FractionOk(fraction: Option<Text>) {
    fraction.Some? ==> fraction.value != [] && AllDigits(fraction.value)
  }

  lemma FractionTaken(s: Text, i: nat, fraction: Option<Text>)
    requires i <= |s| && FractionOk(fraction) && Holds(s, i, FractionText(fraction))
    requires if fraction.None? then Peek(s, i) != DOT else !IsDigit(Peek(s, i + |FractionText(fraction)|))
    ensures i + |FractionText(fraction)| <= |s| && R.FractionEnd(s, i) == Some(i + |FractionText(fraction)|)
  {
    match fraction
    case None =>
    case Some(d) =>
      HoldsSplit(s, i, [DOT], d);
      HoldsOne(s, i, DOT);
      HoldsHead(s, i + 1, d);
      DigitsTaken(s, i + 1, d);
  }

  lemma FractionGives(s: Text, i: nat) returns (fraction: Option<Text>)
    requires i <= |s| && R.FractionEnd(s, i).Some?
    ensures FractionOk(fraction) && Holds(s, i, FractionText(fraction))
    ensures if fraction.None? then Peek(s, i) != DOT else !IsDigit(Peek(s, i + |FractionText(fraction)|))
    ensures R.FractionEnd(s, i) == Some(i + |FractionText(fraction)|)
  {
    if Peek(s, i) != DOT {
      fraction := None;
      assert s[i..i] == [];
    } else {
      var d := DigitsGive(s, i + 1);
      fraction := Some(d);
      HoldsCons(s, i, d);
    }
  }

  predicate ExponentOk(exponent: Option<Exponent>) {
    exponent.Some? ==>
      && exponent.value.mark in {0x45, 0x65}
      && (exponent.value.sign.Some? ==> exponent.value.sign.value in {0x2B, 0x2D})
      && exponent.value.digits != [] && AllDigits(exponent.value.digits)
  }

  lemma ExponentTaken(s: Text, i: nat, exponent: Option<Exponent>)
    requires i <= |s| && ExponentOk(exponent) && Holds(s, i, ExponentText(exponent))
    requires if exponent.None? then Peek(s, i) !in {0x45, 0x65} else !IsDigit(Peek(s, i + |ExponentText(exponent)|))
    ensures i + |ExponentText(exponent)| <= |s| && R.ExponentEnd(s, i) == Some(i + |ExponentText(exponent)|)
  {
    hide Holds, Peek, R.DigitsEnd, AllDigits;
    HoldsFits(s, i, ExponentText(exponent));
    match exponent
    case None =>
    case Some(e) =>
      var sign := if e.sign.Some? then [e.sign.value] else [];
      ExponentPlaces(s, i, e, sign);
      ExponentStep(s, i, e, sign);
  }

  /** Where the parts of an exponent stand, and the byte its digits begin with. */
  lemma ExponentPlaces(s: Text, i: nat, e: Exponent, sign: Text)
    requires ExponentOk(Some(e)) && Holds(s, i, ExponentText(Some(e)))
    requires sign == if e.sign.Some? then [e.sign.value] else []
    requires !IsDigit(Peek(s, i + |ExponentText(Some(e))|))
    ensures i + 1 + |sign| <= |s| && |ExponentText(Some(e))| == 1 + |sign| + |e.digits|
    ensures Peek(s, i) == e.mark && (e.sign.Some? ==> Peek(s, i + 1) == e.sign.value)
    ensures IsDigit(Peek(s, i + 1 + |sign|)) && R.DigitsEnd(s, i + 1 + |sign|) == i + |ExponentText(Some(e))|
  {
    hide Holds, Peek, R.DigitsEnd;
    assert ExponentText(Some(e)) == [e.mark] + (sign + e.digits);
    HoldsSplit(s, i, [e.mark], sign + e.digits);
    HoldsHead(s, i, [e.mark]);
    HoldsSplit(s, i + 1, sign, e.digits);
    if e.sign.Some? { HoldsHead(s, i + 1, sign); }
    HoldsHead(s, i + 1 + |sign|, e.digits);
    DigitsTaken(s, i + 1 + |sign|, e.digits);
  }

  lemma ExponentStep(s: Text, i: nat, e: Exponent, sign: Text)
    requires i + 1 + |sign| <= |s| && sign == if e.sign.Some? then [e.sign.value] else []
    requires Peek(s, i) == e.mark && e.mark in {0x45, 0x65}
    requires e.sign.Some? ==> e.sign.value in {0x2B, 0x2D} && Peek(s, i + 1) == e.sign.value
    requires IsDigit(Peek(s, i + 1 + |sign|))
    ensures R.ExponentEnd(s, i) == Some(R.DigitsEnd(s, i + 1 + |sign|))
  {
    hide R.DigitsEnd, Peek;
  }

  lemma ExponentGives(s: Text, i: nat) returns (exponent: Option<Exponent>)
    requires i <= |s| && R.ExponentEnd(s, i).Some?
    ensures ExponentOk(exponent) && Holds(s, i, ExponentText(exponent))
    ensures if exponent.None? then Peek(s, i) !in {0x45, 0x65} else !IsDigit(Peek(s, i + |ExponentText(exponent)|))
    ensures R.ExponentEnd(s, i) == Some(i + |ExponentText(exponent)|)
  {
    hide *;
    var signed := Peek(s, i + 1) in {PLUS, MINUS};
    var sign := if signed then [Peek(s, i + 1)] else [];
    ExponentCases(s, i, sign);
    if !R.IsExponentMark(Peek(s, i)) {
      exponent := None;
      NoExponent(s, i);
    } else {
      var d := DigitsGive(s, i + 1 + |sign|);
      exponent := Some(Exponent(s[i], if signed then Some(s[i + 1]) else None, d));
      DigitsNotEmpty(s, i + 1 + |sign|, d);
      ExponentIs(exponent.value, d);
      ExponentHolds(s, i, exponent.value, sign);
    }
  }

  lemma NoExponent(s: Text, i: nat)
    requires i <= |s| && !R.IsExponentMark(Peek(s, i))
    ensures ExponentOk(None) && ExponentText(None) == [] && Holds(s, i, []) && Peek(s, i) !in {0x45, 0x65}
  {
    EmptyHeld(s, i);
  }

  lemma ExponentIs(e: Exponent, d: Text)
    requires e.digits == d != [] && AllDigits(d) && R.IsExponentMark(e.mark)
    requires e.sign.Some? ==> e.sign.value in {PLUS, MINUS}
    ensures ExponentOk(Some(e))
  {
  }

  /** The cases of an exponent's end, by the bytes shown. */
  lemma ExponentCases(s: Text, i: nat, sign: Text)
    requires i <= |s| && R.ExponentEnd(s, i).Some?
    requires sign == if Peek(s, i + 1) in {PLUS, MINUS} then [Peek(s, i + 1)] else []
    ensures R.IsExponentMark(Peek(s, i)) ==>
              && i < |s| && s[i] == Peek(s, i) && (sign != [] ==> i + 1 < |s| && s[i + 1] == Peek(s, i + 1))
              && i + 1 + |sign| <= |s| && IsDigit(Peek(s, i + 1 + |sign|))
              && R.ExponentEnd(s, i) == Some(R.DigitsEnd(s, i + 1 + |sign|))
    ensures !R.IsExponentMark(Peek(s, i)) ==> R.ExponentEnd(s, i) == Some(i)
  {
    hide R.DigitsEnd;
  }

  lemma DigitsNotEmpty(s: Text, i: nat, d: Text)
    requires i <= |s| && Holds(s, i, d) && R.DigitsEnd(s, i) == i + |d|
    ensures IsDigit(Peek(s, i)) ==> d != []
  {
  }

  lemma ExponentHolds(s: Text, i: nat, e: Exponent, sign: Text)
    requires i < |s| && s[i] == e.mark && sign == if e.sign.Some? then [e.sign.value] else []
    requires e.sign.Some? ==> i + 1 < |s| && s[i + 1] == e.sign.value
    requires Holds(s, i + 1 + |sign|, e.digits)
    ensures Holds(s, i, ExponentText(Some(e))) && |ExponentText(Some(e))| == 1 + |sign| + |e.digits|
  {
    hide Holds;
    if e.sign.Some? { HoldsOne(s, i + 1, e.sign.value); } else { EmptyHeld(s, i + 1); }
    HoldsJoin(s, i + 1, sign, e.digits);
    HoldsCons(s, i, sign + e.digits);
    assert ExponentText(Some(e)) == [e.mark] + (sign + e.digits);
  }

  /** A number by the ends of its three parts. */
  lemma NumberByParts(f: R.Flags, s: Text, i: nat, n: Numeral, j: nat, k: nat, end: nat)
    requires NumeralOk(n) && i <= |s| && (Peek(s, i) == MINUS <==> n.minus)
    requires var start := if n.minus then i + 1 else i;
             && j == start + |n.digits| && k == j + |FractionText(n.fraction)| && end == k + |ExponentText(n.exponent)|
             && start <= |s| && R.IntegerEnd(s, start) == Some(j) && j <= |s| && R.FractionEnd(s, j) == Some(k)
             && k <= |s| && R.ExponentEnd(s, k) == Some(end) && Holds(s, start, n.digits)
    requires Holds(s, i, NumeralText(n)) && end == i + |NumeralText(n)|
    ensures R.Number(f, s, i) == match NumeralEvent(f, n)
                                 case None => None
                                 case Some(e) => Some(R.Literal(end, e))
  {
    hide *;
    var start := if n.minus then i + 1 else i;
    NumeralLength(n);
    DigitsHeld(s, start, n.digits);
    DecimalIsNatural(s, start, n.digits);
    TextHeld(s, i, NumeralText(n));
    NumberStep(f, s, i, n.minus, j, k, end);
    SameEvent(f, n, j, k, end);
  }

  lemma NumeralLength(n: Numeral)
    requires NumeralOk(n)
    ensures AllDigits(n.digits)
  {
  }

  /** What the reader makes of a number whose parts end at j, k and end. */
  lemma NumberStep(f: R.Flags, s: Text, i: nat, minus: bool, j: nat, k: nat, end: nat)
    requires i <= |s| && (Peek(s, i) == MINUS <==> minus)
    requires var start := if minus then i + 1 else i;
             && start <= |s| && R.IntegerEnd(s, start) == Some(j) && start <= j <= |s| && R.FractionEnd(s, j) == Some(k)
             && k <= |s| && R.ExponentEnd(s, k) == Some(end) && i <= end <= |s|
             && (forall m :: start <= m < j ==> IsDigit(s[m]))
    ensures var start := if minus then i + 1 else i;
            var exact := if end == j then R.IntegerEvent(minus, R.Decimal(s, start, j)) else None;
            R.Number(f, s, i) ==
            match (if exact.Some? then exact else R.DoubleEvent(f, s[i..end]))
            case None => None
            case Some(e) => Some(R.Literal(end, e))
  {
    hide R.IntegerEnd, R.FractionEnd, R.ExponentEnd, R.Decimal, R.IntegerEvent, R.DoubleEvent;
  }

  /** The reader's choice of event is that of the numeral. */
  lemma SameEvent(f: R.Flags, n: Numeral, j: nat, k: nat, end: nat)
    requires NumeralOk(n) && k == j + |FractionText(n.fraction)| && end == k + |ExponentText(n.exponent)|
    ensures var exact := if end == j then R.IntegerEvent(n.minus, Natural(n.digits)) else None;
            NumeralEvent(f, n) == if exact.Some? then exact else R.DoubleEvent(f, NumeralText(n))
  {
    hide NumeralText, Natural, FractionText, ExponentText;
    PartTexts(n);
  }

  lemma TextHeld(s: Text, i: nat, t: Text)
    requires Holds(s, i, t)
    ensures s[i..i + |t|] == t
  {
  }

  lemma NumeralParts(n: Numeral)
    ensures NumeralText(n) == IntegerText(n) + (FractionText(n.fraction) + ExponentText(n.exponent))
    ensures NumeralOk(n) ==> FractionOk(n.fraction) && ExponentOk(n.exponent)
    ensures |IntegerText(n)| == (if n.minus then 1 else 0) + |n.digits|
  {
  }

  lemma IntegerTextHolds(s: Text, i: nat, n: Numeral)
    requires n.digits != [] && AllDigits(n.digits)
    ensures Holds(s, i, IntegerText(n)) ==> (Peek(s, i) == MINUS <==> n.minus)
    ensures Holds(s, i, IntegerText(n)) <==>
            if n.minus then Peek(s, i) == MINUS && Holds(s, i + 1, n.digits) else Holds(s, i, n.digits)
  {
    HoldsOne(s, i, MINUS);
    if n.minus {
      if Holds(s, i, IntegerText(n)) { HoldsSplit(s, i, [MINUS], n.digits); }
      if Peek(s, i) == MINUS && Holds(s, i + 1, n.digits) { HoldsJoin(s, i, [MINUS], n.digits); }
    } else {
      assert [] + n.digits == n.digits;
      if Holds(s, i, n.digits) { HoldsHead(s, i, n.digits); }
    }
  }

  /** The parts of a number stand one after the other, and nothing goes on with any of them. */
  predicate PartsStand(s: Text, i: nat, n: Numeral) {
    var j := i + |IntegerText(n)|;
    var k := j + |FractionText(n.fraction)|;
    && Holds(s, i, IntegerText(n)) && Holds(s, j, FractionText(n.fraction)) && Holds(s, k, ExponentText(n.exponent))
    && PartsEnd(n, Peek(s, j), Peek(s, k), Peek(s, k + |ExponentText(n.exponent)|))
  }

  /** The bytes behind the digits, the fraction and the exponent. */
  predicate PartsEnd(n: Numeral, b1: Byte, b2: Byte, b3: Byte) {
    && (n.digits == [0x30] || !IsDigit(b1))
    && (if n.fraction.None? then b1 != DOT else !IsDigit(b2))
    && (if n.exponent.None? then b2 !in {0x45, 0x65} else !IsDigit(b3))
  }

  lemma EndsOfParts(n: Numeral, b1: Byte, b2: Byte, b3: Byte)
    requires NumeralOk(n)
    requires if n.fraction.Some? then b1 == DOT else b1 == b2
    requires if n.exponent.Some? then b2 == n.exponent.value.mark else b2 == b3
    ensures Bounded(n, b3) <==> PartsEnd(n, b1, b2, b3)
  {
  }

  /** The bytes at which the fraction and the exponent begin. */
  lemma PartsBegin(s: Text, i: nat, n: Numeral)
    requires var j := i + |IntegerText(n)|; var k := j + |FractionText(n.fraction)|;
             Holds(s, j, FractionText(n.fraction)) && Holds(s, k, ExponentText(n.exponent))
    ensures var j := i + |IntegerText(n)|; var k := j + |FractionText(n.fraction)|;
            && (if n.fraction.Some? then Peek(s, j) == DOT else j == k)
            && (if n.exponent.Some? then Peek(s, k) == n.exponent.value.mark else |ExponentText(n.exponent)| == 0)
  {
    hide IntegerText, FractionText, ExponentText, Holds, Peek;
    var j := i + |IntegerText(n)|;
    PartTexts(n);
    if n.fraction.Some? { HoldsHead(s, j, FractionText(n.fraction)); }
    if n.exponent.Some? { HoldsHead(s, j + |FractionText(n.fraction)|, ExponentText(n.exponent)); }
  }

  lemma PartTexts(n: Numeral)
    ensures if n.fraction.Some? then FractionText(n.fraction) != [] && FractionText(n.fraction)[0] == DOT
            else FractionText(n.fraction) == []
    ensures if n.exponent.Some?
            then ExponentText(n.exponent) != [] && ExponentText(n.exponent)[0] == n.exponent.value.mark
            else ExponentText(n.exponent) == []
  {
  }

  lemma StandIffBounded(s: Text, i: nat, n: Numeral)
    requires NumeralOk(n)
    ensures Holds(s, i, NumeralText(n)) && Bounded(n, Peek(s, i + |NumeralText(n)|)) <==> PartsStand(s, i, n)
    ensures |NumeralText(n)| == |IntegerText(n)| + |FractionText(n.fraction)| + |ExponentText(n.exponent)|
  {
    hide IntegerText, NumeralText, FractionText, ExponentText, Holds, Peek, PartsEnd, Bounded, NumeralOk;
    NumeralParts(n);
    var a, b, c := IntegerText(n), FractionText(n.fraction), ExponentText(n.exponent);
    var j, k := i + |a|, i + |a| + |b|;
    if Holds(s, i, NumeralText(n)) {
      HoldsSplit(s, i, a, b + c);
      HoldsSplit(s, j, b, c);
    }
    if Holds(s, i, a) && Holds(s, j, b) && Holds(s, k, c) {
      HoldsJoin(s, j, b, c);
      HoldsJoin(s, i, a, b + c);
      PartsBegin(s, i, n);
      EndsOfParts(n, Peek(s, j), Peek(s, k), Peek(s, k + |c|));
    }
  }

  /** A numeral is read as itself where nothing behind it goes on with it. */
  lemma NumeralReads(f: R.Flags, s: Text, i: nat, n: Numeral)
    requires NumeralOk(n) && Holds(s, i, NumeralText(n)) && Bounded(n, Peek(s, i + |NumeralText(n)|))
    ensures i < |s| && R.Number(f, s, i) == match NumeralEvent(f, n)
                                            case None => None
                                            case Some(e) => Some(R.Literal(i + |NumeralText(n)|, e))
  {
    hide NumeralText, FractionText, ExponentText, IntegerText, NumeralEvent, Bounded, R.Number, Holds;
    NumeralParts(n);
    StandIffBounded(s, i, n);
    IntegerTextHolds(s, i, n);
    var start := if n.minus then i + 1 else i;
    var j := start + |n.digits|;
    var k := j + |FractionText(n.fraction)|;
    IntegerTaken(s, start, n.digits);
    FractionTaken(s, j, n.fraction);
    ExponentTaken(s, k, n.exponent);
    NumberByParts(f, s, i, n, j, k, k + |ExponentText(n.exponent)|);
  }

  /** Whatever is read as a number is a numeral that nothing behind it goes on with. */
  lemma NumberGives(f: R.Flags, s: Text, i: nat) returns (n: Numeral)
    requires i <= |s| && R.Number(f, s, i).Some?
    ensures NumeralOk(n) && Holds(s, i, NumeralText(n)) && Bounded(n, Peek(s, i + |NumeralText(n)|))
    ensures NumeralEvent(f, n).Some?
    ensures R.Number(f, s, i) == Some(R.Literal(i + |NumeralText(n)|, NumeralEvent(f, n).value))
  {
    hide NumeralText, FractionText, ExponentText, IntegerText, NumeralEvent, Bounded, Holds;
    var minus := Peek(s, i) == MINUS;
    var start := if minus then i + 1 else i;
    hide R.IntegerEnd, R.FractionEnd, R.ExponentEnd;
    var digits := IntegerGives(s, start);
    var j := start + |digits|;
    var fraction := FractionGives(s, j);
    var k := j + |FractionText(fraction)|;
    var exponent := ExponentGives(s, k);
    n := Numeral(minus, digits, fraction, exponent);
    NumeralParts(n);
    IntegerTextHolds(s, i, n);
    StandIffBounded(s, i, n);
    NumberByParts(f, s, i, n, j, k, k + |ExponentText(exponent)|);
  }

  // ---------- strings ----------

  lemma SameDigit(c: Byte)
    ensures HexDigit(c) == R.HexDigit(c) && HexDigit(NUL) == None
  {
  }

  lemma HexReads(s: Text, i: nat, hex: Text)
    requires IsHex(hex) && Holds(s, i, hex)
    ensures R.Hex4(s, i) == Some(HexNumber(hex))
  {
    hide R.HexDigit, HexDigit, R.HexValue;
    HoldsPeek(s, i, hex, 0); HoldsPeek(s, i, hex, 1); HoldsPeek(s, i, hex, 2); HoldsPeek(s, i, hex, 3);
    SameDigit(hex[0]); SameDigit(hex[1]); SameDigit(hex[2]); SameDigit(hex[3]);
    R.HexDigits(s, i);
    assert Peek(s, i + 0) == Peek(s, i);
  }

  lemma HexGives(s: Text, i: nat) returns (hex: Text)
    requires R.Hex4(s, i).Some?
    ensures IsHex(hex) && Holds(s, i, hex) && R.Hex4(s, i) == Some(HexNumber(hex))
  {
    hide R.HexDigit, HexDigit, R.HexValue;
    R.HexDigits(s, i);
    hex := [Peek(s, i), Peek(s, i + 1), Peek(s, i + 2), Peek(s, i + 3)];
    SameDigit(hex[0]); SameDigit(hex[1]); SameDigit(hex[2]); SameDigit(hex[3]);
    assert s[i..i + 4] == hex;
  }

  lemma EscapeBegins(s: Text, i: nat, c: Byte, rest: Text)
    requires Holds(s, i, [BACKSLASH, c] + rest)
    ensures i < |s| && s[i] == BACKSLASH && Peek(s, i) == BACKSLASH && Peek(s, i + 1) == c && Holds(s, i + 2, rest)
  {
    HoldsSplit(s, i, [BACKSLASH, c], rest);
    HoldsPeek(s, i, [BACKSLASH, c], 0);
    HoldsPeek(s, i, [BACKSLASH, c], 1);
  }

  /** The code point of a \u escape. */
  lemma UnitReads(s: Text, i: nat, hex: Text)
    requires PieceOk(Unit(hex)) && Holds(s, i, hex)
    ensures R.UnicodeEscape(s, i) == Some(Utf8.Coded(i + 4, HexNumber(hex)))
  {
    hide R.Hex4, HexNumber;
    HexReads(s, i, hex);
  }

  lemma PairReads(s: Text, i: nat, high: Text, low: Text)
    requires PieceOk(Pair(high, low)) && Holds(s, i, high + ([BACKSLASH, LOWER_U] + low))
    ensures R.UnicodeEscape(s, i) ==
            Some(Utf8.Coded(i + 10, 0x10000 + (HexNumber(high) - 0xD800) * 0x400 + (HexNumber(low) - 0xDC00)))
  {
    hide R.Hex4, HexNumber, Holds, Peek;
    HoldsSplit(s, i, high, [BACKSLASH, LOWER_U] + low);
    EscapeBegins(s, i + 4, LOWER_U, low);
    HexReads(s, i, high);
    HexReads(s, i + 6, low);
    assert Peek(s, i + 5) == LOWER_U;
  }

  lemma BodyStep(s: Text, i: nat, acc: Text)
    requires i <= |s|
    ensures var c, e := Peek(s, i), Peek(s, i + 1);
            R.StringBody(s, i, acc) ==
            if c == BACKSLASH then
              if R.Unescape(e) != NUL then
                (if i + 2 <= |s| then R.StringBody(s, i + 2, acc + [R.Unescape(e)]) else None)
              else if e == LOWER_U then
                match R.UnicodeEscape(s, i + 2)
                case None => None
                case Some(u) => R.StringBody(s, u.pos, acc + Utf8.Encoding(u.codepoint))
              else None
            else if c == QUOTE then Some(R.Scanned(i + 1, acc))
            else if c < SPACE then None
            else (if i + 1 <= |s| then R.StringBody(s, i + 1, acc + [c]) else None)
  {
    hide R.UnicodeEscape, Utf8.Encoding;
  }

  lemma SameLetter(e: Byte)
    ensures Letter(e) == if R.Unescape(e) == NUL then None else Some(R.Unescape(e))
    ensures Letter(e).Some? ==> e != NUL && e != LOWER_U
  {
  }

  lemma PieceReads(s: Text, i: nat, p: Piece, acc: Text)
    requires PieceOk(p) && Holds(s, i, PieceText(p))
    ensures i + |PieceText(p)| <= |s|
    ensures R.StringBody(s, i, acc) == R.StringBody(s, i + |PieceText(p)|, acc + PieceBytes(p))
  {
    hide R.StringBody, R.UnicodeEscape, Utf8.Encoding, R.Unescape, Letter, Holds, Peek, HexNumber;
    HoldsFits(s, i, PieceText(p));
    BodyStep(s, i, acc);
    match p
    case Raw(c) => HoldsHead(s, i, [c]);
    case Short(letter) =>
      assert PieceText(p) == [BACKSLASH, letter] + [];
      EscapeBegins(s, i, letter, []);
      SameLetter(letter);
    case Unit(hex) =>
      EscapeBegins(s, i, LOWER_U, hex);
      SameLetter(LOWER_U);
      UnitReads(s, i + 2, hex);
    case Pair(high, low) =>
      assert PieceText(p) == [BACKSLASH, LOWER_U] + (high + ([BACKSLASH, LOWER_U] + low));
      EscapeBegins(s, i, LOWER_U, high + ([BACKSLASH, LOWER_U] + low));
      SameLetter(LOWER_U);
      PairReads(s, i + 2, high, low);
  }

  lemma PiecesUnfold(pieces: seq<Piece>)
    requires PiecesOk(pieces) && pieces != []
    ensures PieceOk(pieces[0]) && PiecesOk(pieces[1..])
    ensures PiecesText(pieces) == PieceText(pieces[0]) + PiecesText(pieces[1..])
    ensures PiecesBytes(pieces) == PieceBytes(pieces[0]) + PiecesBytes(pieces[1..])
  {
  }

  lemma {:induction false} PiecesRead(s: Text, i: nat, pieces: seq<Piece>, acc: Text)
    requires PiecesOk(pieces) && Holds(s, i, PiecesText(pieces) + [QUOTE])
    ensures i + |PiecesText(pieces)| + 1 <= |s|
    ensures R.StringBody(s, i, acc) == Some(R.Scanned(i + |PiecesText(pieces)| + 1, acc + PiecesBytes(pieces)))
    decreases |pieces|
  {
    hide R.StringBody, Holds, PieceText, PieceBytes, PiecesOk;
    HoldsFits(s, i, PiecesText(pieces) + [QUOTE]);
    if pieces == [] {
      assert PiecesText(pieces) + [QUOTE] == [QUOTE];
      HoldsHead(s, i, [QUOTE]);
      BodyStep(s, i, acc);
      assert acc + [] == acc;
    } else {
      PiecesUnfold(pieces);
      var first, rest := PieceText(pieces[0]), PiecesText(pieces[1..]) + [QUOTE];
      assert PiecesText(pieces) + [QUOTE] == first + rest;
      HoldsSplit(s, i, first, rest);
      PieceReads(s, i, pieces[0], acc);
      PiecesRead(s, i + |first|, pieces[1..], acc + PieceBytes(pieces[0]));
      assert acc + PieceBytes(pieces[0]) + PiecesBytes(pieces[1..]) == acc + PiecesBytes(pieces);
    }
  }

  lemma UnicodeGives(s: Text, i: nat) returns (p: Piece)
    requires Peek(s, i) == BACKSLASH && Peek(s, i + 1) == LOWER_U && R.UnicodeEscape(s, i + 2).Some?
    ensures PieceOk(p) && Holds(s, i, PieceText(p))
    ensures R.UnicodeEscape(s, i + 2).value.pos == i + |PieceText(p)|
    ensures Utf8.Encoding(R.UnicodeEscape(s, i + 2).value.codepoint) == PieceBytes(p)
  {
    hide Utf8.Encoding, HexNumber, R.Hex4, Holds;
    var high := HexGives(s, i + 2);
    if 0xD800 <= HexNumber(high) <= 0xDBFF {
      var low := HexGives(s, i + 8);
      p := Pair(high, low);
      TwoThen(s, i + 6, BACKSLASH, LOWER_U, low);
      HoldsJoin(s, i + 2, high, [BACKSLASH, LOWER_U] + low);
      TwoThen(s, i, BACKSLASH, LOWER_U, high + ([BACKSLASH, LOWER_U] + low));
      assert PieceText(p) == [BACKSLASH, LOWER_U] + (high + ([BACKSLASH, LOWER_U] + low));
    } else {
      p := Unit(high);
      TwoThen(s, i, BACKSLASH, LOWER_U, high);
    }
  }

  lemma PieceGives(s: Text, i: nat, acc: Text) returns (p: Piece)
    requires i <= |s| && R.StringBody(s, i, acc).Some? && Peek(s, i) != QUOTE
    ensures PieceOk(p) && Holds(s, i, PieceText(p)) && i + |PieceText(p)| <= |s|
    ensures R.StringBody(s, i, acc) == R.StringBody(s, i + |PieceText(p)|, acc + PieceBytes(p))
  {
    hide R.StringBody, R.UnicodeEscape, Utf8.Encoding, R.Unescape, Letter, Holds, HexNumber;
    BodyStep(s, i, acc);
    var c, e := Peek(s, i), Peek(s, i + 1);
    if c != BACKSLASH {
      p := Raw(c);
      HoldsOne(s, i, c);
    } else {
      SameLetter(e);
      if R.Unescape(e) != NUL {
        p := Short(e);
        EmptyHeld(s, i + 2);
        TwoThen(s, i, BACKSLASH, e, []);
        assert [BACKSLASH, e] + [] == [BACKSLASH, e];
      } else {
        p := UnicodeGives(s, i);
      }
    }
    HoldsFits(s, i, PieceText(p));
  }

  lemma EmptyHeld(s: Text, i: nat)
    requires i <= |s|
    ensures Holds(s, i, [])
  {
    assert s[i..i] == [];
  }

  lemma {:induction false} PiecesGive(s: Text, i: nat, acc: Text) returns (pieces: seq<Piece>)
    requires i <= |s| && R.StringBody(s, i, acc).Some?
    ensures PiecesOk(pieces) && Holds(s, i, PiecesText(pieces) + [QUOTE])
    ensures R.StringBody(s, i, acc) == Some(R.Scanned(i + |PiecesText(pieces)| + 1, acc + PiecesBytes(pieces)))
    decreases |s| - i
  {
    hide R.StringBody, Holds, PieceText, PieceBytes;
    if Peek(s, i) == QUOTE {
      pieces := [];
      BodyStep(s, i, acc);
      HoldsOne(s, i, QUOTE);
      assert [] + [QUOTE] == [QUOTE] && acc + [] == acc;
    } else {
      var first := PieceGives(s, i, acc);
      var rest := PiecesGive(s, i + |PieceText(first)|, acc + PieceBytes(first));
      pieces := [first] + rest;
      assert pieces[1..] == rest;
      PiecesUnfold(pieces);
      HoldsJoin(s, i, PieceText(first), PiecesText(rest) + [QUOTE]);
      assert PieceText(first) + (PiecesText(rest) + [QUOTE]) == PiecesText(pieces) + [QUOTE];
      assert acc + PieceBytes(first) + PiecesBytes(rest) == acc + PiecesBytes(pieces);
    }
  }

  function StringEvent(isKey: bool, bytes: Text): Event {
    if isKey then OnKey(bytes) else OnString(bytes)
  }

  /** A string stands in the text exactly where the reader takes one. */
  lemma StringReads(s: Text, c: R.Cursor, pieces: seq<Piece>, isKey: bool)
    requires PiecesOk(pieces) && Holds(s, c.pos, StringText(pieces))
    ensures c.pos < |s| && Peek(s, c.pos) == QUOTE && c.pos + |StringText(pieces)| <= |s|
    ensures R.StringAt(s, c, isKey) ==
            Some(R.Cursor(c.pos + |StringText(pieces)|, c.out + [StringEvent(isKey, PiecesBytes(pieces))]))
  {
    hide R.StringBody, PiecesText, PiecesBytes, PiecesOk;
    assert StringText(pieces) == [QUOTE] + (PiecesText(pieces) + [QUOTE]);
    HoldsSplit(s, c.pos, [QUOTE], PiecesText(pieces) + [QUOTE]);
    HoldsOne(s, c.pos, QUOTE);
    PiecesRead(s, c.pos + 1, pieces, []);
    assert [] + PiecesBytes(pieces) == PiecesBytes(pieces);
  }

  lemma StringGives(s: Text, c: R.Cursor, isKey: bool) returns (pieces: seq<Piece>)
    requires c.pos < |s| && s[c.pos] == QUOTE && R.StringAt(s, c, isKey).Some?
    ensures PiecesOk(pieces) && Holds(s, c.pos, StringText(pieces))
    ensures R.StringAt(s, c, isKey) ==
            Some(R.Cursor(c.pos + |StringText(pieces)|, c.out + [StringEvent(isKey, PiecesBytes(pieces))]))
  {
    hide R.StringBody, PiecesText, PiecesBytes, PiecesOk;
    pieces := PiecesGive(s, c.pos + 1, []);
    assert StringText(pieces) == [QUOTE] + (PiecesText(pieces) + [QUOTE]);
    HoldsOne(s, c.pos, QUOTE);
    HoldsJoin(s, c.pos, [QUOTE], PiecesText(pieces) + [QUOTE]);
    assert [] + PiecesBytes(pieces) == PiecesBytes(pieces);
  }
}
