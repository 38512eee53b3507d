/** Equality seen place by place. A path leads from a value through elements and members; it
    may pass any member of a name, while lookup only sees the first. Two values are equal
    exactly when whatever the left one has in a place is alike to what lookup finds there in
    the right one, and this decides where equality is reflexive, symmetric and transitive. */
module Coherence {
  import opened Bytes
  import opened Json
  import opened Equality

  datatype Move = At(k: nat) | Named(name: Text)

  /** w is met along the path, through members repeated or not. */
  ghost predicate Reaches(v: Value, path: seq<Move>, w: Value)
    decreases |path|
  {
    if path == [] then w == v
    else
      match path[0]
      case At(k) => v.Arr? && k < |v.elems| && Reaches(v.elems[k], path[1..], w)
      case Named(name) =>
        && v.Obj?
        && exists k :: 0 <= k < |v.members| && v.members[k].name == name
                       && Reaches(v.members[k].value, path[1..], w)
  }

  /** What lookup finds along the path. */
  function First(v: Value, path: seq<Move>): Option<Value>
    decreases |path|
  {
    if path == [] then Some(v)
    else
      match path[0]
      case At(k) => if v.Arr? && k < |v.elems| then First(v.elems[k], path[1..]) else None
      case Named(name) =>
        if v.Obj? && FindMember(v.members, name) < |v.members| then
          First(v.members[FindMember(v.members, name)].value, path[1..])
        else None
  }

  /** Every value met on the left is alike to the one that lookup finds there on the right. */
  ghost predicate AlikeThroughout(round: int -> real, a: Value, b: Value) {
    forall path, w :: Reaches(a, path, w) ==> First(b, path).Some? && Alike(round, w, First(b, path).value)
  }

  // ---------- equality is likeness in every place ----------

  lemma {:induction false} FirstIsReached(v: Value, path: seq<Move>)
    requires First(v, path).Some?
    ensures Reaches(v, path, First(v, path).value)
    decreases |path|
  {
    if path != [] {
      match path[0]
      case At(k) => FirstIsReached(v.elems[k], path[1..]);
      case Named(name) => FirstIsReached(v.members[FindMember(v.members, name)].value, path[1..]);
    }
  }

  lemma {:induction false} EqualAlong(round: int -> real, a: Value, b: Value, path: seq<Move>, w: Value)
    requires Equal(round, a, b) && Reaches(a, path, w)
    ensures First(b, path).Some? && Alike(round, w, First(b, path).value)
    decreases |path|
  {
    if path != [] {
      match path[0]
      case At(k) => EqualAlong(round, a.elems[k], b.elems[k], path[1..], w);
      case Named(name) =>
        var k :| 0 <= k < |a.members| && a.members[k].name == name && Reaches(a.members[k].value, path[1..], w);
        assert Matched(round, a.members[k], b.members);
        EqualAlong(round, a.members[k].value, b.members[FindMember(b.members, name)].value, path[1..], w);
    }
  }

  /** One move in front of a path. */
  lemma MoveAt(v: Value, k: nat, path: seq<Move>, w: Value)
    requires v.Arr? && k < |v.elems|
    ensures First(v, [At(k)] + path) == First(v.elems[k], path)
    ensures Reaches(v.elems[k], path, w) ==> Reaches(v, [At(k)] + path, w)
  {
    assert ([At(k)] + path)[1..] == path;
  }

  lemma MoveNamed(v: Value, name: Text, path: seq<Move>)
    requires v.Obj?
    ensures var j := FindMember(v.members, name);
            First(v, [Named(name)] + path) == if j < |v.members| then First(v.members[j].value, path) else None
  {
    assert ([Named(name)] + path)[1..] == path;
  }

  lemma MoveThrough(v: Value, k: nat, path: seq<Move>, w: Value)
    requires v.Obj? && k < |v.members| && Reaches(v.members[k].value, path, w)
    ensures Reaches(v, [Named(v.members[k].name)] + path, w)
  {
    assert ([Named(v.members[k].name)] + path)[1..] == path;
  }

  lemma {:induction false} AlikeThroughoutEqual(round: int -> real, a: Value, b: Value)
    requires AlikeThroughout(round, a, b)
    ensures Equal(round, a, b)
    decreases a
  {
    assert Reaches(a, [], a);
    match (a, b)
    case (Arr(xs), Arr(ys)) =>
      forall k | 0 <= k < |xs| ensures Equal(round, xs[k], ys[k]) {
        ElementsAlike(round, a, b, k);
        AlikeThroughoutEqual(round, xs[k], ys[k]);
      }
    case (Obj(ms), Obj(ns)) =>
      forall k | 0 <= k < |ms| ensures Matched(round, ms[k], ns) {
        MembersAlike(round, a, b, k);
        AlikeThroughoutEqual(round, ms[k].value, ns[FindMember(ns, ms[k].name)].value);
      }
    case _ =>
  }

  lemma ElementsAlike(round: int -> real, a: Value, b: Value, k: nat)
    requires AlikeThroughout(round, a, b) && a.Arr? && b.Arr? && k < |a.elems| == |b.elems|
    ensures AlikeThroughout(round, a.elems[k], b.elems[k])
  {
    hide Reaches, First, Alike;
    forall path, w | Reaches(a.elems[k], path, w)
      ensures First(b.elems[k], path).Some? && Alike(round, w, First(b.elems[k], path).value)
    {
      MoveAt(a, k, path, w);
      MoveAt(b, k, path, w);
    }
  }

  lemma MembersAlike(round: int -> real, a: Value, b: Value, k: nat)
    requires AlikeThroughout(round, a, b) && a.Obj? && b.Obj? && k < |a.members|
    ensures var j := FindMember(b.members, a.members[k].name);
            j < |b.members| && AlikeThroughout(round, a.members[k].value, b.members[j].value)
  {
    hide Reaches, First, Alike, FindMember;
    var m, j := a.members[k], FindMember(b.members, a.members[k].name);
    ReachesItself(m.value);
    MoveThrough(a, k, [], m.value);
    MoveNamed(b, m.name, []);
    forall path, w | Reaches(m.value, path, w)
      ensures First(b.members[j].value, path).Some? && Alike(round, w, First(b.members[j].value, path).value)
    {
      MoveThrough(a, k, path, w);
      MoveNamed(b, m.name, path);
    }
  }

  lemma ReachesItself(v: Value)
    ensures Reaches(v, [], v) && First(v, []) == Some(v)
  {
  }

  /** For all values, repeated names and doubles included. */
  lemma EqualIffAlikeThroughout(round: int -> real, a: Value, b: Value)
    ensures Equal(round, a, b) <==> AlikeThroughout(round, a, b)
  {
    if Equal(round, a, b) {
      forall path, w | Reaches(a, path, w)
        ensures First(b, path).Some? && Alike(round, w, First(b, path).value)
      {
        EqualAlong(round, a, b, path, w);
      }
    }
    if AlikeThroughout(round, a, b) {
      AlikeThroughoutEqual(round, a, b);
    }
  }

  // ---------- reflexive ----------

  /** Whatever repeated members hold in a place is alike to what the first ones hold there. */
  ghost predicate Coherent(round: int -> real, v: Value) {
    AlikeThroughout(round, v, v)
  }

  lemma ReflexiveIffCoherent(round: int -> real, v: Value)
    ensures Equal(round, v, v) <==> Coherent(round, v)
  {
    EqualIffAlikeThroughout(round, v, v);
  }

  lemma {:induction false} UniquePlaces(v: Value, path: seq<Move>, w: Value)
    requires Unique(v) && Reaches(v, path, w)
    ensures First(v, path) == Some(w)
    decreases |path|
  {
    if path != [] {
      match path[0]
      case At(k) => UniquePlaces(v.elems[k], path[1..], w);
      case Named(name) =>
        var k :| 0 <= k < |v.members| && v.members[k].name == name && Reaches(v.members[k].value, path[1..], w);
        FirstIsOnly(v.members, k);
        UniquePlaces(v.members[k].value, path[1..], w);
    }
  }

  /** Without repeated names a value is coherent: each place holds one value. */
  lemma UniqueIsCoherent(round: int -> real, v: Value)
    requires Unique(v)
    ensures Coherent(round, v)
  {
    forall path, w | Reaches(v, path, w) ensures First(v, path).Some? && Alike(round, w, First(v, path).value) {
      UniquePlaces(v, path, w);
    }
  }

  // ---------- transitive ----------

  /** Numbers met on the left are alike to numbers found there on the right. */
  ghost predicate NumbersAlike(round: int -> real, a: Value, b: Value) {
    forall path, w :: Reaches(a, path, w) && IsNumber(w) && First(b, path).Some? && IsNumber(First(b, path).value) ==>
      Alike(round, w, First(b, path).value)
  }

  /** The one-level test is transitive but for numbers, where rounding comes between. */
  lemma AlikeChain(round: int -> real, u: Value, v: Value, w: Value)
    requires Alike(round, u, v) && Alike(round, v, w)
    ensures IsNumber(u) == IsNumber(w) && (!IsNumber(u) ==> Alike(round, u, w))
    ensures !u.Double? && !v.Double? && !w.Double? ==> Alike(round, u, w)
  {
  }

  /** For all values: a chain of two equalities closes unless two numbers in one place are not
      alike. */
  lemma TransitiveIff(round: int -> real, a: Value, b: Value, c: Value)
    requires Equal(round, a, b) && Equal(round, b, c)
    ensures Equal(round, a, c) <==> NumbersAlike(round, a, c)
  {
    hide Reaches, First, Alike, Equal;
    EqualIffAlikeThroughout(round, a, b);
    EqualIffAlikeThroughout(round, b, c);
    EqualIffAlikeThroughout(round, a, c);
    if NumbersAlike(round, a, c) {
      forall path, w | Reaches(a, path, w) ensures First(c, path).Some? && Alike(round, w, First(c, path).value) {
        FirstIsReached(b, path);
        AlikeChain(round, w, First(b, path).value, First(c, path).value);
      }
    }
  }

  lemma {:induction false} PlacesDoubleFree(v: Value, path: seq<Move>, w: Value)
    requires DoubleFree(v) && Reaches(v, path, w)
    ensures !w.Double?
    decreases |path|
  {
    if path != [] {
      match path[0]
      case At(k) => PlacesDoubleFree(v.elems[k], path[1..], w);
      case Named(name) =>
        var k :| 0 <= k < |v.members| && v.members[k].name == name && Reaches(v.members[k].value, path[1..], w);
        PlacesDoubleFree(v.members[k].value, path[1..], w);
    }
  }

  /** Without doubles it always closes, repeated names or not. */
  lemma TransitiveOnDoubleFree(round: int -> real, a: Value, b: Value, c: Value)
    requires DoubleFree(a) && DoubleFree(b) && DoubleFree(c) && Equal(round, a, b) && Equal(round, b, c)
    ensures Equal(round, a, c)
  {
    hide Reaches, First, Alike, Equal, DoubleFree;
    EqualIffAlikeThroughout(round, a, b);
    EqualIffAlikeThroughout(round, b, c);
    EqualIffAlikeThroughout(round, a, c);
    forall path, w | Reaches(a, path, w) ensures First(c, path).Some? && Alike(round, w, First(c, path).value) {
      FirstIsReached(b, path);
      FirstIsReached(c, path);
      PlacesDoubleFree(a, path, w);
      PlacesDoubleFree(b, path, First(b, path).value);
      PlacesDoubleFree(c, path, First(c, path).value);
      AlikeChain(round, w, First(b, path).value, First(c, path).value);
    }
  }

  /** With doubles it may not: two integers with the same double between them. */
  lemma RoundingBreaksChain(round: int -> real, m: int, n: int)
    requires round(m) == round(n) && Word64(m) != Word64(n)
    ensures Equal(round, Num(m), Double(round(m))) && Equal(round, Double(round(m)), Num(n))
    ensures !Equal(round, Num(m), Num(n))
  {
  }

  // ---------- symmetric ----------

  /** Every place that lookup finds on the right is found on the left. */
  ghost predicate PlacesBack(a: Value, b: Value) {
    forall path :: First(b, path).Some? ==> First(a, path).Some?
  }

  lemma AlikeBack(round: int -> real, u: Value, v: Value)
    requires Alike(round, u, v)
    ensures Alike(round, v, u)
  {
  }

  /** For double-free values, repeated names or not, on either side. */
  lemma SymmetricIff(round: int -> real, a: Value, b: Value)
    requires DoubleFree(a) && DoubleFree(b) && Equal(round, a, b)
    ensures Equal(round, b, a) <==> Coherent(round, b) && PlacesBack(a, b)
  {
    hide Reaches, First, Alike, Equal, DoubleFree;
    EqualIffAlikeThroughout(round, a, b);
    EqualIffAlikeThroughout(round, b, a);
    EqualIffAlikeThroughout(round, b, b);
    if Equal(round, b, a) {
      TransitiveOnDoubleFree(round, b, a, b);
      forall path | First(b, path).Some? ensures First(a, path).Some? {
        FirstIsReached(b, path);
      }
    }
    if Coherent(round, b) && PlacesBack(a, b) {
      forall path, w | Reaches(b, path, w) ensures First(a, path).Some? && Alike(round, w, First(a, path).value) {
        var x, y := First(a, path).value, First(b, path).value;
        FirstIsReached(a, path);
        FirstIsReached(b, path);
        AlikeBack(round, x, y);
        PlacesDoubleFree(a, path, x);
        PlacesDoubleFree(b, path, y);
        PlacesDoubleFree(b, path, w);
        AlikeChain(round, w, y, x);
      }
    }
  }

  /** Counting names: what equals a value without repeated names is equal to it in turn,
      doubles or not. */
  lemma {:induction false} UniqueGoesBack(round: int -> real, a: Value, b: Value)
    requires Unique(a) && Equal(round, a, b)
    ensures Equal(round, b, a)
    decreases a
  {
    match (a, b)
    case (Arr(xs), Arr(ys)) =>
      forall k | 0 <= k < |ys| ensures Equal(round, ys[k], xs[k]) { UniqueGoesBack(round, xs[k], ys[k]); }
    case (Obj(ms), Obj(ns)) =>
      MatchedNames(round, ms, ns);
      SameNames(ms, ns);
      forall k | 0 <= k < |ns| ensures Matched(round, ns[k], ms) {
        var j := Partner(round, ms, ns, k);
        UniqueGoesBack(round, ms[j].value, ns[k].value);
      }
    case _ =>
  }

  /** If one operand has no repeated names, the other way round holds exactly when neither has. */
  lemma SymmetricIffUnique(round: int -> real, a: Value, b: Value)
    requires Equal(round, a, b) && (Unique(a) || Unique(b))
    ensures Equal(round, b, a) <==> Unique(a) && Unique(b)
  {
    if Unique(a) {
      EqualKeepsUnique(round, a, b);
      UniqueGoesBack(round, a, b);
    } else if Equal(round, b, a) {
      EqualKeepsUnique(round, b, a);
      assert false;
    }
  }

  // ---------- where it fails ----------

  /** With repeated names an object may equal itself and another that does not equal it back. */
  lemma RepeatedNamesMayBeEqual(round: int -> real, x: Text, y: Text)
    requires x != y
    ensures var a, b := Obj([Member(x, Null), Member(x, Null)]), Obj([Member(x, Null), Member(y, Null)]);
            Equal(round, a, a) && Equal(round, a, b) && !Equal(round, b, a)
  {
    var ms, ns := [Member(x, Null), Member(x, Null)], [Member(x, Null), Member(y, Null)];
    assert Matched(round, ms[0], ms) && Matched(round, ms[0], ns);
    NotNamed(ms, y);
    assert !Matched(round, ns[1], ms);
  }

  /** The other may have repeated names as well. */
  lemma BothMayRepeat(round: int -> real, x: Text, y: Text)
    requires x != y
    ensures var a, b := Obj([Member(x, Null), Member(x, Null), Member(x, Null)]),
                        Obj([Member(x, Null), Member(y, Null), Member(y, Null)]);
            Equal(round, a, b) && !Equal(round, b, a) && !Unique(a) && !Unique(b)
  {
    var ms := [Member(x, Null), Member(x, Null), Member(x, Null)];
    var ns := [Member(x, Null), Member(y, Null), Member(y, Null)];
    assert Matched(round, ms[0], ns);
    NotNamed(ms, y);
    assert !Matched(round, ns[1], ms);
    assert ms[0].name == ms[1].name && ns[1].name == ns[2].name;
  }

  lemma NotNamed(members: seq<Member>, name: Text)
    requires forall k :: 0 <= k < |members| ==> members[k].name != name
    ensures FindMember(members, name) == |members|
  {
  }

  lemma RepeatedNamesMayDifferFromThemselves(round: int -> real, x: Text)
    ensures var v := Obj([Member(x, Null), Member(x, Bool(true))]); !Equal(round, v, v)
  {
    var ms := [Member(x, Null), Member(x, Bool(true))];
    assert !Matched(round, ms[1], ms);
  }
}
