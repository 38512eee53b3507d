/** What a pointer does to a value: Get resolves it, Create makes it resolve. A reference into
    the tree is a location, the child positions on the way from the root. */
module PointerAccess {
  import opened Bytes
  import opened Json
  import opened PointerSpec
  import opened Equality

  type Location = seq<nat>

  // ---------- children and locations ----------

  function ChildCount(v: Value): nat {
    match v
    case Arr(elems) => |elems|
    case Obj(members) => |members|
    case _ => 0
  }

  function Child(v: Value, k: nat): Value
    requires k < ChildCount(v)
  {
    match v
    case Arr(elems) => elems[k]
    case Obj(members) => members[k].value
  }

  /** The name a child is stored under; elements have none. */
  function ChildName(v: Value, k: nat): Option<Text>
    requires k < ChildCount(v)
  {
    if v.Obj? then Some(v.members[k].name) else None
  }

  function PutChild(v: Value, k: nat, w: Value): (r: Value)
    requires k < ChildCount(v)
    ensures ChildCount(r) == ChildCount(v) && Child(r, k) == w
    ensures forall j :: 0 <= j < ChildCount(v) && j != k ==> Child(r, j) == Child(v, j)
    ensures forall j :: 0 <= j < ChildCount(v) ==> ChildName(r, j) == ChildName(v, j)
    ensures r.Arr? == v.Arr? && r.Obj? == v.Obj?
  {
    match v
    case Arr(elems) => Arr(elems[k := w])
    case Obj(members) => Obj(members[k := Member(members[k].name, w)])
  }

  predicate Exists(v: Value, p: Location) {
    p == [] || (p[0] < ChildCount(v) && Exists(Child(v, p[0]), p[1..]))
  }

  function Lookup(v: Value, p: Location): Value
    requires Exists(v, p)
  {
    if p == [] then v else Lookup(Child(v, p[0]), p[1..])
  }

  /** The name that the last step of a location goes by. */
  function Label(v: Value, p: Location): Option<Text>
    requires Exists(v, p)
  {
    if p == [] then None
    else if |p| == 1 then ChildName(v, p[0])
    else Label(Child(v, p[0]), p[1..])
  }

  function Put(v: Value, p: Location, w: Value): Value
    requires Exists(v, p)
  {
    if p == [] then w else PutChild(v, p[0], Put(Child(v, p[0]), p[1..], w))
  }

  // ---------- Get ----------

  /** The child a token leads to. */
  function Find(v: Value, t: Token): (r: Option<nat>)
    ensures r.Some? ==> r.value < ChildCount(v)
  {
    match v
    case Obj(members) =>
      var k := FindMember(members, t.name);
      if k == |members| then None else Some(k)
    case Arr(elems) => if t.index == INVALID_INDEX || t.index >= |elems| then None else Some(t.index)
    case _ => None
  }

  function Resolve(v: Value, tokens: seq<Token>): (r: Option<Location>)
    ensures r.Some? ==> Exists(v, r.value)
  {
    if tokens == [] then Some([])
    else
      match Find(v, tokens[0])
      case None => None
      case Some(k) =>
        match Resolve(Child(v, k), tokens[1..])
        case None => None
        case Some(p) => Some([k] + p)
  }

  // ---------- Create ----------

  predicate IsDash(t: Token) {
    t.name == [MINUS]
  }

  /** "-" on an array stands for the element after the last. */
  predicate Appends(v: Value, t: Token) {
    v.Arr? && IsDash(t)
  }

  /** A value of the wrong type is replaced by an empty container. */
  function Retyped(v: Value, t: Token): Value {
    if t.index == INVALID_INDEX then (if v.Obj? then v else Obj([]))
    else if v.Arr? || v.Obj? then v
    else Arr([])
  }

  function Nulls(n: nat): (r: seq<Value>)
    ensures |r| == n && forall k :: 0 <= k < n ==> r[k] == Null
  {
    seq(n, _ => Null)
  }

  /** The container, with a child for the token: an existing one, or a null put at the end. */
  function Grown(v: Value, t: Token): (r: Value)
    ensures Position(v, t) < ChildCount(r)
  {
    if Appends(v, t) then Arr(v.elems + [Null])
    else
      match Retyped(v, t)
      case Arr(elems) => if t.index >= |elems| then Arr(elems + Nulls(t.index + 1 - |elems|)) else Arr(elems)
      case Obj(members) =>
        if FindMember(members, t.name) == |members| then Obj(members + [Member(t.name, Null)]) else Obj(members)
      case other => other
  }

  /** Where that child is. */
  function Position(v: Value, t: Token): nat {
    if Appends(v, t) then |v.elems|
    else
      match Retyped(v, t)
      case Arr(_) => t.index
      case Obj(members) => FindMember(members, t.name)
      case _ => 0
  }

  /** The tree after Create. */
  function Created(v: Value, tokens: seq<Token>): Value
    decreases |tokens|
  {
    if tokens == [] then v
    else
      var g, k := Grown(v, tokens[0]), Position(v, tokens[0]);
      PutChild(g, k, Created(Child(g, k), tokens[1..]))
  }

  /** The location it returns. */
  function CreatedAt(v: Value, tokens: seq<Token>): Location
    decreases |tokens|
  {
    if tokens == [] then []
    else
      var g, k := Grown(v, tokens[0]), Position(v, tokens[0]);
      [k] + CreatedAt(Child(g, k), tokens[1..])
  }

  /** Whether the token had no child yet. */
  predicate Adds(v: Value, t: Token) {
    Appends(v, t) || ChildCount(Retyped(v, t)) <= Position(v, t)
  }

  /** The flag it reports. */
  predicate AlreadyExists(v: Value, tokens: seq<Token>)
    decreases |tokens|
  {
    tokens == []
    || (!Adds(v, tokens[0]) && AlreadyExists(Child(Grown(v, tokens[0]), Position(v, tokens[0])), tokens[1..]))
  }

  // ---------- the code ----------

  method GetLocation(root: Value, tokens: seq<Token>) returns (p: Option<Location>, unresolved: nat)
    ensures p == Resolve(root, tokens)
    ensures p.None? ==> unresolved < |tokens| && Resolve(root, tokens[..unresolved]).Some?
                        && Find(Lookup(root, Resolve(root, tokens[..unresolved]).value), tokens[unresolved]).None?
  {
    hide Resolve, Find, Lookup, Exists;
    var v, at: Location := root, [];
    ResolveNothing(root);
    for i := 0 to |tokens|
      invariant Exists(root, at) && v == Lookup(root, at) && Resolve(root, tokens[..i]) == Some(at)
    {
      var k := Find(v, tokens[i]);
      ResolveExtends(root, tokens[..i], tokens[i]);
      assert tokens[..i] + [tokens[i]] == tokens[..i + 1];
      if k.None? {
        ResolveStops(root, tokens[..i + 1], tokens[i + 1..]);
        assert tokens[..i + 1] + tokens[i + 1..] == tokens;
        return None, i;
      }
      v, at := Child(v, k.value), at + [k.value];
    }
    assert tokens[..|tokens|] == tokens;
    return Some(at), |tokens|;
  }

  lemma ResolveNothing(v: Value)
    ensures Resolve(v, []) == Some([]) && Exists(v, []) && Lookup(v, []) == v
  {
  }

  /** What does not resolve does not resolve any further. */
  lemma {:induction false} ResolveStops(v: Value, tokens: seq<Token>, more: seq<Token>)
    requires Resolve(v, tokens).None?
    ensures Resolve(v, tokens + more).None?
    decreases |tokens|
  {
    assert (tokens + more)[0] == tokens[0] && (tokens + more)[1..] == tokens[1..] + more;
    var k := Find(v, tokens[0]);
    if k.Some? {
      ResolveStops(Child(v, k.value), tokens[1..], more);
    }
  }

  lemma LookupChild(v: Value, p: Location, k: nat)
    requires Exists(v, p) && k < ChildCount(Lookup(v, p))
    ensures Exists(v, p + [k]) && Lookup(v, p + [k]) == Child(Lookup(v, p), k)
  {
    if p == [] {
      assert [] + [k] == [k];
    } else {
      assert (p + [k])[1..] == p[1..] + [k];
      LookupChild(Child(v, p[0]), p[1..], k);
    }
  }

  lemma {:induction false} ResolveExtends(v: Value, tokens: seq<Token>, t: Token)
    requires Resolve(v, tokens).Some?
    ensures var at := Resolve(v, tokens).value; var k := Find(Lookup(v, at), t);
            && Resolve(v, tokens + [t]) == (if k.None? then None else Some(at + [k.value]))
            && (k.Some? ==> Lookup(v, at + [k.value]) == Child(Lookup(v, at), k.value))
    decreases |tokens|
  {
    var at := Resolve(v, tokens).value;
    var k := Find(Lookup(v, at), t);
    if k.Some? { LookupChild(v, at, k.value); }
    if tokens == [] {
      assert [] + [t] == [t] && [t][1..] == [];
      if k.Some? {
        ResolveNothing(Child(v, k.value));
        assert [k.value] + [] == at + [k.value];
      }
    } else {
      var j := Find(v, tokens[0]).value;
      assert (tokens + [t])[1..] == tokens[1..] + [t] && (tokens + [t])[0] == tokens[0];
      ResolveExtends(Child(v, j), tokens[1..], t);
      if k.Some? { assert [j] + (at[1..] + [k.value]) == at + [k.value]; }
    }
  }

  /** One turn of Create's loop on the value it stands on. */
  method Descend(v: Value, t: Token) returns (r: Value, k: nat, added: bool)
    ensures r == Grown(v, t) && k == Position(v, t) && added == Adds(v, t)
  {
    if v.Arr? && IsDash(t) {
      return Arr(v.elems + [Null]), |v.elems|, true;
    }
    r := v;
    added := false;
    if t.index == INVALID_INDEX {
      if !r.Obj? { r := Obj([]); }
    } else {
      if !r.Arr? && !r.Obj? { r := Arr([]); }
    }
    if r.Arr? {
      var elems := r.elems;
      if t.index >= |elems| {
        while t.index >= |elems|
          invariant |r.elems| <= |elems| && elems == r.elems + Nulls(|elems| - |r.elems|)
          invariant |elems| <= t.index + 1
        {
          elems := elems + [Null];
        }
        added := true;
      }
      r, k := Arr(elems), t.index;
    } else {
      k := SearchMember(r.members, t.name);
      if k == |r.members| {
        r := Obj(r.members + [Member(t.name, Null)]);
        added := true;
      }
    }
  }

  lemma PutChildren(v: Value, p: Location, g: Value, k: nat, w: Value)
    requires Exists(v, p) && k < ChildCount(g)
    ensures Exists(Put(v, p, g), p) && Lookup(Put(v, p, g), p) == g
    ensures Exists(Put(v, p, g), p + [k]) && Lookup(Put(v, p, g), p + [k]) == Child(g, k)
    ensures Put(Put(v, p, g), p + [k], w) == Put(v, p, PutChild(g, k, w))
  {
    if p == [] {
      assert [] + [k] == [k];
    } else {
      assert (p + [k])[1..] == p[1..] + [k];
      PutChildren(Child(v, p[0]), p[1..], g, k, w);
      PutTwice(v, p[0], Put(Child(v, p[0]), p[1..], g), Put(Child(v, p[0]), p[1..], PutChild(g, k, w)));
    }
  }

  lemma PutTwice(v: Value, k: nat, w: Value, u: Value)
    requires k < ChildCount(v)
    ensures PutChild(PutChild(v, k, w), k, u) == PutChild(v, k, u)
    ensures PutChild(v, k, Child(v, k)) == v
  {
  }

  lemma {:induction false} PutSame(v: Value, p: Location)
    requires Exists(v, p)
    ensures Put(v, p, Lookup(v, p)) == v
  {
    if p != [] {
      PutSame(Child(v, p[0]), p[1..]);
      PutTwice(v, p[0], v, v);
    }
  }

  /** A tree that Create changes in place. */
  class Tree {
    var root: Value

    constructor (root: Value)
      ensures this.root == root
    {
      this.root := root;
    }

    method Create(tokens: seq<Token>) returns (at: Location, exist: bool)
      modifies this
      ensures root == Created(old(root), tokens)
      ensures at == CreatedAt(old(root), tokens) && exist == AlreadyExists(old(root), tokens)
    {
      hide Grown, Position, Adds, Lookup, Exists, Put, PutChild;
      at, exist := [], true;
      Here(root, Created(root, tokens));
      for i := 0 to |tokens|
        invariant Exists(root, at)
        invariant Created(old(root), tokens) == Put(root, at, Created(Lookup(root, at), tokens[i..]))
        invariant CreatedAt(old(root), tokens) == at + CreatedAt(Lookup(root, at), tokens[i..])
        invariant AlreadyExists(old(root), tokens) == (exist && AlreadyExists(Lookup(root, at), tokens[i..]))
      {
        var v, rest := Lookup(root, at), tokens[i + 1..];
        assert tokens[i..][0] == tokens[i] && tokens[i..][1..] == rest;
        var g, k, added := Descend(v, tokens[i]);
        PutChildren(root, at, g, k, Created(Child(g, k), rest));
        assert at + ([k] + CreatedAt(Child(g, k), rest)) == at + [k] + CreatedAt(Child(g, k), rest);
        root := Put(root, at, g);
        at := at + [k];
        exist := exist && !added;
      }
      PutSame(root, at);
      assert at + [] == at;
    }
  }

  lemma Here(v: Value, w: Value)
    ensures Exists(v, []) && Lookup(v, []) == v && Put(v, [], w) == w
  {
  }

  // ---------- what Create promises ----------

  /** "-" never is an index, as in every pointer that was parsed. */
  predicate DashIsNoIndex(tokens: seq<Token>) {
    forall t :: t in tokens && IsDash(t) ==> t.index == INVALID_INDEX
  }

  lemma ParsedDashIsNoIndex(tokens: seq<Token>)
    requires Canonical(tokens)
    ensures DashIsNoIndex(tokens)
  {
    forall t | t in tokens && IsDash(t) ensures t.index == INVALID_INDEX {
      assert !IsDigit(t.name[0]);
    }
  }

  /** A token adds nothing exactly when Get finds its child; then it changes nothing. */
  lemma AddsIffNotFound(v: Value, t: Token)
    requires IsDash(t) ==> t.index == INVALID_INDEX
    ensures Adds(v, t) <==> Find(v, t).None?
    ensures !Adds(v, t) ==> Grown(v, t) == v && Find(v, t) == Some(Position(v, t))
    ensures Adds(v, t) ==> Child(Grown(v, t), Position(v, t)) == Null
  {
  }

  /** Create reports an existing value exactly when Get would have resolved it, at the same
      location, and then it changes nothing. */
  lemma {:induction false} ExistsIffResolves(v: Value, tokens: seq<Token>)
    requires DashIsNoIndex(tokens)
    ensures AlreadyExists(v, tokens) <==> Resolve(v, tokens).Some?
    ensures AlreadyExists(v, tokens) ==> Created(v, tokens) == v && Resolve(v, tokens) == Some(CreatedAt(v, tokens))
    decreases |tokens|
  {
    if tokens != [] {
      hide Grown, Position, Adds, Find, PutChild;
      var t := tokens[0];
      assert t in tokens;
      AddsIffNotFound(v, t);
      if !Adds(v, t) {
        var k := Position(v, t);
        ExistsIffResolves(Child(v, k), tokens[1..]);
        PutTwice(v, k, v, v);
      }
    }
  }

  lemma NullHasNothing(tokens: seq<Token>)
    ensures AlreadyExists(Null, tokens) <==> tokens == []
  {
  }

  /** What Create returns is the existing value or a new null. */
  lemma {:induction false} CreatedValue(v: Value, tokens: seq<Token>)
    requires DashIsNoIndex(tokens)
    ensures var w, at := Created(v, tokens), CreatedAt(v, tokens);
            && Exists(w, at)
            && (AlreadyExists(v, tokens) ==> Exists(v, at) && Lookup(w, at) == Lookup(v, at))
            && (!AlreadyExists(v, tokens) ==> Lookup(w, at) == Null)
    decreases |tokens|
  {
    if tokens != [] {
      hide Grown, Position, Adds, Find, PutChild;
      var t := tokens[0];
      assert t in tokens;
      AddsIffNotFound(v, t);
      var g, k := Grown(v, t), Position(v, t);
      CreatedValue(Child(g, k), tokens[1..]);
      assert CreatedAt(v, tokens)[1..] == CreatedAt(Child(g, k), tokens[1..]);
      if Adds(v, t) { NullHasNothing(tokens[1..]); }
    }
  }

  /** "-" was applied to an array somewhere on the way. */
  predicate DashMet(v: Value, tokens: seq<Token>)
    decreases |tokens|
  {
    tokens != []
    && (Appends(v, tokens[0]) || DashMet(Child(Grown(v, tokens[0]), Position(v, tokens[0])), tokens[1..]))
  }

  lemma FirstAmong(members: seq<Member>, m: Member, w: Value)
    ensures FindMember(members, m.name) == |members| ==> FindMember(members + [m], m.name) == |members|
    ensures var k := FindMember(members, m.name);
            k < |members| ==> FindMember(members[k := Member(members[k].name, w)], m.name) == k
  {
    var k := FindMember(members, m.name);
    if k < |members| {
      var same := members[k := Member(members[k].name, w)];
      assert same[k].name == m.name;
      assert forall j :: 0 <= j < k ==> same[j] == members[j];
    } else {
      var longer := members + [m];
      assert longer[|members|].name == m.name;
      assert forall j :: 0 <= j < |members| ==> longer[j].name != m.name;
    }
  }

  /** Afterwards Get finds the child, unless the token was "-" on an array. */
  lemma FindAfterwards(v: Value, t: Token, w: Value)
    requires IsDash(t) ==> t.index == INVALID_INDEX
    ensures var g, k := Grown(v, t), Position(v, t);
            Find(PutChild(g, k, w), t) == if Appends(v, t) then None else Some(k)
  {
    var g, k := Grown(v, t), Position(v, t);
    if !Appends(v, t) && Retyped(v, t).Obj? {
      FirstAmong(Retyped(v, t).members, Member(t.name, Null), w);
      FirstAmong(g.members, Member(t.name, Null), w);
    }
  }

  /** After Create, Get resolves to the value returned, unless "-" was applied to an array. */
  lemma {:induction false} ResolvesAfterwards(v: Value, tokens: seq<Token>)
    requires DashIsNoIndex(tokens)
    ensures Resolve(Created(v, tokens), tokens) ==
            if DashMet(v, tokens) then None else Some(CreatedAt(v, tokens))
    decreases |tokens|
  {
    if tokens != [] {
      hide Grown, Position, Find, PutChild, Appends;
      var t := tokens[0];
      assert t in tokens;
      var g, k := Grown(v, t), Position(v, t);
      FindAfterwards(v, t, Created(Child(g, k), tokens[1..]));
      ResolvesAfterwards(Child(g, k), tokens[1..]);
    }
  }

  // ---------- what Create leaves alone ----------

  predicate Replaces(v: Value, t: Token) {
    !Appends(v, t) && Retyped(v, t) != v
  }

  /** The location of the value, if any, that was replaced by a container of another type. */
  function Replaced(v: Value, tokens: seq<Token>): Option<Location>
    decreases |tokens|
  {
    if tokens == [] then None
    else if Replaces(v, tokens[0]) then Some([])
    else
      var g, k := Grown(v, tokens[0]), Position(v, tokens[0]);
      match Replaced(Child(g, k), tokens[1..])
      case None => None
      case Some(q) => Some([k] + q)
  }

  predicate UnderReplaced(v: Value, tokens: seq<Token>, p: Location) {
    Replaced(v, tokens).Some? && Replaced(v, tokens).value < p
  }

  lemma GrownKeepsChildren(v: Value, t: Token)
    requires !Replaces(v, t)
    ensures ChildCount(v) <= ChildCount(Grown(v, t))
    ensures forall j :: 0 <= j < ChildCount(v) ==>
              Child(Grown(v, t), j) == Child(v, j) && ChildName(Grown(v, t), j) == ChildName(v, j)
  {
  }

  /** Every old location off the pointer's path, and not under a replaced container, keeps its
      value; on the path it keeps its name. */
  lemma {:induction false} OthersUntouched(v: Value, tokens: seq<Token>, p: Location)
    requires Exists(v, p) && !UnderReplaced(v, tokens, p)
    ensures var w := Created(v, tokens);
            && Exists(w, p) && Label(w, p) == Label(v, p)
            && (!(p <= CreatedAt(v, tokens)) ==> Lookup(w, p) == Lookup(v, p))
    decreases |tokens|
  {
    if tokens != [] && p != [] {
      hide Grown, Position, PutChild, Replaces;
      var t, rest, j := tokens[0], tokens[1..], p[0];
      var g, k := Grown(v, t), Position(v, t);
      assert Replaces(v, t) ==> [] < p;
      GrownKeepsChildren(v, t);
      if j == k {
        PrefixUnder(k, Replaced(Child(g, k), rest), p);
        OthersUntouched(Child(g, k), rest, p[1..]);
        PrefixUnder(k, Some(CreatedAt(Child(g, k), rest)), p);
      }
    }
  }

  lemma PrefixUnder(k: nat, q: Option<Location>, p: Location)
    requires p != [] && p[0] == k
    ensures q.Some? ==> (q.value < p[1..] <==> [k] + q.value < p) && (p[1..] <= q.value <==> p <= [k] + q.value)
  {
    assert p == [k] + p[1..];
    if q.Some? {
      var longer := [k] + q.value;
      assert longer[1..] == q.value;
      assert forall i :: 0 <= i < |q.value| ==> longer[i + 1] == q.value[i];
      if |q.value| <= |p[1..]| { assert p[..|longer|][1..] == p[1..][..|q.value|]; }
      if |p[1..]| <= |q.value| { assert longer[..|p|][1..] == q.value[..|p| - 1]; }
    }
  }

  // ---------- what Create makes ----------

  /** The value that the pointer meets before its token number i: what Get finds for the tokens
      before it, or null where it finds nothing. */
  function Met(v: Value, tokens: seq<Token>, i: nat): Value
    requires i <= |tokens|
  {
    match Resolve(v, tokens[..i])
    case None => Null
    case Some(p) => Lookup(v, p)
  }

  /** What a token makes of the value it is applied to, and where the child for it stands:
      "-" on an array puts one element after the last; an index makes or keeps an array and pads
      it with nulls up to the index; any other name makes or keeps an object, and gives it a
      member of that name unless there is one. An index on an object is a name. */
  ghost predicate MadeFor(v: Value, t: Token, after: Value, k: nat) {
    if v.Arr? && t.name == [MINUS] then
      after.Arr? && |after.elems| == |v.elems| + 1 && k == |v.elems| && after.elems[..k] == v.elems
    else if v.Obj? then
      && after.Obj? && k < |after.members| && after.members[k].name == t.name
      && (forall j :: 0 <= j < k ==> after.members[j].name != t.name)
      && if forall j :: 0 <= j < |v.members| ==> v.members[j].name != t.name
         then |after.members| == |v.members| + 1 && k == |v.members| && after.members[..k] == v.members
         else |after.members| == |v.members|
              && forall j :: 0 <= j < |v.members| && j != k ==> after.members[j] == v.members[j]
    else if t.index == 0xFFFF_FFFF then
      after.Obj? && |after.members| == 1 && k == 0 && after.members[0].name == t.name
    else
      && after.Arr? && k == t.index
      && var were := if v.Arr? then v.elems else [];
         && |after.elems| == (if t.index < |were| then |were| else t.index + 1)
         && forall j :: 0 <= j < |after.elems| && j != k ==> after.elems[j] == if j < |were| then were[j] else Null
  }

  lemma StepMakes(v: Value, t: Token, w: Value)
    requires IsDash(t) ==> t.index == INVALID_INDEX
    ensures var g, k := Grown(v, t), Position(v, t); MadeFor(v, t, PutChild(g, k, w), k)
  {
    if v.Obj? {
      ObjectMakes(v, t, w);
    }
  }

  lemma ObjectMakes(v: Value, t: Token, w: Value)
    requires v.Obj?
    ensures var g, k := Grown(v, t), Position(v, t); MadeFor(v, t, PutChild(g, k, w), k)
  {
    var ms, k := v.members, FindMember(v.members, t.name);
    var after := PutChild(Grown(v, t), k, w);
    if k == |ms| {
      assert after.members == ms + [Member(t.name, w)];
      assert after.members[..k] == ms;
      assert forall j :: 0 <= j < k ==> after.members[j] == ms[j];
    } else {
      assert after.members == ms[k := Member(ms[k].name, w)];
      assert ms[k].name == t.name;
    }
  }

  /** The next value met is the child of the token if Get finds one, and null otherwise. */
  lemma MetNext(v: Value, tokens: seq<Token>, i: nat)
    requires 0 < i <= |tokens| && (IsDash(tokens[0]) ==> tokens[0].index == INVALID_INDEX)
    ensures Met(v, tokens, i) == Met(Child(Grown(v, tokens[0]), Position(v, tokens[0])), tokens[1..], i - 1)
  {
    hide Grown, Position, Adds, Find;
    AddsIffNotFound(v, tokens[0]);
    assert tokens[..i][0] == tokens[0] && tokens[..i][1..] == tokens[1..][..i - 1];
    if Adds(v, tokens[0]) {
      NullMet(tokens[1..], i - 1);
    }
  }

  lemma NullMet(tokens: seq<Token>, i: nat)
    requires i <= |tokens|
    ensures Met(Null, tokens, i) == Null
  {
  }

  /** At every depth, Create leaves what its token makes of the value met there, and the rest
      of the way leads through the child for the token. */
  lemma {:induction false} CreatedMakes(v: Value, tokens: seq<Token>, i: nat)
    requires DashIsNoIndex(tokens) && i < |tokens|
    ensures var w, at := Created(v, tokens), CreatedAt(v, tokens);
            && |at| == |tokens| && Exists(w, at[..i])
            && MadeFor(Met(v, tokens, i), tokens[i], Lookup(w, at[..i]), at[i])
    decreases i
  {
    hide MadeFor, Grown, Position, PutChild;
    var t := tokens[0];
    assert t in tokens;
    var g, k := Grown(v, t), Position(v, t);
    var below := Created(Child(g, k), tokens[1..]);
    CreatedLength(Child(g, k), tokens[1..]);
    if i == 0 {
      StepMakes(v, t, below);
      assert tokens[..0] == [];
      ResolveNothing(v);
    } else {
      assert forall u :: u in tokens[1..] ==> u in tokens;
      CreatedMakes(Child(g, k), tokens[1..], i - 1);
      MetNext(v, tokens, i);
      var at := CreatedAt(v, tokens);
      assert at[..i][0] == k && at[..i][1..] == CreatedAt(Child(g, k), tokens[1..])[..i - 1];
    }
  }

  lemma {:induction false} CreatedLength(v: Value, tokens: seq<Token>)
    ensures |CreatedAt(v, tokens)| == |tokens|
    decreases |tokens|
  {
    if tokens != [] {
      hide Grown, Position;
      CreatedLength(Child(Grown(v, tokens[0]), Position(v, tokens[0])), tokens[1..]);
    }
  }

  // ---------- what Get finds ----------

  /** The child that a token names: the element at its index, or the first member of its name. */
  ghost predicate Names(v: Value, t: Token, k: nat) {
    || (v.Arr? && k == t.index < |v.elems| && t.index != 0xFFFF_FFFF)
    || (v.Obj? && k < |v.members| && v.members[k].name == t.name
        && forall j :: 0 <= j < k ==> v.members[j].name != t.name)
  }

  /** Each token names the next child on the way. */
  ghost predicate AllNamed(v: Value, tokens: seq<Token>, p: Location) {
    && |p| == |tokens| && Exists(v, p)
    && forall i :: 0 <= i < |p| ==> Exists(v, p[..i]) && Names(Lookup(v, p[..i]), tokens[i], p[i])
  }

  lemma FoundIffNames(v: Value, t: Token, k: nat)
    ensures Find(v, t) == Some(k) <==> Names(v, t, k)
  {
  }

  lemma FirstNamed(v: Value, tokens: seq<Token>, p: Location)
    requires p != [] && tokens != [] && p[0] < ChildCount(v)
    ensures AllNamed(v, tokens, p) <==> Names(v, tokens[0], p[0]) && AllNamed(Child(v, p[0]), tokens[1..], p[1..])
  {
    hide Names, Child;
    var c := Child(v, p[0]);
    forall i | 0 < i < |p| && |p| == |tokens|
      ensures Exists(v, p[..i]) == Exists(c, p[1..][..i - 1])
      ensures Exists(v, p[..i]) ==> Lookup(v, p[..i]) == Lookup(c, p[1..][..i - 1])
      ensures tokens[i] == tokens[1..][i - 1] && p[i] == p[1..][i - 1]
    {
      assert p[..i][0] == p[0] && p[..i][1..] == p[1..][..i - 1];
    }
    assert p[..0] == [];
    if AllNamed(v, tokens, p) {
      assert Names(Lookup(v, p[..0]), tokens[0], p[0]);
      forall i | 0 <= i < |p[1..]|
        ensures Exists(c, p[1..][..i]) && Names(Lookup(c, p[1..][..i]), tokens[1..][i], p[1..][i])
      {
        assert Exists(v, p[..i + 1]) && Names(Lookup(v, p[..i + 1]), tokens[i + 1], p[i + 1]);
      }
    }
  }

  /** Get follows a location exactly when each token names the next child on it. */
  lemma {:induction false} ResolvesIffNamed(v: Value, tokens: seq<Token>, p: Location)
    ensures Resolve(v, tokens) == Some(p) <==> AllNamed(v, tokens, p)
    decreases |tokens|
  {
    hide Names, Find, AllNamed, Child;
    if tokens == [] || p == [] {
      NothingNamed(v, tokens, p);
    } else {
      FoundIffNames(v, tokens[0], p[0]);
      var k := Find(v, tokens[0]);
      if p[0] < ChildCount(v) {
        FirstNamed(v, tokens, p);
        ResolvesIffNamed(Child(v, p[0]), tokens[1..], p[1..]);
        assert [p[0]] + p[1..] == p;
      } else {
        NoChildNamed(v, tokens, p);
      }
    }
  }

  lemma NothingNamed(v: Value, tokens: seq<Token>, p: Location)
    requires tokens == [] || p == []
    ensures AllNamed(v, tokens, p) <==> tokens == [] && p == []
  {
  }

  lemma NoChildNamed(v: Value, tokens: seq<Token>, p: Location)
    requires p != [] && p[0] >= ChildCount(v)
    ensures !AllNamed(v, tokens, p)
  {
  }
}
