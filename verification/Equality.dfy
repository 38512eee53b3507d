/** `operator==` on values: first-match lookup of members, numbers compared by their 64 bits.
    On values without doubles or repeated names it is equality of what the values mean; with
    repeated names it need be neither reflexive nor symmetric: see Coherence and RepeatedNames. */
module Equality {
  import opened Bytes
  import opened Json

  const TWO_TO_64 := 0x1_0000_0000_0000_0000

  /** Position of the first member with that name, or the number of members. */
  function FindMember(members: seq<Member>, name: Text): (k: nat)
    ensures k <= |members|
    ensures k < |members| ==> members[k].name == name
    ensures forall j :: 0 <= j < k ==> members[j].name != name
  {
    if members == [] then 0
    else if members[0].name == name then 0
    else 1 + FindMember(members[1..], name)
  }

  /** The unsigned 64-bit word that holds an integer of either sign. */
  function Word64(n: int): nat {
    n % TWO_TO_64
  }

  predicate IsNumber(v: Value) {
    v.Num? || v.Double?
  }

  /** What the comparison asks of two values before it descends: the same scalar, or
      containers of one size. `round` converts an integer to the nearest double. */
  predicate Alike(round: int -> real, a: Value, b: Value) {
    match (a, b)
    case (Null, Null) => true
    case (Bool(x), Bool(y)) => x == y
    case (Num(m), Num(n)) => Word64(m) == Word64(n)
    case (Num(m), Double(e)) => round(m) == e
    case (Double(d), Num(n)) => d == round(n)
    case (Double(d), Double(e)) => d == e
    case (Str(s), Str(t)) => s == t
    case (Arr(xs), Arr(ys)) => |xs| == |ys|
    case (Obj(ms), Obj(ns)) => |ms| == |ns|
    case _ => false
  }

  /** Alike at the top, and equal element by element, or member by first member of its name. */
  predicate Equal(round: int -> real, a: Value, b: Value)
    decreases a
  {
    && Alike(round, a, b)
    && match (a, b)
       case (Arr(xs), Arr(ys)) => forall k :: 0 <= k < |xs| ==> Equal(round, xs[k], ys[k])
       case (Obj(ms), Obj(ns)) => forall k :: 0 <= k < |ms| ==> Matched(round, ms[k], ns)
       case _ => true
  }

  /** The first member of that name has an equal value. */
  predicate Matched(round: int -> real, m: Member, ns: seq<Member>)
    decreases m
  {
    var j := FindMember(ns, m.name);
    j < |ns| && Equal(round, m.value, ns[j].value)
  }

  // ---------- the two loops of the source ----------

  method SearchMember(members: seq<Member>, name: Text) returns (k: nat)
    ensures k == FindMember(members, name)
  {
    k := 0;
    while k < |members| && members[k].name != name
      invariant k <= |members|
      invariant forall j :: 0 <= j < k ==> members[j].name != name
    {
      k := k + 1;
    }
  }

  method Compare(round: int -> real, a: Value, b: Value) returns (same: bool)
    ensures same == Equal(round, a, b)
    decreases a
  {
    match (a, b)
    case (Obj(ms), Obj(ns)) =>
      if |ms| != |ns| { return false; }
      for k := 0 to |ms|
        invariant forall j :: 0 <= j < k ==> Matched(round, ms[j], ns)
      {
        var j := SearchMember(ns, ms[k].name);
        if j == |ns| { return false; }
        var equal := Compare(round, ms[k].value, ns[j].value);
        if !equal {
          assert !Matched(round, ms[k], ns);
          return false;
        }
      }
      return true;
    case (Arr(xs), Arr(ys)) =>
      if |xs| != |ys| { return false; }
      for k := 0 to |xs|
        invariant forall j :: 0 <= j < k ==> Equal(round, xs[j], ys[j])
      {
        var equal := Compare(round, xs[k], ys[k]);
        if !equal { return false; }
      }
      return true;
    case (Str(s), Str(t)) => return s == t;
    case (Num(m), Num(n)) => return Word64(m) == Word64(n);
    case (Double(x), Double(y)) => return x >= y && x <= y;
    case (Double(x), Num(n)) => return x >= round(n) && x <= round(n);
    case (Num(m), Double(y)) => return round(m) >= y && round(m) <= y;
    case (Bool(x), Bool(y)) => return x == y;
    case (Null, Null) => return true;
    case _ => return false;
  }

  // ---------- what a value means ----------

  /** A JSON datum: members are a map, and integers are known by their 64 bits. */
  datatype Datum =
    | NullDatum
    | BoolDatum(b: bool)
    | WordDatum(w: nat)
    | RealDatum(d: real)
    | TextDatum(s: Text)
    | ListDatum(items: seq<Datum>)
    | RecordDatum(fields: map<Text, Datum>)

  function Names(members: seq<Member>): set<Text> {
    set k | 0 <= k < |members| :: members[k].name
  }

  function Meaning(v: Value): Datum {
    match v
    case Null => NullDatum
    case Bool(b) => BoolDatum(b)
    case Num(n) => WordDatum(Word64(n))
    case Double(d) => RealDatum(d)
    case Str(s) => TextDatum(s)
    case Arr(elems) => ListDatum(seq(|elems|, k requires 0 <= k < |elems| => Meaning(elems[k])))
    case Obj(members) =>
      RecordDatum(map name | name in Names(members) :: Meaning(members[FindMember(members, name)].value))
  }

  predicate Distinct(members: seq<Member>) {
    forall j, k :: 0 <= j < k < |members| ==> members[j].name != members[k].name
  }

  /** No object with two members of one name, at any depth. */
  predicate Unique(v: Value) {
    match v
    case Arr(elems) => forall k :: 0 <= k < |elems| ==> Unique(elems[k])
    case Obj(members) => Distinct(members) && forall k :: 0 <= k < |members| ==> Unique(members[k].value)
    case _ => true
  }

  /** No double at any depth. */
  predicate DoubleFree(v: Value) {
    match v
    case Double(_) => false
    case Arr(elems) => forall k :: 0 <= k < |elems| ==> DoubleFree(elems[k])
    case Obj(members) => forall k :: 0 <= k < |members| ==> DoubleFree(members[k].value)
    case _ => true
  }

  predicate Plain(v: Value) {
    Unique(v) && DoubleFree(v)
  }

  // ---------- names ----------

  lemma NamesOfLast(members: seq<Member>)
    requires members != []
    ensures var init, last := members[..|members| - 1], members[|members| - 1].name;
            Names(members) == Names(init) + {last} && (Distinct(members) <==> Distinct(init) && last !in Names(init))
  {
    var init, last := members[..|members| - 1], members[|members| - 1].name;
    assert members == init + [members[|members| - 1]];
    if last in Names(init) {
      var k :| 0 <= k < |init| && init[k].name == last;
      assert members[k].name == members[|members| - 1].name;
    } else {
      forall k | 0 <= k < |init| ensures members[k].name != last { assert init[k].name in Names(init); }
    }
  }

  lemma {:induction false} NamesCount(members: seq<Member>)
    ensures |Names(members)| <= |members|
    ensures |Names(members)| == |members| <==> Distinct(members)
  {
    if members != [] {
      hide Names, Distinct;
      var init, last := members[..|members| - 1], members[|members| - 1].name;
      NamesCount(init);
      NamesOfLast(members);
      if last in Names(init) {
        assert Names(init) + {last} == Names(init);
      } else {
        assert |Names(init) + {last}| == |Names(init)| + 1;
      }
    } else {
      assert Names(members) == {};
    }
  }

  /** In a list of distinct names a member is the first of its name. */
  lemma FirstIsOnly(members: seq<Member>, k: nat)
    requires Distinct(members) && k < |members|
    ensures FindMember(members, members[k].name) == k
  {
  }

  lemma FoundIffNamed(members: seq<Member>, name: Text)
    ensures FindMember(members, name) < |members| <==> name in Names(members)
  {
  }

  /** Pigeonhole: as many names on the right, each name on the left among them, and the left
      names distinct; then the names are the same and the right ones distinct too. */
  lemma SameNames(ms: seq<Member>, ns: seq<Member>)
    requires Distinct(ms) && |ms| == |ns| && Names(ms) <= Names(ns)
    ensures Names(ms) == Names(ns) && Distinct(ns)
  {
    NamesCount(ms);
    NamesCount(ns);
    var extra := Names(ns) - Names(ms);
    assert Names(ns) == Names(ms) + extra && |Names(ns)| == |Names(ms)| + |extra|;
    assert extra == {};
  }

  // ---------- equality is equality of meaning ----------

  /** The names on the left are found on the right. */
  lemma MatchedNames(round: int -> real, ms: seq<Member>, ns: seq<Member>)
    requires forall k :: 0 <= k < |ms| ==> Matched(round, ms[k], ns)
    ensures Names(ms) <= Names(ns)
  {
    forall name | name in Names(ms) ensures name in Names(ns) {
      var k :| 0 <= k < |ms| && ms[k].name == name;
      assert Matched(round, ms[k], ns);
      FoundIffNamed(ns, name);
    }
  }

  /** What equals a value without repeated names has none either, doubles or not. */
  lemma {:induction false} EqualKeepsUnique(round: int -> real, a: Value, b: Value)
    requires Unique(a) && Equal(round, a, b)
    ensures Unique(b)
    decreases a
  {
    match (a, b)
    case (Arr(xs), Arr(ys)) =>
      forall k | 0 <= k < |xs| ensures Unique(ys[k]) { EqualKeepsUnique(round, xs[k], ys[k]); }
    case (Obj(ms), Obj(ns)) =>
      MatchedNames(round, ms, ns);
      SameNames(ms, ns);
      forall k | 0 <= k < |ns| ensures Unique(ns[k].value) {
        var j := Partner(round, ms, ns, k);
        EqualKeepsUnique(round, ms[j].value, ns[k].value);
      }
    case _ =>
  }

  /** The member on the left that was matched with member k on the right. */
  lemma Partner(round: int -> real, ms: seq<Member>, ns: seq<Member>, k: nat) returns (j: nat)
    requires Distinct(ns) && Names(ms) == Names(ns) && k < |ns|
    requires forall j :: 0 <= j < |ms| ==> Matched(round, ms[j], ns)
    ensures j == FindMember(ms, ns[k].name) < |ms| && Equal(round, ms[j].value, ns[k].value)
  {
    j := FindMember(ms, ns[k].name);
    assert ns[k].name in Names(ns);
    FoundIffNamed(ms, ns[k].name);
    assert Matched(round, ms[j], ns);
    FirstIsOnly(ns, k);
  }

  lemma {:induction false} EqualMeansSame(round: int -> real, a: Value, b: Value)
    requires Plain(a) && DoubleFree(b) && Equal(round, a, b)
    ensures Meaning(a) == Meaning(b)
    decreases a
  {
    match (a, b)
    case (Arr(xs), Arr(ys)) =>
      forall k | 0 <= k < |xs| ensures Meaning(xs[k]) == Meaning(ys[k]) {
        EqualMeansSame(round, xs[k], ys[k]);
      }
    case (Obj(ms), Obj(ns)) =>
      MatchedNames(round, ms, ns);
      SameNames(ms, ns);
      forall k | 0 <= k < |ns|
        ensures var j := FindMember(ms, ns[k].name); j < |ms| && Meaning(ms[j].value) == Meaning(ns[k].value)
      {
        var j := Partner(round, ms, ns, k);
        EqualMeansSame(round, ms[j].value, ns[k].value);
      }
      RecordsAgree(ms, ns);
    case _ =>
  }

  lemma FieldsUnfold(members: seq<Member>)
    ensures var m := Meaning(Obj(members));
            && m.RecordDatum? && m.fields.Keys == Names(members)
            && (forall name :: name in Names(members) ==>
                  var k := FindMember(members, name);
                  k < |members| && m.fields[name] == Meaning(members[k].value))
  {
  }

  lemma RecordsAgree(ms: seq<Member>, ns: seq<Member>)
    requires Distinct(ns) && Names(ms) == Names(ns)
    requires forall k :: 0 <= k < |ns| ==>
               var j := FindMember(ms, ns[k].name); j < |ms| && Meaning(ms[j].value) == Meaning(ns[k].value)
    ensures Meaning(Obj(ms)) == Meaning(Obj(ns))
  {
    hide Meaning, FindMember, Names;
    FieldsUnfold(ms);
    FieldsUnfold(ns);
    var f, g := Meaning(Obj(ms)).fields, Meaning(Obj(ns)).fields;
    forall name | name in Names(ns) ensures f[name] == g[name] {
      FoundIffNamed(ns, name);
      var k := FindMember(ns, name);
      assert ns[k].name == name;
    }
    assert f == g;
  }

  lemma SameFields(ms: seq<Member>, ns: seq<Member>)
    requires Distinct(ms) && Distinct(ns) && Meaning(Obj(ms)) == Meaning(Obj(ns))
    ensures |ms| == |ns|
    ensures forall k :: 0 <= k < |ms| ==>
              var j := FindMember(ns, ms[k].name); j < |ns| && Meaning(ms[k].value) == Meaning(ns[j].value)
  {
    hide Meaning, Names, FindMember;
    FieldsUnfold(ms);
    FieldsUnfold(ns);
    NamesCount(ms);
    NamesCount(ns);
    forall k | 0 <= k < |ms|
      ensures var j := FindMember(ns, ms[k].name); j < |ns| && Meaning(ms[k].value) == Meaning(ns[j].value)
    {
      FirstIsOnly(ms, k);
      FoundIffNamed(ms, ms[k].name);
      FoundIffNamed(ns, ms[k].name);
    }
  }

  lemma SameItems(xs: seq<Value>, ys: seq<Value>)
    requires Meaning(Arr(xs)) == Meaning(Arr(ys))
    ensures |xs| == |ys| && forall k :: 0 <= k < |xs| ==> Meaning(xs[k]) == Meaning(ys[k])
  {
    var f, g := Meaning(Arr(xs)).items, Meaning(Arr(ys)).items;
    forall k | 0 <= k < |xs| ensures Meaning(xs[k]) == Meaning(ys[k]) {
      assert f[k] == Meaning(xs[k]) && g[k] == Meaning(ys[k]);
    }
  }

  lemma {:induction false} SameMeansEqual(round: int -> real, a: Value, b: Value)
    requires Plain(a) && Plain(b) && Meaning(a) == Meaning(b)
    ensures Equal(round, a, b)
    decreases a
  {
    match (a, b)
    case (Arr(xs), Arr(ys)) =>
      SameItems(xs, ys);
      forall k | 0 <= k < |xs| ensures Equal(round, xs[k], ys[k]) {
        SameMeansEqual(round, xs[k], ys[k]);
      }
    case (Obj(ms), Obj(ns)) =>
      SameFields(ms, ns);
      forall k | 0 <= k < |ms| ensures Matched(round, ms[k], ns) {
        SameMeansEqual(round, ms[k].value, ns[FindMember(ns, ms[k].name)].value);
      }
    case _ =>
  }

  /** The main result: a plain value equals exactly the plain values of the same meaning,
      whatever the order of members. */
  lemma EqualIffSameMeaning(round: int -> real, a: Value, b: Value)
    requires Plain(a) && DoubleFree(b)
    ensures Equal(round, a, b) <==> Unique(b) && Meaning(a) == Meaning(b)
  {
    if Equal(round, a, b) {
      EqualKeepsUnique(round, a, b);
      EqualMeansSame(round, a, b);
    } else if Unique(b) && Meaning(a) == Meaning(b) {
      SameMeansEqual(round, a, b);
    }
  }

  /** Hence an equivalence relation on plain values. */
  lemma EquivalenceOnPlain(round: int -> real, a: Value, b: Value, c: Value)
    requires Plain(a) && DoubleFree(b) && DoubleFree(c)
    ensures Equal(round, a, a)
    ensures Equal(round, a, b) ==> Plain(b) && Equal(round, b, a)
    ensures Equal(round, a, b) && Equal(round, b, c) ==> Equal(round, a, c)
  {
    EqualIffSameMeaning(round, a, a);
    EqualIffSameMeaning(round, a, b);
    EqualIffSameMeaning(round, a, c);
    if Equal(round, a, b) {
      EqualIffSameMeaning(round, b, a);
      EqualIffSameMeaning(round, b, c);
    }
  }

  // ---------- where it is not what it promises ----------

  /** Two integers are equal when they are the same number or, one negative and one above the
      signed range, share a bit pattern. */
  lemma NumbersEqualIff(round: int -> real, m: int, n: int)
    requires INT64_MIN <= m <= UINT64_MAX && INT64_MIN <= n <= UINT64_MAX
    ensures Equal(round, Num(m), Num(n)) <==> m == n || m == n + TWO_TO_64 || n == m + TWO_TO_64
  {
  }

  lemma MinusOneEqualsMaximum(round: int -> real)
    ensures Equal(round, Num(-1), Num(UINT64_MAX))
  {
  }
}
