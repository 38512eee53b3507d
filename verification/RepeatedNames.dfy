/** When a value with repeated names equals anything at all: exactly when all members of one
    name can share one partner, at every depth. */
module RepeatedNames {
  import opened Bytes
  import opened Json
  import opened Equality

  // ---------- nesting ----------

  function Height(v: Value): nat {
    match v
    case Arr(elems) => 1 + MaxHeight(elems)
    case Obj(members) => 1 + MaxMemberHeight(members)
    case _ => 0
  }

  function MaxHeight(elems: seq<Value>): (h: nat)
    ensures forall k :: 0 <= k < |elems| ==> Height(elems[k]) <= h
  {
    if elems == [] then 0
    else
      var first, rest := Height(elems[0]), MaxHeight(elems[1..]);
      assert forall k :: 0 < k < |elems| ==> elems[k] == elems[1..][k - 1];
      if first > rest then first else rest
  }

  function MaxMemberHeight(members: seq<Member>): (h: nat)
    ensures forall k :: 0 <= k < |members| ==> Height(members[k].value) <= h
  {
    if members == [] then 0
    else
      var first, rest := Height(members[0].value), MaxMemberHeight(members[1..]);
      assert forall k :: 0 < k < |members| ==> members[k] == members[1..][k - 1];
      if first > rest then first else rest
  }

  /** No value of the set is nested deeper than h. */
  ghost predicate Within(vs: set<Value>, h: nat) {
    forall v :: v in vs ==> Height(v) <= h
  }

  // ---------- values that share a partner ----------

  /** The k-th elements of the arrays. */
  function Column(vs: set<Value>, k: nat): set<Value> {
    set v | v in vs && v.Arr? && k < |v.elems| :: v.elems[k]
  }

  /** All members of that name in the objects, repeated or not. */
  function Group(vs: set<Value>, name: Text): set<Value> {
    set v, k | v in vs && v.Obj? && 0 <= k < |v.members| && v.members[k].name == name :: v.members[k].value
  }

  function AllNames(vs: set<Value>): set<Text> {
    set v, k | v in vs && v.Obj? && 0 <= k < |v.members| :: v.members[k].name
  }

  function AsReal(round: int -> real, v: Value): real
    requires IsNumber(v)
  {
    if v.Double? then v.d else round(v.n)
  }

  /** Numbers that are one and the same as doubles. */
  ghost predicate OneDouble(round: int -> real, vs: set<Value>) {
    && (forall v :: v in vs ==> IsNumber(v))
    && forall u, v :: u in vs && v in vs ==> AsReal(round, u) == AsReal(round, v)
  }

  /** Numbers that one integer is alike to. */
  ghost predicate OneInteger(round: int -> real, vs: set<Value>) {
    exists n: int :: forall v :: v in vs ==> Alike(round, v, Num(n))
  }

  ghost predicate AllAlike(round: int -> real, vs: set<Value>) {
    forall u, v :: u in vs && v in vs ==> Alike(round, u, v)
  }

  /** The values meet at the top: they are alike, or numbers with one double or one integer
      between them. */
  ghost predicate Meet(round: int -> real, vs: set<Value>) {
    AllAlike(round, vs) || OneDouble(round, vs) || OneInteger(round, vs)
  }

  /** They meet, have no more names between them than one object has room for, and the same
      is true of each column and of each name. */
  ghost predicate Joinable(round: int -> real, vs: set<Value>, h: nat)
    requires Within(vs, h)
    decreases h
  {
    && Meet(round, vs)
    && (forall v :: v in vs && v.Obj? ==> |AllNames(vs)| <= |v.members|)
    && (forall k: nat :: Column(vs, k) != {} ==> (ColumnWithin(vs, k, h); Joinable(round, Column(vs, k), h - 1)))
    && (forall name :: Group(vs, name) != {} ==> (GroupWithin(vs, name, h); Joinable(round, Group(vs, name), h - 1)))
  }

  lemma ColumnWithin(vs: set<Value>, k: nat, h: nat)
    requires Within(vs, h) && Column(vs, k) != {}
    ensures h > 0 && Within(Column(vs, k), h - 1)
  {
    forall w | w in Column(vs, k) ensures h > 0 && Height(w) <= h - 1 {
      var v :| v in vs && v.Arr? && k < |v.elems| && v.elems[k] == w;
      assert Height(v) == 1 + MaxHeight(v.elems);
    }
    var w :| w in Column(vs, k);
  }

  lemma GroupWithin(vs: set<Value>, name: Text, h: nat)
    requires Within(vs, h) && Group(vs, name) != {}
    ensures h > 0 && Within(Group(vs, name), h - 1)
  {
    forall w | w in Group(vs, name) ensures h > 0 && Height(w) <= h - 1 {
      var v, k :| v in vs && v.Obj? && 0 <= k < |v.members| && v.members[k].name == name && v.members[k].value == w;
      assert Height(v) == 1 + MaxMemberHeight(v.members);
    }
    var w :| w in Group(vs, name);
  }

  ghost predicate EqualAll(round: int -> real, vs: set<Value>, b: Value) {
    forall v :: v in vs ==> Equal(round, v, b)
  }

  ghost predicate HavePartner(round: int -> real, vs: set<Value>) {
    exists b :: EqualAll(round, vs, b)
  }

  // ---------- from a partner ----------

  lemma AllNamesWithin(round: int -> real, vs: set<Value>, ns: seq<Member>)
    requires EqualAll(round, vs, Obj(ns))
    ensures AllNames(vs) <= Names(ns) && |AllNames(vs)| <= |ns|
  {
    forall name | name in AllNames(vs) ensures name in Names(ns) {
      var v, k :| v in vs && v.Obj? && 0 <= k < |v.members| && v.members[k].name == name;
      assert Equal(round, v, Obj(ns)) && Matched(round, v.members[k], ns);
      FoundIffNamed(ns, name);
    }
    NamesCount(ns);
    SubsetSize(AllNames(vs), Names(ns));
  }

  lemma SubsetSize<T>(a: set<T>, b: set<T>)
    requires a <= b
    ensures |a| <= |b|
  {
    assert b == a + (b - a);
  }

  lemma ColumnPartner(round: int -> real, vs: set<Value>, b: Value, k: nat)
    requires EqualAll(round, vs, b) && Column(vs, k) != {}
    ensures HavePartner(round, Column(vs, k))
  {
    var w0 :| w0 in Column(vs, k);
    var v0 :| v0 in vs && v0.Arr? && k < |v0.elems| && v0.elems[k] == w0;
    assert Equal(round, v0, b);
    forall w | w in Column(vs, k) ensures Equal(round, w, b.elems[k]) {
      var v :| v in vs && v.Arr? && k < |v.elems| && v.elems[k] == w;
      assert Equal(round, v, b);
    }
    assert EqualAll(round, Column(vs, k), b.elems[k]);
  }

  /** A member of an object that equals b, and the first of its name in b. */
  lemma MemberPartner(round: int -> real, v: Value, b: Value, k: nat)
    requires Equal(round, v, b) && v.Obj? && k < |v.members|
    ensures b.Obj? && Matched(round, v.members[k], b.members)
  {
  }

  lemma InGroup(vs: set<Value>, name: Text, w: Value) returns (v: Value, k: nat)
    requires w in Group(vs, name)
    ensures v in vs && v.Obj? && k < |v.members| && v.members[k].name == name && v.members[k].value == w
  {
    v, k :| v in vs && v.Obj? && 0 <= k < |v.members| && v.members[k].name == name && v.members[k].value == w;
  }

  lemma GroupPartner(round: int -> real, vs: set<Value>, b: Value, name: Text)
    requires EqualAll(round, vs, b) && Group(vs, name) != {}
    ensures HavePartner(round, Group(vs, name))
  {
    hide Group, Equal, FindMember;
    var w0 :| w0 in Group(vs, name);
    var v0, k0 := InGroup(vs, name, w0);
    MemberPartner(round, v0, b, k0);
    var j := FindMember(b.members, name);
    forall w | w in Group(vs, name) ensures Equal(round, w, b.members[j].value) {
      var v, k := InGroup(vs, name, w);
      MemberPartner(round, v, b, k);
    }
    assert EqualAll(round, Group(vs, name), b.members[j].value);
  }

  lemma PartnerMeets(round: int -> real, vs: set<Value>, b: Value)
    requires EqualAll(round, vs, b)
    ensures Meet(round, vs)
  {
    forall v | v in vs ensures Alike(round, v, b) { assert Equal(round, v, b); }
    match b
    case Num(n) => assert OneInteger(round, vs);
    case Double(d) => assert OneDouble(round, vs);
    case _ => assert AllAlike(round, vs);
  }

  lemma {:induction false} PartnerJoins(round: int -> real, vs: set<Value>, h: nat)
    requires Within(vs, h) && HavePartner(round, vs)
    ensures Joinable(round, vs, h)
    decreases h
  {
    hide Within, EqualAll, Column, Group, AllNames, Meet;
    var b :| EqualAll(round, vs, b);
    PartnerMeets(round, vs, b);
    forall v | v in vs && v.Obj? ensures |AllNames(vs)| <= |v.members| {
      SameCount(round, vs, b, v);
      AllNamesWithin(round, vs, b.members);
    }
    forall k: nat | Column(vs, k) != {}
      ensures h > 0 && Within(Column(vs, k), h - 1) && Joinable(round, Column(vs, k), h - 1)
    {
      ColumnWithin(vs, k, h);
      ColumnPartner(round, vs, b, k);
      PartnerJoins(round, Column(vs, k), h - 1);
    }
    forall name | Group(vs, name) != {}
      ensures h > 0 && Within(Group(vs, name), h - 1) && Joinable(round, Group(vs, name), h - 1)
    {
      GroupWithin(vs, name, h);
      GroupPartner(round, vs, b, name);
      PartnerJoins(round, Group(vs, name), h - 1);
    }
  }

  lemma SameCount(round: int -> real, vs: set<Value>, b: Value, v: Value)
    requires EqualAll(round, vs, b) && v in vs && v.Obj?
    ensures b.Obj? && |b.members| == |v.members|
  {
  }

  // ---------- to a partner ----------

  ghost function Partner(round: int -> real, vs: set<Value>): (b: Value)
    requires HavePartner(round, vs)
    ensures EqualAll(round, vs, b)
  {
    var b :| EqualAll(round, vs, b);
    b
  }

  lemma ScalarPartner(round: int -> real, vs: set<Value>, v: Value)
    requires v in vs && Meet(round, vs) && !v.Arr? && !v.Obj?
    ensures HavePartner(round, vs)
  {
    var b := v;
    if OneDouble(round, vs) {
      b := Double(AsReal(round, v));
    } else if OneInteger(round, vs) {
      var n: int :| forall u :: u in vs ==> Alike(round, u, Num(n));
      b := Num(n);
    }
    forall u | u in vs ensures Equal(round, u, b) {
      assert Alike(round, u, b);
    }
    assert EqualAll(round, vs, b);
  }

  lemma ContainersAlike(round: int -> real, vs: set<Value>, u: Value, v: Value)
    requires u in vs && v in vs && Meet(round, vs) && (v.Arr? || v.Obj?)
    ensures Alike(round, u, v)
  {
  }

  lemma ArrayPartner(round: int -> real, vs: set<Value>, v: Value)
    requires v in vs && Meet(round, vs) && v.Arr?
    requires forall k: nat :: Column(vs, k) != {} ==> HavePartner(round, Column(vs, k))
    ensures HavePartner(round, vs)
  {
    hide Meet;
    forall k | 0 <= k < |v.elems| ensures HavePartner(round, Column(vs, k)) {
      assert v.elems[k] in Column(vs, k);
    }
    var b := Arr(seq(|v.elems|, k requires 0 <= k < |v.elems| => Partner(round, Column(vs, k))));
    forall u | u in vs ensures Equal(round, u, b) {
      ContainersAlike(round, vs, u, v);
      forall k | 0 <= k < |u.elems| ensures Equal(round, u.elems[k], b.elems[k]) {
        assert u.elems[k] in Column(vs, k);
      }
    }
    assert EqualAll(round, vs, b);
  }

  /** One member for each of these names, its value the partner of all members of that name. */
  ghost predicate Covered(round: int -> real, vs: set<Value>, names: set<Text>, ms: seq<Member>) {
    && Names(ms) == names && |ms| == |names|
    && forall k :: 0 <= k < |ms| ==>
         HavePartner(round, Group(vs, ms[k].name)) && ms[k].value == Partner(round, Group(vs, ms[k].name))
  }

  lemma {:induction false} PartnersOf(round: int -> real, vs: set<Value>, names: set<Text>) returns (ms: seq<Member>)
    requires forall name :: name in names ==> HavePartner(round, Group(vs, name))
    ensures Covered(round, vs, names, ms)
  {
    hide HavePartner, Group, Partner;
    ms := [];
    if names != {} {
      var name :| name in names;
      var rest := PartnersOf(round, vs, names - {name});
      ms := rest + [Member(name, Partner(round, Group(vs, name)))];
      OneMoreCovered(round, vs, names - {name}, rest, name);
      assert names == names - {name} + {name};
    } else {
      assert Names(ms) == names;
    }
  }

  lemma OneMoreCovered(round: int -> real, vs: set<Value>, names: set<Text>, ms: seq<Member>, name: Text)
    requires Covered(round, vs, names, ms) && name !in names && HavePartner(round, Group(vs, name))
    ensures Covered(round, vs, names + {name}, ms + [Member(name, Partner(round, Group(vs, name)))])
  {
    hide HavePartner, Group, Partner, Names;
    var all := ms + [Member(name, Partner(round, Group(vs, name)))];
    assert all[..|all| - 1] == ms;
    NamesOfLast(all);
  }

  lemma NamedInGroup(vs: set<Value>, u: Value, k: nat)
    requires u in vs && u.Obj? && k < |u.members|
    ensures u.members[k].name in AllNames(vs) && u.members[k].value in Group(vs, u.members[k].name)
  {
  }

  lemma ObjectPartner(round: int -> real, vs: set<Value>, v: Value)
    requires v in vs && Meet(round, vs) && v.Obj? && |AllNames(vs)| <= |v.members|
    requires forall name :: Group(vs, name) != {} ==> HavePartner(round, Group(vs, name))
    ensures HavePartner(round, vs)
  {
    hide Group, AllNames, HavePartner, Meet;
    forall name | name in AllNames(vs) ensures HavePartner(round, Group(vs, name)) {
      GroupNotEmpty(vs, name);
    }
    var core := PartnersOf(round, vs, AllNames(vs));
    var padding: seq<Member> := [];
    if |core| < |v.members| {
      var filler := Member(v.members[0].name, Null);
      padding := seq(|v.members| - |core|, _ => filler);
    }
    var b := Obj(core + padding);
    forall u | u in vs ensures Equal(round, u, b) {
      ContainersAlike(round, vs, u, v);
      forall k | 0 <= k < |u.members| ensures Matched(round, u.members[k], core + padding) {
        NamedInGroup(vs, u, k);
        FoundFirst(core, padding, u.members[k].name);
        var j := FindMember(core, u.members[k].name);
        assert EqualAll(round, Group(vs, core[j].name), core[j].value);
      }
    }
    IsPartner(round, vs, b);
  }

  lemma GroupNotEmpty(vs: set<Value>, name: Text)
    requires name in AllNames(vs)
    ensures Group(vs, name) != {}
  {
    var v, k :| v in vs && v.Obj? && 0 <= k < |v.members| && v.members[k].name == name;
    assert v.members[k].value in Group(vs, name);
  }

  lemma FoundFirst(core: seq<Member>, padding: seq<Member>, name: Text)
    requires name in Names(core)
    ensures FindMember(core + padding, name) == FindMember(core, name) < |core|
  {
    FoundIffNamed(core, name);
    var j := FindMember(core, name);
    var all := core + padding;
    assert all[j].name == name;
    assert forall i :: 0 <= i < j ==> all[i] == core[i];
  }

  lemma IsPartner(round: int -> real, vs: set<Value>, b: Value)
    requires forall u :: u in vs ==> Equal(round, u, b)
    ensures HavePartner(round, vs)
  {
    assert EqualAll(round, vs, b);
  }

  lemma {:induction false} JoinableHavePartner(round: int -> real, vs: set<Value>, h: nat)
    requires Within(vs, h) && vs != {} && Joinable(round, vs, h)
    ensures HavePartner(round, vs)
    decreases h
  {
    hide Within, HavePartner, Column, Group, AllNames, Meet;
    var v :| v in vs;
    forall k: nat | Column(vs, k) != {} ensures HavePartner(round, Column(vs, k)) {
      ColumnWithin(vs, k, h);
      JoinableHavePartner(round, Column(vs, k), h - 1);
    }
    forall name | Group(vs, name) != {} ensures HavePartner(round, Group(vs, name)) {
      GroupWithin(vs, name, h);
      JoinableHavePartner(round, Group(vs, name), h - 1);
    }
    if v.Arr? {
      ArrayPartner(round, vs, v);
    } else if v.Obj? {
      ObjectPartner(round, vs, v);
    } else {
      ScalarPartner(round, vs, v);
    }
  }

  // ---------- the promise of the comment ----------

  /** All members of one name can share one partner, at every depth. */
  ghost predicate SelfJoinable(round: int -> real, a: Value) {
    Joinable(round, {a}, Height(a))
  }

  /** A value equals something exactly when its members join. The comment promises that an
      object with a repeated name never equals anything. */
  lemma EqualsSomethingIff(round: int -> real, a: Value)
    ensures (exists b :: Equal(round, a, b)) <==> SelfJoinable(round, a)
  {
    if exists b :: Equal(round, a, b) {
      var b :| Equal(round, a, b);
      assert EqualAll(round, {a}, b);
      PartnerJoins(round, {a}, Height(a));
    }
    if SelfJoinable(round, a) {
      JoinableHavePartner(round, {a}, Height(a));
      var b := Partner(round, {a});
      assert Equal(round, a, b);
    }
  }

  ghost predicate IntegersOfOneDouble(round: int -> real, vs: set<Value>) {
    && (forall v :: v in vs ==> v.Num?)
    && forall u, v :: u in vs && v in vs ==> round(u.n) == round(v.n)
  }

  /** Without doubles, values meet when they are alike or integers with one double between
      them. */
  lemma MeetWithoutDoubles(round: int -> real, vs: set<Value>)
    requires forall v :: v in vs ==> !v.Double?
    ensures Meet(round, vs) <==> AllAlike(round, vs) || IntegersOfOneDouble(round, vs)
  {
    hide Alike, AllAlike, OneInteger;
    if OneInteger(round, vs) {
      OneIntegerAlike(round, vs);
    }
  }

  lemma OneIntegerAlike(round: int -> real, vs: set<Value>)
    requires OneInteger(round, vs) && forall v :: v in vs ==> !v.Double?
    ensures AllAlike(round, vs)
  {
    hide Alike;
    var n: int :| forall v :: v in vs ==> Alike(round, v, Num(n));
    forall u, v | u in vs && v in vs ensures Alike(round, u, v) {
      SameWord(round, u, v, n);
    }
  }

  lemma SameWord(round: int -> real, u: Value, v: Value, n: int)
    requires Alike(round, u, Num(n)) && Alike(round, v, Num(n)) && !u.Double? && !v.Double?
    ensures Alike(round, u, v)
  {
  }

  /** As many copies of the first member as the object has members. */
  function Repeated(b: Value): Value {
    match b
    case Arr(elems) => Arr(seq(|elems|, k requires 0 <= k < |elems| => Repeated(elems[k])))
    case Obj(members) =>
      if members == [] then b
      else
        var first := Member(members[0].name, Repeated(members[0].value));
        Obj(seq(|members|, _ => first))
    case _ => b
  }

  /** On the right-hand side the promise never holds: every value is equalled by some value,
      whatever names it repeats. */
  lemma {:induction false} EverythingIsEqualled(round: int -> real, b: Value)
    ensures Equal(round, Repeated(b), b)
    ensures DoubleFree(b) ==> DoubleFree(Repeated(b))
  {
    match b
    case Arr(elems) =>
      forall k | 0 <= k < |elems|
        ensures Equal(round, Repeated(elems[k]), elems[k]) && (DoubleFree(b) ==> DoubleFree(Repeated(elems[k])))
      {
        EverythingIsEqualled(round, elems[k]);
      }
    case Obj(members) =>
      if members != [] {
        EverythingIsEqualled(round, members[0].value);
        assert Matched(round, Member(members[0].name, Repeated(members[0].value)), members);
      }
    case _ =>
  }

  /** Two different integers with one double between them, under one name: the object equals
      nothing but objects that hold that double. */
  lemma DoubleJoins(round: int -> real, m: int, n: int, x: Text, z: Text)
    requires round(m) == round(n) && Word64(m) != Word64(n) && x != z
    ensures var a, b := Obj([Member(x, Num(m)), Member(x, Num(n))]),
                        Obj([Member(x, Double(round(m))), Member(z, Null)]);
            && Equal(round, a, b)
            && forall c :: DoubleFree(c) ==> !Equal(round, a, c)
  {
    var ms := [Member(x, Num(m)), Member(x, Num(n))];
    var ns := [Member(x, Double(round(m))), Member(z, Null)];
    assert Matched(round, ms[0], ns) && Matched(round, ms[1], ns);
    forall c | DoubleFree(c) ensures !Equal(round, Obj(ms), c) {
      if c.Obj? {
        NoIntegerJoins(round, ms[0], ms[1], c.members);
      }
    }
  }

  lemma NoIntegerJoins(round: int -> real, m: Member, n: Member, os: seq<Member>)
    requires m.value.Num? && n.value.Num? && Word64(m.value.n) != Word64(n.value.n) && m.name == n.name
    requires DoubleFree(Obj(os))
    ensures !Matched(round, m, os) || !Matched(round, n, os)
  {
    var j := FindMember(os, m.name);
    assert j < |os| ==> DoubleFree(os[j].value);
  }

  /** A value may equal another without equalling itself. */
  lemma EqualsAnotherOnly(round: int -> real, x: Text, p: Text, q: Text, z: Text)
    requires p != q && x != z
    ensures var pp, pq := Obj([Member(p, Null), Member(p, Null)]), Obj([Member(p, Null), Member(q, Null)]);
            var a, b := Obj([Member(x, pp), Member(x, pq)]), Obj([Member(x, pq), Member(z, Null)]);
            Equal(round, a, b) && !Equal(round, a, a)
  {
    var twice, both := [Member(p, Null), Member(p, Null)], [Member(p, Null), Member(q, Null)];
    var ms, ns := [Member(x, Obj(twice)), Member(x, Obj(both))], [Member(x, Obj(both)), Member(z, Null)];
    assert Matched(round, twice[0], both) && Matched(round, both[0], both) && Matched(round, both[1], both);
    assert Equal(round, Obj(twice), Obj(both)) && Equal(round, Obj(both), Obj(both));
    assert Matched(round, ms[0], ns) && Matched(round, ms[1], ns);
    assert FindMember(twice, q) == 2;
    assert !Matched(round, both[1], twice);
    assert !Equal(round, Obj(both), Obj(twice));
    assert !Matched(round, ms[1], ms);
  }
}
