/** What is wrong with a type, read off the definitions alone, and what each type comes to. */
module TypeFaults {
  import opened Types
  import opened TypeElab
  import opened TypeRuns

  // ----- what a type stands for -----

  /** A reference, and an unpacked array without dimensions, stand for the type they name. */
  predicate Alias(def: TypeDef) {
    def.TypeRef? || (def.UArray? && def.dims == 0)
  }

  /** `p` follows such names from its first type to the type that they stand for. */
  ghost predicate Leads(defs: Defs, p: seq<TypeId>) {
    && p != [] && IsPath(defs, p)
    && (forall i | 0 <= i < |p| - 1 :: Alias(defs[p[i]]))
    && !Alias(defs[p[|p| - 1]])
  }

  ghost predicate StandsFor(defs: Defs, t: TypeId, u: TypeId) {
    exists p: seq<TypeId> :: Leads(defs, p) && p[0] == t && p[|p| - 1] == u
  }

  // ----- what is wrong with a type -----

  predicate NotPacked(def: TypeDef) {
    def.Real? || def.Str? || def.UArray? || (def.Struct? && !def.packed)
  }

  ghost predicate Unpackable(defs: Defs, t: TypeId) {
    exists u | u in defs && StandsFor(defs, t, u) :: NotPacked(defs[u])
  }

  /** The dimensions that one definition adds. */
  function OwnDims(def: TypeDef): nat {
    match def
    case Vector(dims) => dims
    case PArray(dims, _) => dims
    case UArray(dims, _) => dims
    case Struct(_, _) => 1
    case Undefined => 1
    case _ => 0
  }

  function DimsOf(defs: Defs, p: seq<TypeId>): nat
    requires forall i | 0 <= i < |p| :: p[i] in defs
  {
    if p == [] then 0 else OwnDims(defs[p[0]]) + DimsOf(defs, p[1..])
  }

  /** `p` goes down through names, enumerations and packed arrays to what they are made of. */
  ghost predicate Spells(defs: Defs, p: seq<TypeId>) {
    && p != [] && IsPath(defs, p)
    && (forall i | 0 <= i < |p| - 1 :: Goes(defs[p[i]]))
    && !Goes(defs[p[|p| - 1]])
  }

  predicate Goes(def: TypeDef) {
    Alias(def) || def.PArray? || def.Enum?
  }

  ghost predicate BadEnumBase(defs: Defs, base: TypeId) {
    || (exists u | u in defs && StandsFor(defs, base, u) :: !(defs[u].Vector? || defs[u].PArray? || defs[u].Undefined?))
    || exists p: seq<TypeId> | Spells(defs, p) && p[0] == base :: DimsOf(defs, p) > 1
  }

  ghost predicate Unexpected(defs: Defs, target: TypeId, expects: Expects) {
    exists u | u in defs && StandsFor(defs, target, u) ::
      (expects == AnEnum && !defs[u].Enum?) || (expects == AStruct && !defs[u].Struct?)
  }

  /** The names that a structure declares, in order, each with its type. */
  datatype Decl = Decl(declType: TypeId, name: Name)

  function Declared(members: seq<Member>): seq<Decl> {
    if members == [] then []
    else
      var m := members[0];
      seq(|m.names|, i requires 0 <= i < |m.names| => Decl(m.memberType, m.names[i])) + Declared(members[1..])
  }

  ghost predicate BadMember(defs: Defs, d: Decl) {
    d.name.dims > 0 || Unpackable(defs, d.declType)
  }

  ghost function DeclFaults(defs: Defs, ds: seq<Decl>): nat {
    if ds == [] then 0
    else
      (if ds[0].name.hasDefault then 1 else 0) + (if BadMember(defs, ds[0]) then 1 else 0) + DeclFaults(defs, ds[1..])
  }

  /** The errors of one type. */
  ghost function Faults(defs: Defs, def: TypeDef): nat {
    match def
    case PArray(_, base) => if Unpackable(defs, base) then 1 else 0
    case Enum(_, base) => if BadEnumBase(defs, base) then 1 else 0
    case Struct(packed, members) => if packed then DeclFaults(defs, Declared(members)) else 0
    case TypeRef(target, expects) => if Unexpected(defs, target, expects) then 1 else 0
    case Undefined => 1
    case _ => 0
  }

  // ----- a cached type is that of the type it stands for -----

  lemma {:induction false} LeadsTo(defs: Defs, cache: map<TypeId, NetType>, order: seq<TypeId>, p: seq<TypeId>)
    requires Faithful(defs, cache, order) && Leads(defs, p) && p[0] in cache
    ensures p[|p| - 1] in cache && cache[p[|p| - 1]] == cache[p[0]]
  {
    assert p[0] in order;
    if |p| > 1 {
      assert Alias(defs[p[0]]);
      assert p[1] == Kids(defs[p[0]])[0];
      LeadsTo(defs, cache, order, p[1..]);
    }
  }

  lemma {:induction false} LeadsSomewhere(defs: Defs, order: seq<TypeId>, i: nat) returns (p: seq<TypeId>)
    requires Topological(defs, order) && i < |order|
    ensures Leads(defs, p) && p[0] == order[i]
    decreases i
  {
    var t := order[i];
    p := [t];
    if Alias(defs[t]) {
      var k := Kids(defs[t])[0];
      assert k in Kids(defs[t]);
      var j :| 0 <= j < i && order[..i][j] == k;
      var rest := LeadsSomewhere(defs, order, j);
      p := p + rest;
    }
  }

  lemma Stands(defs: Defs, cache: map<TypeId, NetType>, order: seq<TypeId>, t: TypeId)
    requires Faithful(defs, cache, order) && t in cache
    ensures exists u | u in defs :: StandsFor(defs, t, u)
    ensures forall u | u in defs && StandsFor(defs, t, u) :: u in cache && cache[u] == cache[t] && !Alias(defs[u])
  {
    var i :| 0 <= i < |order| && order[i] == t;
    var p := LeadsSomewhere(defs, order, i);
    assert StandsFor(defs, t, p[|p| - 1]);
    forall u | u in defs && StandsFor(defs, t, u) ensures u in cache && cache[u] == cache[t] && !Alias(defs[u]) {
      var q: seq<TypeId> :| Leads(defs, q) && q[0] == t && q[|q| - 1] == u;
      LeadsTo(defs, cache, order, q);
    }
  }

  /** A type that is no mere name is cached as its own kind. */
  lemma KindOf(defs: Defs, cache: map<TypeId, NetType>, order: seq<TypeId>, u: TypeId)
    requires Faithful(defs, cache, order) && u in cache && u in defs && !Alias(defs[u])
    ensures var def, r := defs[u], cache[u];
      && (def.Vector? <==> r.NVector?) && (def.Real? <==> r.NReal?) && (def.Str? <==> r.NString?)
      && (def.PArray? <==> r.NParray?) && (def.UArray? <==> r.NUarray?) && (def.Enum? <==> r.NEnum?)
      && (def.Struct? <==> r.NStruct?) && (def.Struct? ==> r.packed == def.packed)
      && (def.Undefined? <==> r.NInteger?)
  {
    assert u in order;
  }

  lemma UnpackableIs(defs: Defs, cache: map<TypeId, NetType>, order: seq<TypeId>, t: TypeId)
    requires Faithful(defs, cache, order) && t in cache
    ensures Unpackable(defs, t) <==> !Packed(cache[t])
  {
    Stands(defs, cache, order, t);
    forall u | u in defs && StandsFor(defs, t, u) ensures NotPacked(defs[u]) <==> !Packed(cache[t]) {
      KindOf(defs, cache, order, u);
    }
  }

  lemma UnexpectedIs(defs: Defs, cache: map<TypeId, NetType>, order: seq<TypeId>, t: TypeId, expects: Expects)
    requires Faithful(defs, cache, order) && t in cache
    ensures Unexpected(defs, t, expects) <==> !Matches(expects, cache[t])
  {
    Stands(defs, cache, order, t);
    forall u | u in defs && StandsFor(defs, t, u)
      ensures (defs[u].Enum? <==> cache[t].NEnum?) && (defs[u].Struct? <==> cache[t].NStruct?)
    {
      KindOf(defs, cache, order, u);
    }
  }

  lemma CachedAs(defs: Defs, cache: map<TypeId, NetType>, order: seq<TypeId>, t: TypeId)
    requires Faithful(defs, cache, order) && t in cache
    ensures Resolved(defs, cache, t) && cache[t] == Build(defs[t], Results(defs, cache, t))
  {
    assert t in order;
  }

  /** One step of the way down. */
  lemma DimsStep(defs: Defs, cache: map<TypeId, NetType>, t: TypeId)
    requires t in cache && Resolved(defs, cache, t) && cache[t] == Build(defs[t], Results(defs, cache, t))
    ensures var def := defs[t];
      if Goes(def) then |Kids(def)| == 1 && Kids(def)[0] in cache
        && SliceDims(cache[t]) == OwnDims(def) + SliceDims(cache[Kids(def)[0]])
      else SliceDims(cache[t]) == OwnDims(def)
  {
    if Goes(defs[t]) { assert Kids(defs[t])[0] in Kids(defs[t]); }
  }

  lemma SpellsTail(defs: Defs, p: seq<TypeId>)
    requires Spells(defs, p) && |p| > 1
    ensures Spells(defs, p[1..]) && p[0] in defs && Goes(defs[p[0]]) && Kids(defs[p[0]]) == [p[1]]
  {
    assert Goes(defs[p[0]]);
    assert p[0 + 1] in Kids(defs[p[0]]);
    var q := p[1..];
    assert forall i | 0 <= i < |q| :: q[i] == p[i + 1];
    assert IsPath(defs, q);
  }

  lemma {:induction false} SpellsDims(defs: Defs, cache: map<TypeId, NetType>, order: seq<TypeId>, p: seq<TypeId>)
    requires Faithful(defs, cache, order) && Spells(defs, p) && p[0] in cache
    ensures DimsOf(defs, p) == SliceDims(cache[p[0]])
  {
    CachedAs(defs, cache, order, p[0]);
    DimsStep(defs, cache, p[0]);
    if |p| > 1 {
      SpellsTail(defs, p);
      SpellsDims(defs, cache, order, p[1..]);
    } else {
      assert p[1..] == [];
    }
  }

  lemma {:induction false} SpellsSomehow(defs: Defs, order: seq<TypeId>, i: nat) returns (p: seq<TypeId>)
    requires Topological(defs, order) && i < |order|
    ensures Spells(defs, p) && p[0] == order[i]
    decreases i
  {
    var t := order[i];
    p := [t];
    if Goes(defs[t]) {
      var k := Kids(defs[t])[0];
      assert k in Kids(defs[t]);
      var j :| 0 <= j < i && order[..i][j] == k;
      var rest := SpellsSomehow(defs, order, j);
      p := p + rest;
    }
  }

  lemma BadEnumBaseIs(defs: Defs, cache: map<TypeId, NetType>, order: seq<TypeId>, t: TypeId)
    requires Faithful(defs, cache, order) && t in cache
    ensures BadEnumBase(defs, t)
      <==> !(cache[t].NInteger? || cache[t].NVector? || cache[t].NParray?) || SliceDims(cache[t]) > 1
  {
    Stands(defs, cache, order, t);
    forall u | u in defs && StandsFor(defs, t, u)
      ensures (defs[u].Vector? <==> cache[t].NVector?) && (defs[u].PArray? <==> cache[t].NParray?)
      ensures defs[u].Undefined? <==> cache[t].NInteger?
    {
      KindOf(defs, cache, order, u);
    }
    var i :| 0 <= i < |order| && order[i] == t;
    var q := SpellsSomehow(defs, order, i);
    forall p: seq<TypeId> | Spells(defs, p) && p[0] == t ensures DimsOf(defs, p) == SliceDims(cache[t]) {
      SpellsDims(defs, cache, order, p);
    }
  }

  // ----- structures -----

  /** The types of the members that `ds` declares. */
  ghost function DeclTypes(cache: map<TypeId, NetType>, ds: seq<Decl>): seq<NetType>
    requires forall i | 0 <= i < |ds| :: ds[i].declType in cache
  {
    seq(|ds|, i requires 0 <= i < |ds| =>
      var d := ds[i]; if d.name.dims == 0 then cache[d.declType] else NUarray(d.name.dims, cache[d.declType]))
  }

  function DeclaredBy(m: Member): seq<Decl> {
    seq(|m.names|, i requires 0 <= i < |m.names| => Decl(m.memberType, m.names[i]))
  }

  lemma {:induction false} DeclaredSnoc(members: seq<Member>)
    requires members != []
    ensures Declared(members) == Declared(members[..|members| - 1]) + DeclaredBy(members[|members| - 1])
  {
    if |members| > 1 {
      DeclaredSnoc(members[1..]);
      assert members[1..][..|members| - 2] == members[..|members| - 1][1..];
    } else {
      assert members[1..] == [];
    }
  }

  lemma {:induction false} DeclFaultsJoin(defs: Defs, a: seq<Decl>, b: seq<Decl>)
    ensures DeclFaults(defs, a + b) == DeclFaults(defs, a) + DeclFaults(defs, b)
  {
    if a != [] {
      assert (a + b)[1..] == a[1..] + b;
      DeclFaultsJoin(defs, a[1..], b);
    } else {
      assert a + b == b;
    }
  }

  lemma OneName(defs: Defs, t: NetType, d: Decl)
    requires Unpackable(defs, d.declType) <==> !Packed(t)
    ensures NameMisuse(true, t, d.name) == DeclFaults(defs, [d]) && NameMisuse(false, t, d.name) == 0
  {
    assert [d][1..] == [];
  }

  lemma {:induction false} NamesAre(defs: Defs, t: NetType, m: Member)
    requires Unpackable(defs, m.memberType) <==> !Packed(t)
    ensures NamesMisuse(true, t, m.names) == DeclFaults(defs, DeclaredBy(m))
    ensures NamesMisuse(false, t, m.names) == 0
    decreases |m.names|
  {
    if m.names != [] {
      var n := |m.names| - 1;
      var front, last := m.(names := m.names[..n]), Decl(m.memberType, m.names[n]);
      NamesAre(defs, t, front);
      OneName(defs, t, last);
      assert DeclaredBy(m) == DeclaredBy(front) + [last];
      DeclFaultsJoin(defs, DeclaredBy(front), [last]);
    }
  }

  /** The cache knows of each type whether it is packed. */
  ghost predicate KnowsPacked(defs: Defs, cache: map<TypeId, NetType>) {
    forall t | t in cache :: Unpackable(defs, t) <==> !Packed(cache[t])
  }

  lemma {:induction false} MembersTypes(cache: map<TypeId, NetType>, members: seq<Member>)
    requires forall i | 0 <= i < |members| :: members[i].memberType in cache
    ensures forall i | 0 <= i < |Declared(members)| :: Declared(members)[i].declType in cache
    ensures MembersOf(members, MemberResults(cache, members)) == DeclTypes(cache, Declared(members))
  {
    if members != [] {
      var n := |members| - 1;
      var front, last := members[..n], members[n];
      MembersTypes(cache, front);
      DeclaredSnoc(members);
      assert MemberResults(cache, members)[..n] == MemberResults(cache, front);
      assert NamesOf(cache[last.memberType], last.names) == DeclTypes(cache, DeclaredBy(last));
    }
  }

  lemma {:induction false} MembersFaults(defs: Defs, cache: map<TypeId, NetType>, members: seq<Member>)
    requires KnowsPacked(defs, cache) && forall i | 0 <= i < |members| :: members[i].memberType in cache
    ensures MembersMisuse(true, members, MemberResults(cache, members)) == DeclFaults(defs, Declared(members))
    ensures MembersMisuse(false, members, MemberResults(cache, members)) == 0
  {
    if members != [] {
      var n := |members| - 1;
      var front, last := members[..n], members[n];
      MembersFaults(defs, cache, front);
      DeclaredSnoc(members);
      NamesAre(defs, cache[last.memberType], last);
      DeclFaultsJoin(defs, Declared(front), DeclaredBy(last));
      assert MemberResults(cache, members)[..n] == MemberResults(cache, front);
    }
  }

  // ----- one type -----

  lemma FaultsAre(defs: Defs, cache: map<TypeId, NetType>, order: seq<TypeId>, t: TypeId)
    requires Faithful(defs, cache, order) && t in order
    ensures Resolved(defs, cache, t) && Misuse(defs[t], Results(defs, cache, t)) == Faults(defs, defs[t])
  {
    var def := defs[t];
    assert Resolved(defs, cache, t);
    match def {
      case PArray(_, base) =>
        assert base in Kids(def);
        UnpackableIs(defs, cache, order, base);
      case Enum(_, base) =>
        assert base in Kids(def);
        BadEnumBaseIs(defs, cache, order, base);
      case TypeRef(target, expects) =>
        assert target in Kids(def);
        UnexpectedIs(defs, cache, order, target, expects);
      case Struct(packed, members) =>
        MembersCached(defs, cache, t);
        StructResults(defs, cache, t);
        forall k | k in cache ensures Unpackable(defs, k) <==> !Packed(cache[k]) {
          UnpackableIs(defs, cache, order, k);
        }
        MembersFaults(defs, cache, members);
      case _ =>
    }
  }

  lemma MembersCached(defs: Defs, cache: map<TypeId, NetType>, t: TypeId)
    requires Resolved(defs, cache, t) && defs[t].Struct?
    ensures forall i | 0 <= i < |defs[t].members| :: defs[t].members[i].memberType in cache
  {
    forall i | 0 <= i < |defs[t].members| ensures defs[t].members[i].memberType in cache {
      assert Kids(defs[t])[i] in Kids(defs[t]);
    }
  }

  // ----- the types reached -----

  ghost predicate Reaches(defs: Defs, t: TypeId, u: TypeId) {
    exists p: seq<TypeId> :: IsPath(defs, p) && p != [] && p[0] == t && p[|p| - 1] == u
  }

  /** The errors of all types of `order`. */
  ghost function AllFaults(defs: Defs, order: seq<TypeId>): nat {
    if order == [] then 0
    else
      var last := order[|order| - 1];
      AllFaults(defs, order[..|order| - 1]) + if last in defs then Faults(defs, defs[last]) else 0
  }

  /** The errors counted for `t` are those that its definition shows. */
  ghost predicate CountedRight(defs: Defs, cache: map<TypeId, NetType>, t: TypeId) {
    Resolved(defs, cache, t) && Misuse(defs[t], Results(defs, cache, t)) == Faults(defs, defs[t])
  }

  lemma {:induction false} SumIsFaults(defs: Defs, cache: map<TypeId, NetType>, order: seq<TypeId>)
    requires forall t | t in order :: CountedRight(defs, cache, t)
    ensures forall t | t in order :: Resolved(defs, cache, t)
    ensures Sum(defs, cache, order) == AllFaults(defs, order)
  {
    if order != [] {
      var front, last := order[..|order| - 1], order[|order| - 1];
      SumIsFaults(defs, cache, front);
      assert last in order;
      assert CountedRight(defs, cache, last);
    }
  }

  /** A type that finished, and all that it reaches, is in the order. */
  lemma ReachedFinished(defs: Defs, order: seq<TypeId>, t: TypeId, u: TypeId)
    requires Topological(defs, order) && t in order && Reaches(defs, t, u)
    ensures u in order
  {
    var p: seq<TypeId> :| IsPath(defs, p) && p != [] && p[0] == t && p[|p| - 1] == u;
    var i :| 0 <= i < |order| && order[i] == t;
    var j := PathDescends(defs, order, p, i, |p| - 1);
  }

  // ----- nothing else is elaborated -----

  /** Whatever `st'` has finished beyond `st` can be reached from `t`. */
  ghost predicate OnlyReached(defs: Defs, st: State, st': State, t: TypeId) {
    forall u | u in st'.order :: u in st.order || Reaches(defs, t, u)
  }

  lemma ReachesSelf(defs: Defs, t: TypeId)
    requires t in defs
    ensures Reaches(defs, t, t)
  {
    assert IsPath(defs, [t]);
  }

  lemma ReachesThrough(defs: Defs, t: TypeId, k: TypeId, u: TypeId)
    requires t in defs && k in Kids(defs[t]) && Reaches(defs, k, u)
    ensures Reaches(defs, t, u)
  {
    var p: seq<TypeId> :| IsPath(defs, p) && p != [] && p[0] == k && p[|p| - 1] == u;
    var q := [t] + p;
    assert IsPath(defs, q);
    assert q[|q| - 1] == u;
  }

  lemma {:induction false} ElabReached(defs: Defs, st: State, t: TypeId)
    requires Closed(defs) && t in defs
    ensures OnlyReached(defs, st, Elab(defs, st, t).0, t)
    decreases Left(defs, st), 0
  {
    if t !in st.cache && t !in st.elaborating {
      StartLeft(defs, st, t);
      RawReached(defs, Start(st, t), t);
      ReachesSelf(defs, t);
    }
  }

  lemma {:induction false} RawReached(defs: Defs, st: State, t: TypeId)
    requires Closed(defs) && t in defs
    ensures OnlyReached(defs, st, Raw(defs, st, t).0, t)
    decreases Left(defs, st), 3
  {
    var def := defs[t];
    if def.Struct? {
      MembersClosed(defs, t);
      forall i | 0 <= i < |def.members| ensures def.members[i].memberType in Kids(def) {
        assert Kids(def)[i] in Kids(def);
      }
      MembersReached(defs, st, t, def.packed, def.members);
    } else if Kids(def) != [] {
      var k := Kids(def)[0];
      assert k in Kids(def);
      ElabReached(defs, st, k);
      KidReached(defs, st, Elab(defs, st, k).0, t, k);
    }
  }

  lemma KidReached(defs: Defs, st: State, st': State, t: TypeId, k: TypeId)
    requires t in defs && k in Kids(defs[t]) && OnlyReached(defs, st, st', k)
    ensures OnlyReached(defs, st, st', t)
  {
    forall u | u in st'.order ensures u in st.order || Reaches(defs, t, u) {
      if u !in st.order { ReachesThrough(defs, t, k, u); }
    }
  }

  lemma {:induction false} MembersReached(defs: Defs, st: State, t: TypeId, packed: bool, members: seq<Member>)
    requires Closed(defs) && t in defs
    requires forall i | 0 <= i < |members| :: members[i].memberType in defs && members[i].memberType in Kids(defs[t])
    ensures OnlyReached(defs, st, ElabMembers(defs, st, packed, members).0, t)
    decreases Left(defs, st), 2, |members|
  {
    if members != [] {
      var front, k := members[..|members| - 1], members[|members| - 1].memberType;
      var st1 := ElabMembers(defs, st, packed, front).0;
      MembersReached(defs, st, t, packed, front);
      LeftFalls(defs, st, st1);
      ElabReached(defs, st1, k);
      KidReached(defs, st1, Elab(defs, st1, k).0, t, k);
    }
  }

  // ----- from an empty cache -----

  /** Without a reachable cycle, exactly the types that can be reached are elaborated, each
      once, and the errors counted are those that the definitions of these types show. */
  lemma FaultsExactly(defs: Defs, t: TypeId)
    requires Closed(defs) && t in defs && !CycleReachable(defs, t)
    ensures var st := Elab(defs, EMPTY, t).0;
      && (forall u :: u in st.order <==> Reaches(defs, t, u))
      && (forall i, j | 0 <= i < j < |st.order| :: st.order[i] != st.order[j])
      && st.errors == AllFaults(defs, st.order)
  {
    AcyclicIsUncached(defs, t);
    ElabReached(defs, EMPTY, t);
    var st := Elab(defs, EMPTY, t).0;
    forall u | u in st.order ensures CountedRight(defs, st.cache, u) { FaultsAre(defs, st.cache, st.order, u); }
    SumIsFaults(defs, st.cache, st.order);
    forall u | Reaches(defs, t, u) ensures u in st.order {
      ReachedFinished(defs, st.order, t, u);
    }
  }

  lemma {:induction false} NoFaults(defs: Defs, order: seq<TypeId>)
    ensures AllFaults(defs, order) == 0 <==> forall u | u in order && u in defs :: Faults(defs, defs[u]) == 0
  {
    if order != [] {
      var front, last := order[..|order| - 1], order[|order| - 1];
      NoFaults(defs, front);
      assert order == front + [last];
    }
  }

  /** No error is counted exactly when no cycle can be reached and no reachable type has a fault. */
  lemma CleanExactly(defs: Defs, t: TypeId)
    requires Closed(defs) && t in defs
    ensures Elab(defs, EMPTY, t).0.errors == 0
      <==> !CycleReachable(defs, t) && forall u | u in defs && Reaches(defs, t, u) :: Faults(defs, defs[u]) == 0
  {
    CircularExactly(defs, t);
    if !CycleReachable(defs, t) {
      FaultsExactly(defs, t);
      NoFaults(defs, Elab(defs, EMPTY, t).0.order);
    }
  }

  /** What a type comes to, in terms of what the types it names come to. */
  ghost predicate ComesTo(defs: Defs, cache: map<TypeId, NetType>, def: TypeDef, r: NetType) {
    match def
    case Vector(dims) => r == NVector(dims)
    case Real => r == NReal
    case Str => r == NString
    case PArray(dims, base) => base in cache && r == NParray(dims, cache[base])
    case UArray(dims, base) => base in cache && r == if dims == 0 then cache[base] else NUarray(dims, cache[base])
    case Enum(names, base) => base in cache && r == NEnum(cache[base], names)
    case Struct(packed, members) =>
      && (forall i | 0 <= i < |Declared(members)| :: Declared(members)[i].declType in cache)
      && r == NStruct(packed, DeclTypes(cache, Declared(members)))
    case Undefined => r == NInteger
    case TypeRef(target, _) => target in cache && r == cache[target]
  }

  lemma ComesToIs(defs: Defs, cache: map<TypeId, NetType>, t: TypeId)
    requires Resolved(defs, cache, t)
    ensures ComesTo(defs, cache, defs[t], Build(defs[t], Results(defs, cache, t)))
  {
    var def := defs[t];
    if def.Struct? {
      MembersCached(defs, cache, t);
      StructResults(defs, cache, t);
      MembersTypes(cache, def.members);
    }
  }

  /** Without a reachable cycle, every reachable type is cached with what its definition says. */
  lemma ResultsExactly(defs: Defs, t: TypeId)
    requires Closed(defs) && t in defs && !CycleReachable(defs, t)
    ensures var (st, r) := Elab(defs, EMPTY, t);
      && t in st.cache && r == st.cache[t]
      && forall u | u in defs && Reaches(defs, t, u) :: u in st.cache && ComesTo(defs, st.cache, defs[u], st.cache[u])
  {
    FaultsExactly(defs, t);
    CircularExactly(defs, t);
    ElabClean(defs, EMPTY, t, 0);
    var st := Elab(defs, EMPTY, t).0;
    forall u | u in defs && Reaches(defs, t, u)
      ensures u in st.cache && ComesTo(defs, st.cache, defs[u], st.cache[u])
    {
      assert u in st.order;
      ComesToIs(defs, st.cache, u);
    }
  }
}
