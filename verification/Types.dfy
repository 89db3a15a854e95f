/** Elaboration of type definitions with a cache, a flag on each type that is being
    elaborated, and a count of errors. The scope of each type is fixed. */
module Types {

  type TypeId = nat

  /** Names of one member declaration: their unpacked dimensions, and a default value. */
  datatype Name = Name(dims: nat, hasDefault: bool)

  datatype Member = Member(memberType: TypeId, names: seq<Name>)

  /** What a typedef was forward declared as. */
  datatype Expects = Anything | AnEnum | AStruct

  datatype TypeDef =
    | Vector(dims: nat)
    | Real
    | Str
    | PArray(dims: nat, base: TypeId)
    | UArray(dims: nat, base: TypeId)
    | Enum(names: nat, base: TypeId)
    | Struct(packed: bool, members: seq<Member>)
    | Undefined
    | TypeRef(target: TypeId, expects: Expects)

  datatype NetType =
    | NInteger
    | NVector(dims: nat)
    | NReal
    | NString
    | NParray(dims: nat, elem: NetType)
    | NUarray(dims: nat, elem: NetType)
    | NEnum(base: NetType, names: nat)
    | NStruct(packed: bool, members: seq<NetType>)

  type Defs = map<TypeId, TypeDef>

  function Kids(def: TypeDef): seq<TypeId> {
    match def
    case PArray(_, base) => [base]
    case UArray(_, base) => [base]
    case Enum(_, base) => [base]
    case Struct(_, members) => seq(|members|, i requires 0 <= i < |members| => members[i].memberType)
    case TypeRef(target, _) => [target]
    case _ => []
  }

  predicate Packed(t: NetType) {
    match t
    case NReal => false
    case NString => false
    case NUarray(_, _) => false
    case NStruct(packed, _) => packed
    case _ => true
  }

  /** Packed dimensions; the integer type and a structure have one. */
  function SliceDims(t: NetType): nat {
    match t
    case NInteger => 1
    case NVector(dims) => dims
    case NParray(dims, elem) => dims + SliceDims(elem)
    case NUarray(dims, _) => dims
    case NEnum(base, _) => SliceDims(base)
    case NStruct(_, _) => 1
    case _ => 0
  }

  predicate Matches(expects: Expects, t: NetType) {
    match expects
    case Anything => true
    case AnEnum => t.NEnum?
    case AStruct => t.NStruct?
  }

  function ArrayOf(t: NetType, dims: nat): NetType {
    if dims == 0 then t else NUarray(dims, t)
  }

  // ----- what a type comes to, given its operand types -----

  function NamesOf(t: NetType, names: seq<Name>): seq<NetType> {
    seq(|names|, i requires 0 <= i < |names| => ArrayOf(t, names[i].dims))
  }

  function MembersOf(members: seq<Member>, kids: seq<NetType>): seq<NetType>
    requires |kids| == |members|
  {
    if members == [] then []
    else
      MembersOf(members[..|members| - 1], kids[..|kids| - 1])
      + NamesOf(kids[|kids| - 1], members[|members| - 1].names)
  }

  function Build(def: TypeDef, kids: seq<NetType>): NetType
    requires |kids| == |Kids(def)|
  {
    match def
    case Vector(dims) => NVector(dims)
    case Real => NReal
    case Str => NString
    case PArray(dims, _) => NParray(dims, kids[0])
    case UArray(dims, _) => ArrayOf(kids[0], dims)
    case Enum(names, _) => NEnum(kids[0], names)
    case Struct(packed, members) => NStruct(packed, MembersOf(members, kids))
    case Undefined => NInteger
    case TypeRef(_, _) => kids[0]
  }

  /** Errors of packed structures: a default value, and a member that is not packed. */
  function NameMisuse(packed: bool, t: NetType, n: Name): nat {
    (if packed && n.hasDefault then 1 else 0) + if packed && !Packed(ArrayOf(t, n.dims)) then 1 else 0
  }

  function NamesMisuse(packed: bool, t: NetType, names: seq<Name>): nat {
    if names == [] then 0
    else NamesMisuse(packed, t, names[..|names| - 1]) + NameMisuse(packed, t, names[|names| - 1])
  }

  function MembersMisuse(packed: bool, members: seq<Member>, kids: seq<NetType>): nat
    requires |kids| == |members|
  {
    if members == [] then 0
    else MembersMisuse(packed, members[..|members| - 1], kids[..|kids| - 1])
         + NamesMisuse(packed, kids[|kids| - 1], members[|members| - 1].names)
  }

  /** The errors of one type, given its operand types. */
  function Misuse(def: TypeDef, kids: seq<NetType>): nat
    requires |kids| == |Kids(def)|
  {
    match def
    case PArray(_, _) => if Packed(kids[0]) then 0 else 1
    case Enum(_, _) =>
      if !(kids[0].NInteger? || kids[0].NVector? || kids[0].NParray?) || SliceDims(kids[0]) > 1 then 1 else 0
    case Struct(packed, members) => MembersMisuse(packed, members, kids)
    case Undefined => 1
    case TypeRef(_, expects) => if Matches(expects, kids[0]) then 0 else 1
    case _ => 0
  }

  ghost predicate Closed(defs: Defs) {
    forall t, k | t in defs && k in Kids(defs[t]) :: k in defs
  }

  // ----- paths and cycles -----

  ghost predicate IsPath(defs: Defs, p: seq<TypeId>) {
    && (forall i | 0 <= i < |p| :: p[i] in defs)
    && forall i | 0 <= i < |p| - 1 :: p[i + 1] in Kids(defs[p[i]])
  }

  ghost predicate Repeats(p: seq<TypeId>) {
    exists i, j :: 0 <= i < j < |p| && p[i] == p[j]
  }

  /** Some chain of definitions from `t` comes back to a type it has passed. */
  ghost predicate CycleReachable(defs: Defs, t: TypeId) {
    exists p: seq<TypeId> :: IsPath(defs, p) && p != [] && p[0] == t && Repeats(p)
  }

  // ----- the recursion without a cache -----

  /** Elaboration that only knows which types are being elaborated above it. */
  ghost function Uncached(defs: Defs, t: TypeId, above: set<TypeId>): NetType
    requires Closed(defs) && t in defs
    decreases |defs.Keys - above|
  {
    if t in above then NInteger
    else
      var ks := Kids(defs[t]);
      assert defs.Keys - (above + {t}) < defs.Keys - above by { assert t in defs.Keys - above; }
      Shrinks(defs.Keys - (above + {t}), defs.Keys - above);
      Build(defs[t], seq(|ks|, i requires 0 <= i < |ks| => assert ks[i] in ks; Uncached(defs, ks[i], above + {t})))
  }

  lemma {:induction false} Shrinks(a: set<TypeId>, b: set<TypeId>)
    requires a < b
    ensures |a| < |b|
  {
    var x :| x in b && x !in a;
    Fits(a, b - {x});
  }

  lemma {:induction false} Fits(a: set<TypeId>, b: set<TypeId>)
    requires a <= b
    ensures |a| <= |b|
  {
    if a != {} {
      var x :| x in a;
      Fits(a - {x}, b - {x});
    }
  }

  // ----- finish order -----

  /** Each type comes after the types it is made of. */
  ghost predicate Topological(defs: Defs, order: seq<TypeId>) {
    && (forall i, j | 0 <= i < j < |order| :: order[i] != order[j])
    && (forall i | 0 <= i < |order| :: order[i] in defs && forall k | k in Kids(defs[order[i]]) :: k in order[..i])
  }

  /** Along a path the place in the order falls at every step. */
  lemma {:induction false} PathDescends(defs: Defs, order: seq<TypeId>, p: seq<TypeId>, i: nat, k: nat) returns (j: nat)
    requires Topological(defs, order) && IsPath(defs, p) && p != [] && i < |order| && p[0] == order[i] && k < |p|
    ensures j < |order| && p[k] == order[j] && j + k <= i
  {
    if k == 0 { return i; }
    var m := PathDescends(defs, order, p, i, k - 1);
    assert p[k] in Kids(defs[p[k - 1]]);
    assert p[k] in order[..m];
    j :| 0 <= j < m && order[..m][j] == p[k];
  }

  lemma NoCycleFromOrder(defs: Defs, order: seq<TypeId>, t: TypeId)
    requires Topological(defs, order) && t in order
    ensures !CycleReachable(defs, t)
  {
    forall p: seq<TypeId> | IsPath(defs, p) && p != [] && p[0] == t ensures !Repeats(p) {
      forall a, b | 0 <= a < b < |p| ensures p[a] != p[b] {
        var i :| 0 <= i < |order| && order[i] == t;
        var ia := PathDescends(defs, order, p, i, a);
        var ib := PathDescends(defs, order, p[a..], ia, b - a);
        assert p[a..][b - a] == p[b];
      }
    }
  }

  /** All operand types of `t` are cached. */
  ghost predicate Resolved(defs: Defs, cache: map<TypeId, NetType>, t: TypeId) {
    t in defs && forall k | k in Kids(defs[t]) :: k in cache
  }

  ghost function Results(defs: Defs, cache: map<TypeId, NetType>, t: TypeId): seq<NetType>
    requires Resolved(defs, cache, t)
  {
    var ks := Kids(defs[t]);
    seq(|ks|, i requires 0 <= i < |ks| => assert ks[i] in ks; cache[ks[i]])
  }

  /** The cache holds for each type what it comes to, given the cached operand types. */
  ghost predicate Faithful(defs: Defs, cache: map<TypeId, NetType>, order: seq<TypeId>) {
    && Topological(defs, order)
    && (forall t :: t in cache <==> t in order)
    && forall t | t in order :: Resolved(defs, cache, t) && cache[t] == Build(defs[t], Results(defs, cache, t))
  }

  lemma PrefixAvoids(order: seq<TypeId>, k: nat, i: nat, above: set<TypeId>)
    requires k < i < |order| && forall t | t in above :: t !in order[..i + 1]
    requires forall a, b | 0 <= a < b < |order| :: order[a] != order[b]
    ensures forall t | t in above + {order[i]} :: t !in order[..k + 1]
  {
    forall a | 0 <= a <= k ensures order[a] !in above + {order[i]} {
      assert order[..i + 1][a] == order[a];
    }
  }

  /** A faithful cache holds the results of the uncached recursion. */
  lemma {:induction false} CacheIsUncached(defs: Defs, cache: map<TypeId, NetType>, order: seq<TypeId>, i: nat,
                                           above: set<TypeId>)
    requires Closed(defs) && Faithful(defs, cache, order) && i < |order|
    requires forall t | t in above :: t !in order[..i + 1]
    ensures order[i] in defs && order[i] in cache && Uncached(defs, order[i], above) == cache[order[i]]
    decreases i
  {
    var t, ks := order[i], Kids(defs[order[i]]);
    assert t == order[..i + 1][i] && Resolved(defs, cache, t);
    var kids := seq(|ks|, j requires 0 <= j < |ks| => assert ks[j] in ks; Uncached(defs, ks[j], above + {t}));
    forall j | 0 <= j < |ks| ensures kids[j] == Results(defs, cache, t)[j] {
      assert ks[j] in ks && ks[j] in order[..i];
      var k :| 0 <= k < i && order[k] == ks[j];
      PrefixAvoids(order, k, i, above);
      CacheIsUncached(defs, cache, order, k, above + {t});
    }
    assert kids == Results(defs, cache, t);
  }
}
