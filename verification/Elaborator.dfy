/** The elaborator in place: flags, cache and error count are updated as it recurses. */
module Elaborators {
  import opened Types
  import opened TypeElab

  lemma MembersStep(defs: Defs, st: State, packed: bool, members: seq<Member>, cur: nat)
    requires Closed(defs) && (forall i | 0 <= i < |members| :: members[i].memberType in defs) && cur < |members|
    ensures var done := ElabMembers(defs, st, packed, members[..cur]);
      var next := ElabMember(defs, done.0, packed, members[cur]);
      ElabMembers(defs, st, packed, members[..cur + 1]) == (next.0, done.1 + next.1)
  {
    assert members[..cur + 1][..cur] == members[..cur];
  }

  class Elaborator {
    const defs: Defs
    var elaborating: set<TypeId>
    var cache: map<TypeId, NetType>
    var errors: nat
    /** The circularity errors among the errors, and the raw elaborations as they start and finish. */
    ghost var circular: nat
    ghost var runs: seq<TypeId>
    ghost var order: seq<TypeId>

    constructor (defs: Defs)
      ensures this.defs == defs && Now() == State({}, map[], 0, 0, [], [])
    {
      this.defs := defs;
      elaborating, cache, errors := {}, map[], 0;
      circular, runs, order := 0, [], [];
    }

    ghost function Now(): State
      reads this
    {
      State(elaborating, cache, errors, circular, runs, order)
    }

    /** `data_type_t::elaborate_type`. */
    method ElaborateType(t: TypeId) returns (r: NetType)
      requires Closed(defs) && t in defs
      modifies this
      ensures (Now(), r) == Elab(defs, old(Now()), t)
      decreases Left(defs, Now()), 0
    {
      if t in cache { return cache[t]; }
      if t in elaborating {
        errors, circular := errors + 1, circular + 1;
        r := NInteger;
      } else {
        StartLeft(defs, Now(), t);
        elaborating, runs := elaborating + {t}, runs + [t];
        r := ElaborateRaw(t);
        elaborating, order := elaborating - {t}, order + [t];
      }
      if t !in cache { cache := cache[t := r]; }
    }

    /** `elaborate_type_raw`, by kind of type. */
    method ElaborateRaw(t: TypeId) returns (r: NetType)
      requires Closed(defs) && t in defs
      modifies this
      ensures (Now(), r) == Raw(defs, old(Now()), t)
      decreases Left(defs, Now()), 3
    {
      match defs[t] {
        case Vector(dims) => r := NVector(dims);
        case Real => r := NReal;
        case Str => r := NString;
        case Undefined =>
          errors := errors + 1;
          r := NInteger;
        case PArray(dims, base) => r := PackedArray(t, dims, base);
        case UArray(dims, base) => r := UnpackedArray(t, dims, base);
        case Enum(names, base) => r := Enumeration(t, names, base);
        case Struct(packed, members) =>
          MembersClosed(defs, t);
          var res := ElaborateMembers(packed, members);
          r := NStruct(packed, res);
        case TypeRef(target, expects) => r := Reference(t, target, expects);
      }
    }

    method PackedArray(t: TypeId, dims: nat, base: TypeId) returns (r: NetType)
      requires Closed(defs) && t in defs && defs[t] == PArray(dims, base)
      modifies this
      ensures (Now(), r) == Raw(defs, old(Now()), t)
      decreases Left(defs, Now()), 2
    {
      assert base in Kids(defs[t]);
      var elem := ElaborateType(base);
      if !Packed(elem) { errors := errors + 1; }
      r := NParray(dims, elem);
    }

    method UnpackedArray(t: TypeId, dims: nat, base: TypeId) returns (r: NetType)
      requires Closed(defs) && t in defs && defs[t] == UArray(dims, base)
      modifies this
      ensures (Now(), r) == Raw(defs, old(Now()), t)
      decreases Left(defs, Now()), 2
    {
      assert base in Kids(defs[t]);
      var elem := ElaborateType(base);
      r := if dims == 0 then elem else NUarray(dims, elem);
    }

    method Enumeration(t: TypeId, names: nat, base: TypeId) returns (r: NetType)
      requires Closed(defs) && t in defs && defs[t] == Enum(names, base)
      modifies this
      ensures (Now(), r) == Raw(defs, old(Now()), t)
      decreases Left(defs, Now()), 2
    {
      assert base in Kids(defs[t]);
      var elem := ElaborateType(base);
      if !(elem.NInteger? || elem.NVector? || elem.NParray?) {
        errors := errors + 1;
      } else if SliceDims(elem) > 1 {
        errors := errors + 1;
      }
      r := NEnum(elem, names);
    }

    method Reference(t: TypeId, target: TypeId, expects: Expects) returns (r: NetType)
      requires Closed(defs) && t in defs && defs[t] == TypeRef(target, expects)
      modifies this
      ensures (Now(), r) == Raw(defs, old(Now()), t)
      decreases Left(defs, Now()), 2
    {
      assert target in Kids(defs[t]);
      r := ElaborateType(target);
      if !Matches(expects, r) { errors := errors + 1; }
    }

    method ElaborateMember(packed: bool, m: Member) returns (added: seq<NetType>)
      requires Closed(defs) && m.memberType in defs
      modifies this
      ensures (Now(), added) == ElabMember(defs, old(Now()), packed, m)
      decreases Left(defs, Now()), 1
    {
      var kid := ElaborateType(m.memberType);
      var bad;
      added, bad := AppendNames(packed, kid, m.names);
      errors := errors + bad;
    }

    /** The loop of `struct_type_t::elaborate_type_raw`. */
    method ElaborateMembers(packed: bool, members: seq<Member>) returns (res: seq<NetType>)
      requires Closed(defs) && forall i | 0 <= i < |members| :: members[i].memberType in defs
      modifies this
      ensures Now() == ElabMembers(defs, old(Now()), packed, members).0
      ensures res == ElabMembers(defs, old(Now()), packed, members).1
      decreases Left(defs, Now()), 2
    {
      var cur := 0;
      res := [];
      while cur < |members|
        invariant 0 <= cur <= |members|
        invariant Now() == ElabMembers(defs, old(Now()), packed, members[..cur]).0
        invariant res == ElabMembers(defs, old(Now()), packed, members[..cur]).1
      {
        MembersStep(defs, old(Now()), packed, members, cur);
        LeftFalls(defs, old(Now()), Now());
        var added := ElaborateMember(packed, members[cur]);
        res := res + added;
        cur := cur + 1;
      }
      assert members[..cur] == members;
    }
  }

  /** The members that one declaration adds, and the errors found. */
  method AppendNames(packed: bool, t: NetType, names: seq<Name>) returns (members: seq<NetType>, errors: nat)
    ensures members == NamesOf(t, names) && errors == NamesMisuse(packed, t, names)
  {
    members, errors := [], 0;
    var cur := 0;
    while cur < |names|
      invariant 0 <= cur <= |names|
      invariant members == NamesOf(t, names[..cur]) && errors == NamesMisuse(packed, t, names[..cur])
    {
      assert names[..cur + 1][..cur] == names[..cur];
      if packed && names[cur].hasDefault { errors := errors + 1; }
      var memb := ArrayOf(t, names[cur].dims);
      members := members + [memb];
      if packed && !Packed(memb) { errors := errors + 1; }
      cur := cur + 1;
    }
    assert names[..cur] == names;
  }
}
