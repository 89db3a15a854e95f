/** Elaboration of one type as a step from state to state, and what every run of it keeps. */
module TypeElab {
  import opened Types

  /** The flags, the cache and the error count; of the errors, those of circularity; and
      the raw elaborations in the order they started and finished. */
  datatype State = State(elaborating: set<TypeId>, cache: map<TypeId, NetType>, errors: nat,
                         circular: nat, runs: seq<TypeId>, order: seq<TypeId>)

  ghost function Left(defs: Defs, st: State): nat {
    |defs.Keys - st.elaborating - st.cache.Keys|
  }

  /** The flags are as before, what was cached stays, and errors are only added. */
  ghost predicate Extends(a: State, b: State) {
    && b.elaborating == a.elaborating
    && (forall k | k in a.cache :: k in b.cache && b.cache[k] == a.cache[k])
    && a.circular <= b.circular && a.errors + (b.circular - a.circular) <= b.errors
  }

  lemma LeftFalls(defs: Defs, a: State, b: State)
    requires a.elaborating <= b.elaborating && a.cache.Keys <= b.cache.Keys
    ensures Left(defs, b) <= Left(defs, a)
  {
    Fits(defs.Keys - b.elaborating - b.cache.Keys, defs.Keys - a.elaborating - a.cache.Keys);
  }

  function Start(st: State, t: TypeId): State {
    st.(elaborating := st.elaborating + {t}, runs := st.runs + [t])
  }

  function Finish(st: State, t: TypeId, r: NetType): State {
    st.(elaborating := st.elaborating - {t}, order := st.order + [t],
        cache := if t in st.cache then st.cache else st.cache[t := r])
  }

  function Circular(st: State, t: TypeId): State {
    st.(errors := st.errors + 1, circular := st.circular + 1, cache := st.cache[t := NInteger])
  }

  lemma StartLeft(defs: Defs, st: State, t: TypeId)
    requires t in defs && t !in st.elaborating && t !in st.cache
    ensures Left(defs, Start(st, t)) < Left(defs, st)
  {
    var left := defs.Keys - st.elaborating - st.cache.Keys;
    assert t in left;
    assert defs.Keys - (st.elaborating + {t}) - st.cache.Keys == left - {t};
  }

  lemma FinishExtends(st: State, st': State, t: TypeId, r: NetType)
    requires t !in st.elaborating && t !in st.cache && Extends(Start(st, t), st')
    ensures Extends(st, Finish(st', t, r)) && t in Finish(st', t, r).cache
  {
    assert st.elaborating + {t} - {t} == st.elaborating;
  }

  lemma MembersClosed(defs: Defs, t: TypeId)
    requires Closed(defs) && t in defs && defs[t].Struct?
    ensures forall i | 0 <= i < |defs[t].members| :: defs[t].members[i].memberType in defs
  {
    forall i | 0 <= i < |defs[t].members| ensures defs[t].members[i].memberType in defs {
      assert Kids(defs[t])[i] in Kids(defs[t]);
    }
  }

  /** `data_type_t::elaborate_type`. */
  ghost function Elab(defs: Defs, st: State, t: TypeId): (r: (State, NetType))
    requires Closed(defs) && t in defs
    ensures Extends(st, r.0) && t in r.0.cache
    decreases Left(defs, st), 0
  {
    if t in st.cache then (st, st.cache[t])
    else if t in st.elaborating then (Circular(st, t), NInteger)
    else
      StartLeft(defs, st, t);
      var (st', r) := Raw(defs, Start(st, t), t);
      FinishExtends(st, st', t, r);
      (Finish(st', t, r), r)
  }

  /** `elaborate_type_raw` of each kind of type. */
  ghost function Raw(defs: Defs, st: State, t: TypeId): (r: (State, NetType))
    requires Closed(defs) && t in defs
    ensures Extends(st, r.0)
    decreases Left(defs, st), 3
  {
    var def := defs[t];
    if def.Struct? then
      MembersClosed(defs, t);
      var (st', members) := ElabMembers(defs, st, def.packed, def.members);
      (st', NStruct(def.packed, members))
    else if Kids(def) == [] then
      (st.(errors := st.errors + Misuse(def, [])), Build(def, []))
    else
      assert Kids(def)[0] in Kids(def);
      var (st', kid) := Elab(defs, st, Kids(def)[0]);
      (st'.(errors := st'.errors + Misuse(def, [kid])), Build(def, [kid]))
  }

  /** The loop over the members of a structure, up to the last of `members`. */
  ghost function ElabMembers(defs: Defs, st: State, packed: bool, members: seq<Member>): (r: (State, seq<NetType>))
    requires Closed(defs) && forall i | 0 <= i < |members| :: members[i].memberType in defs
    ensures Extends(st, r.0)
    decreases Left(defs, st), 2, |members|
  {
    if members == [] then (st, [])
    else
      var last := members[|members| - 1];
      var (st1, built) := ElabMembers(defs, st, packed, members[..|members| - 1]);
      LeftFalls(defs, st, st1);
      var (st2, added) := ElabMember(defs, st1, packed, last);
      (st2, built + added)
  }

  /** One member declaration. */
  ghost function ElabMember(defs: Defs, st: State, packed: bool, m: Member): (r: (State, seq<NetType>))
    requires Closed(defs) && m.memberType in defs
    ensures Extends(st, r.0)
    decreases Left(defs, st), 1
  {
    var (st', kid) := Elab(defs, st, m.memberType);
    (st'.(errors := st'.errors + NamesMisuse(packed, kid, m.names)), NamesOf(kid, m.names))
  }
}
