/** What every run of type elaboration keeps, and what it finds out from an empty cache. */
module TypeRuns {
  import opened Types
  import opened TypeElab

  // ----- no raw elaboration runs twice -----

  ghost predicate Once(st: State) {
    && (forall i, j | 0 <= i < j < |st.runs| :: st.runs[i] != st.runs[j])
    && forall t | t in st.runs :: t in st.elaborating || t in st.cache
  }

  lemma StartOnce(st: State, t: TypeId)
    requires Once(st) && t !in st.cache && t !in st.elaborating
    ensures Once(Start(st, t))
  {
    assert t !in st.runs;
  }

  lemma FinishOnce(st: State, t: TypeId, r: NetType)
    requires Once(st)
    ensures Once(Finish(st, t, r))
  {
  }

  lemma {:induction false} ElabOnce(defs: Defs, st: State, t: TypeId)
    requires Closed(defs) && t in defs && Once(st)
    ensures Once(Elab(defs, st, t).0)
    decreases Left(defs, st), 0
  {
    if t !in st.cache && t !in st.elaborating {
      StartLeft(defs, st, t);
      StartOnce(st, t);
      RawOnce(defs, Start(st, t), t);
      FinishOnce(Raw(defs, Start(st, t), t).0, t, Raw(defs, Start(st, t), t).1);
    }
  }

  lemma {:induction false} RawOnce(defs: Defs, st: State, t: TypeId)
    requires Closed(defs) && t in defs && Once(st)
    ensures Once(Raw(defs, st, t).0)
    decreases Left(defs, st), 2
  {
    var def := defs[t];
    if def.Struct? {
      MembersClosed(defs, t);
      MembersOnce(defs, st, def.packed, def.members);
    } else if Kids(def) != [] {
      assert Kids(def)[0] in Kids(def);
      ElabOnce(defs, st, Kids(def)[0]);
    }
  }

  lemma {:induction false} MembersOnce(defs: Defs, st: State, packed: bool, members: seq<Member>)
    requires Closed(defs) && (forall i | 0 <= i < |members| :: members[i].memberType in defs) && Once(st)
    ensures Once(ElabMembers(defs, st, packed, members).0)
    decreases Left(defs, st), 1, |members|
  {
    if members != [] {
      var front := members[..|members| - 1];
      MembersOnce(defs, st, packed, front);
      var st1 := ElabMembers(defs, st, packed, front).0;
      LeftFalls(defs, st, st1);
      ElabOnce(defs, st1, members[|members| - 1].memberType);
    }
  }

  // ----- a circularity error shows a cycle -----

  /** A chain of definitions that starts with `prefix` comes back to a type it has passed, and
      between the two states that type has been cached as an integer. */
  ghost predicate CycleAlong(defs: Defs, prefix: seq<TypeId>, p: seq<TypeId>, st: State, st': State) {
    && IsPath(defs, p) && prefix <= p && p != [] && p[|p| - 1] in p[..|p| - 1]
    && p[|p| - 1] !in st.cache && p[|p| - 1] in st'.cache && st'.cache[p[|p| - 1]] == NInteger
  }

  ghost predicate Recovers(defs: Defs, prefix: seq<TypeId>, st: State, st': State) {
    exists p: seq<TypeId> :: CycleAlong(defs, prefix, p, st, st')
  }

  lemma RecoversLonger(defs: Defs, prefix: seq<TypeId>, t: TypeId, st: State, st': State)
    requires Recovers(defs, prefix + [t], st, st')
    ensures Recovers(defs, prefix, st, st')
  {
    var p: seq<TypeId> :| CycleAlong(defs, prefix + [t], p, st, st');
    assert prefix <= prefix + [t] && prefix <= p;
    assert CycleAlong(defs, prefix, p, st, st');
  }

  /** What recovered between two states did so between an earlier and a later one. */
  lemma RecoversWithin(defs: Defs, prefix: seq<TypeId>, st0: State, st: State, st': State, st1: State)
    requires Recovers(defs, prefix, st, st')
    requires (forall k | k in st0.cache :: k in st.cache)
    requires (forall k | k in st'.cache :: k in st1.cache && st1.cache[k] == st'.cache[k])
    ensures Recovers(defs, prefix, st0, st1)
  {
    var p: seq<TypeId> :| CycleAlong(defs, prefix, p, st, st');
    assert CycleAlong(defs, prefix, p, st0, st1);
  }

  lemma FinishRecovers(defs: Defs, st: State, st': State, t: TypeId, r: NetType, prefix: seq<TypeId>)
    requires Recovers(defs, prefix, Start(st, t), st')
    ensures Recovers(defs, prefix, st, Finish(st', t, r))
  {
    RecoversWithin(defs, prefix, st, Start(st, t), st', Finish(st', t, r));
  }

  lemma RecoversHere(defs: Defs, stack: seq<TypeId>, t: TypeId, st: State)
    requires IsPath(defs, stack + [t]) && t in stack && t !in st.cache
    ensures Recovers(defs, stack + [t], st, Circular(st, t))
  {
    var p := stack + [t];
    assert p[..|p| - 1] == stack;
    assert CycleAlong(defs, p, p, st, Circular(st, t));
  }

  /** `stack` lists the types being elaborated, outermost first; `t` is the innermost. */
  ghost predicate OnStack(defs: Defs, st: State, stack: seq<TypeId>) {
    IsPath(defs, stack) && forall x :: x in st.elaborating <==> x in stack
  }

  lemma PathGrows(defs: Defs, stack: seq<TypeId>, k: TypeId)
    requires Closed(defs) && IsPath(defs, stack) && stack != [] && k in Kids(defs[stack[|stack| - 1]])
    ensures IsPath(defs, stack + [k])
  {
  }

  lemma {:induction false} ElabCircular(defs: Defs, st: State, t: TypeId, stack: seq<TypeId>)
    requires Closed(defs) && t in defs && OnStack(defs, st, stack) && IsPath(defs, stack + [t])
    requires Elab(defs, st, t).0.circular > st.circular
    ensures Recovers(defs, stack + [t], st, Elab(defs, st, t).0)
    decreases Left(defs, st), 0
  {
    if t in st.elaborating {
      RecoversHere(defs, stack, t, st);
    } else {
      StartLeft(defs, st, t);
      RawCircular(defs, Start(st, t), t, stack + [t]);
      FinishRecovers(defs, st, Raw(defs, Start(st, t), t).0, t, Raw(defs, Start(st, t), t).1, stack + [t]);
    }
  }

  lemma {:induction false} RawCircular(defs: Defs, st: State, t: TypeId, stack: seq<TypeId>)
    requires Closed(defs) && t in defs && OnStack(defs, st, stack) && stack != [] && stack[|stack| - 1] == t
    requires Raw(defs, st, t).0.circular > st.circular
    ensures Recovers(defs, stack, st, Raw(defs, st, t).0)
    decreases Left(defs, st), 2
  {
    var def := defs[t];
    if def.Struct? {
      MembersClosed(defs, t);
      forall i | 0 <= i < |def.members| ensures def.members[i].memberType in Kids(def) {
        assert Kids(def)[i] in Kids(def);
      }
      MembersCircular(defs, st, t, def.members, stack);
    } else {
      var k := Kids(def)[0];
      assert k in Kids(def);
      PathGrows(defs, stack, k);
      ElabCircular(defs, st, k, stack);
      RecoversLonger(defs, stack, k, st, Elab(defs, st, k).0);
      RecoversWithin(defs, stack, st, st, Elab(defs, st, k).0, Raw(defs, st, t).0);
    }
  }

  lemma {:induction false} MembersCircular(defs: Defs, st: State, t: TypeId, members: seq<Member>, stack: seq<TypeId>)
    requires Closed(defs) && t in defs && defs[t].Struct?
    requires OnStack(defs, st, stack) && stack != [] && stack[|stack| - 1] == t
    requires forall i | 0 <= i < |members| :: members[i].memberType in defs && members[i].memberType in Kids(defs[t])
    requires ElabMembers(defs, st, defs[t].packed, members).0.circular > st.circular
    ensures Recovers(defs, stack, st, ElabMembers(defs, st, defs[t].packed, members).0)
    decreases Left(defs, st), 1, |members|
  {
    var front, k := members[..|members| - 1], members[|members| - 1].memberType;
    var st1 := ElabMembers(defs, st, defs[t].packed, front).0;
    if st1.circular > st.circular {
      MembersCircular(defs, st, t, front, stack);
      RecoversWithin(defs, stack, st, st, st1, ElabMembers(defs, st, defs[t].packed, members).0);
    } else {
      LeftFalls(defs, st, st1);
      PathGrows(defs, stack, k);
      ElabCircular(defs, st1, k, stack);
      RecoversLonger(defs, stack, k, st1, Elab(defs, st1, k).0);
      RecoversWithin(defs, stack, st, st1, Elab(defs, st1, k).0, ElabMembers(defs, st, defs[t].packed, members).0);
    }
  }

  // ----- without circularity, the cache is right -----

  /** The sum of the errors of the finished types. */
  ghost function Sum(defs: Defs, cache: map<TypeId, NetType>, order: seq<TypeId>): nat
    requires forall t | t in order :: Resolved(defs, cache, t)
  {
    if order == [] then 0
    else
      var last := order[|order| - 1];
      assert last in order && Resolved(defs, cache, last);
      Sum(defs, cache, order[..|order| - 1]) + Misuse(defs[last], Results(defs, cache, last))
  }

  lemma {:induction false} SumLocal(defs: Defs, cache: map<TypeId, NetType>, cache': map<TypeId, NetType>,
                                    order: seq<TypeId>)
    requires forall t | t in order :: Resolved(defs, cache, t) && Resolved(defs, cache', t)
    requires forall k | k in cache :: k in cache' && cache'[k] == cache[k]
    ensures Sum(defs, cache', order) == Sum(defs, cache, order)
  {
    if order != [] {
      var last := order[|order| - 1];
      assert last in order && Resolved(defs, cache, last);
      SumLocal(defs, cache, cache', order[..|order| - 1]);
      assert Results(defs, cache', last) == Results(defs, cache, last);
    }
  }

  /** Each finished type is cached with what it comes to, every operand of it finished
      before, and the errors of all finished types are counted once, over `base`. */
  ghost predicate Clean(defs: Defs, st: State, base: int) {
    && Faithful(defs, st.cache, st.order) && (forall t | t in st.elaborating :: t !in st.cache)
    && st.errors == base + Sum(defs, st.cache, st.order)
  }

  lemma FinishKeepsOrder(defs: Defs, order: seq<TypeId>, t: TypeId)
    requires Topological(defs, order) && t in defs && t !in order && forall k | k in Kids(defs[t]) :: k in order
    ensures Topological(defs, order + [t])
  {
    var order' := order + [t];
    forall i | 0 <= i < |order'|
      ensures order'[i] in defs && forall k | k in Kids(defs[order'[i]]) :: k in order'[..i]
    {
      assert order'[..i] == order[..i];
    }
  }

  lemma ResultsLocal(defs: Defs, cache: map<TypeId, NetType>, t: TypeId, r: NetType, u: TypeId)
    requires u in defs && Resolved(defs, cache, u) && t !in cache
    ensures Resolved(defs, cache[t := r], u) && Results(defs, cache[t := r], u) == Results(defs, cache, u)
  {
  }

  /** Caching a finished type keeps the cache faithful. */
  lemma FinishKeepsFaithful(defs: Defs, cache: map<TypeId, NetType>, order: seq<TypeId>, t: TypeId, r: NetType)
    requires Faithful(defs, cache, order) && t in defs && t !in cache
    requires Resolved(defs, cache, t) && r == Build(defs[t], Results(defs, cache, t))
    ensures Faithful(defs, cache[t := r], order + [t])
    ensures Sum(defs, cache[t := r], order + [t]) == Sum(defs, cache, order) + Misuse(defs[t], Results(defs, cache, t))
  {
    var cache', order' := cache[t := r], order + [t];
    FinishKeepsOrder(defs, order, t);
    FinishKeepsResults(defs, cache, order, t, r);
  }

  lemma FinishKeepsResults(defs: Defs, cache: map<TypeId, NetType>, order: seq<TypeId>, t: TypeId, r: NetType)
    requires t in defs && t !in cache && Resolved(defs, cache, t) && r == Build(defs[t], Results(defs, cache, t))
    requires forall u | u in order ::
      u in defs && u in cache && Resolved(defs, cache, u) && cache[u] == Build(defs[u], Results(defs, cache, u))
    ensures forall u | u in order + [t] ::
      && u in defs && Resolved(defs, cache[t := r], u)
      && cache[t := r][u] == Build(defs[u], Results(defs, cache[t := r], u))
    ensures Sum(defs, cache[t := r], order + [t]) == Sum(defs, cache, order) + Misuse(defs[t], Results(defs, cache, t))
  {
    var cache', order' := cache[t := r], order + [t];
    forall u | u in order'
      ensures u in defs && Resolved(defs, cache', u) && cache'[u] == Build(defs[u], Results(defs, cache', u))
    {
      ResultsLocal(defs, cache, t, r, u);
    }
    ResultsLocal(defs, cache, t, r, t);
    SumLocal(defs, cache, cache', order);
    assert order'[..|order|] == order && order'[|order|] == t;
  }

  lemma {:induction false} ElabClean(defs: Defs, st: State, t: TypeId, base: int)
    requires Closed(defs) && t in defs && Clean(defs, st, base)
    requires Elab(defs, st, t).0.circular == st.circular
    ensures Clean(defs, Elab(defs, st, t).0, base) && Elab(defs, st, t).1 == Elab(defs, st, t).0.cache[t]
    decreases Left(defs, st), 0
  {
    if t !in st.cache {
      StartLeft(defs, st, t);
      RawClean(defs, Start(st, t), t, base);
      var (st', r) := Raw(defs, Start(st, t), t);
      FinishKeepsFaithful(defs, st'.cache, st'.order, t, r);
    }
  }

  /** At the end of a raw elaboration the errors of its type are counted too. */
  lemma {:induction false} RawClean(defs: Defs, st: State, t: TypeId, base: int)
    requires Closed(defs) && t in defs && Clean(defs, st, base)
    requires Raw(defs, st, t).0.circular == st.circular
    ensures var (st', r) := Raw(defs, st, t);
      && Resolved(defs, st'.cache, t) && r == Build(defs[t], Results(defs, st'.cache, t))
      && Clean(defs, st', base + Misuse(defs[t], Results(defs, st'.cache, t)))
    decreases Left(defs, st), 2
  {
    var def := defs[t];
    if def.Struct? {
      MembersClosed(defs, t);
      MembersClean(defs, st, def.packed, def.members, base);
      StructResults(defs, ElabMembers(defs, st, def.packed, def.members).0.cache, t);
    } else if Kids(def) != [] {
      assert Kids(def)[0] in Kids(def);
      ElabClean(defs, st, Kids(def)[0], base);
      OneKidClean(defs, st, t, Elab(defs, st, Kids(def)[0]).0, base);
    } else {
      assert Results(defs, st.cache, t) == [];
      MoreErrors(defs, st, base, Misuse(def, []));
    }
  }

  lemma OneKidClean(defs: Defs, st: State, t: TypeId, st1: State, base: int)
    requires Closed(defs) && t in defs && !defs[t].Struct? && Kids(defs[t]) != [] && Kids(defs[t])[0] in defs
    requires var e := Elab(defs, st, Kids(defs[t])[0]); st1 == e.0 && e.1 == st1.cache[Kids(defs[t])[0]]
    requires Clean(defs, st1, base)
    ensures var e := Raw(defs, st, t);
      && Resolved(defs, e.0.cache, t) && e.1 == Build(defs[t], Results(defs, e.0.cache, t))
      && Clean(defs, e.0, base + Misuse(defs[t], Results(defs, e.0.cache, t)))
  {
    var k := Kids(defs[t])[0];
    OneResult(defs, st1.cache, t, k);
    MoreErrors(defs, st1, base, Misuse(defs[t], [st1.cache[k]]));
  }

  lemma MoreErrors(defs: Defs, st: State, base: int, n: nat)
    requires Clean(defs, st, base)
    ensures Clean(defs, st.(errors := st.errors + n), base + n)
  {
  }

  lemma OneResult(defs: Defs, cache: map<TypeId, NetType>, t: TypeId, k: TypeId)
    requires t in defs && Kids(defs[t]) == [k] && k in cache
    ensures Resolved(defs, cache, t) && Results(defs, cache, t) == [cache[k]]
  {
  }

  lemma StructResults(defs: Defs, cache: map<TypeId, NetType>, t: TypeId)
    requires t in defs && defs[t].Struct?
    requires forall i | 0 <= i < |defs[t].members| :: defs[t].members[i].memberType in cache
    ensures Resolved(defs, cache, t) && Results(defs, cache, t) == MemberResults(cache, defs[t].members)
  {
    assert forall i | 0 <= i < |defs[t].members| :: Kids(defs[t])[i] == defs[t].members[i].memberType;
  }

  function MemberResults(cache: map<TypeId, NetType>, members: seq<Member>): seq<NetType>
    requires forall i | 0 <= i < |members| :: members[i].memberType in cache
  {
    seq(|members|, i requires 0 <= i < |members| => cache[members[i].memberType])
  }

  lemma {:induction false} MembersClean(defs: Defs, st: State, packed: bool, members: seq<Member>, base: int)
    requires Closed(defs) && (forall i | 0 <= i < |members| :: members[i].memberType in defs) && Clean(defs, st, base)
    requires ElabMembers(defs, st, packed, members).0.circular == st.circular
    ensures var (st', built) := ElabMembers(defs, st, packed, members);
      && (forall i | 0 <= i < |members| :: members[i].memberType in st'.cache)
      && built == MembersOf(members, MemberResults(st'.cache, members))
      && Clean(defs, st', base + MembersMisuse(packed, members, MemberResults(st'.cache, members)))
    decreases Left(defs, st), 1, |members|
  {
    if members != [] {
      var front, last := members[..|members| - 1], members[|members| - 1];
      MembersClean(defs, st, packed, front, base);
      var st1 := ElabMembers(defs, st, packed, front).0;
      var base1 := base + MembersMisuse(packed, front, MemberResults(st1.cache, front));
      LeftFalls(defs, st, st1);
      ElabClean(defs, st1, last.memberType, base1);
      var e := Elab(defs, st1, last.memberType);
      MoreErrors(defs, e.0, base1, NamesMisuse(packed, e.1, last.names));
      LastResult(st1.cache, e.0.cache, packed, members, front, last);
    } else {
      assert MemberResults(st.cache, members) == [];
    }
  }

  lemma LastResult(cache: map<TypeId, NetType>, cache': map<TypeId, NetType>, packed: bool,
                   members: seq<Member>, front: seq<Member>, last: Member)
    requires members != [] && front == members[..|members| - 1] && last == members[|members| - 1]
    requires forall i | 0 <= i < |front| :: front[i].memberType in cache
    requires forall k | k in cache :: k in cache' && cache'[k] == cache[k]
    requires last.memberType in cache'
    ensures forall i | 0 <= i < |members| :: members[i].memberType in cache'
    ensures var kids, kid := MemberResults(cache, front), cache'[last.memberType];
      && MembersOf(members, MemberResults(cache', members)) == MembersOf(front, kids) + NamesOf(kid, last.names)
      && MembersMisuse(packed, members, MemberResults(cache', members))
         == MembersMisuse(packed, front, kids) + NamesMisuse(packed, kid, last.names)
  {
    assert members == front + [last];
    ResultsAppend(cache, cache', front, last);
    var all, kids := MemberResults(cache', members), MemberResults(cache, front);
    assert all[..|members| - 1] == kids;
    assert all[|members| - 1] == cache'[last.memberType];
  }

  lemma ResultsAppend(cache: map<TypeId, NetType>, cache': map<TypeId, NetType>, front: seq<Member>, last: Member)
    requires forall i | 0 <= i < |front| :: front[i].memberType in cache
    requires forall k | k in cache :: k in cache' && cache'[k] == cache[k]
    requires last.memberType in cache'
    ensures forall i | 0 <= i < |front + [last]| :: (front + [last])[i].memberType in cache'
    ensures MemberResults(cache', front + [last]) == MemberResults(cache, front) + [cache'[last.memberType]]
  {
  }

  // ----- from an empty cache -----

  const EMPTY := State({}, map[], 0, 0, [], [])

  lemma RecoversCycle(defs: Defs, t: TypeId, st: State, st': State)
    requires Recovers(defs, [t], st, st')
    ensures CycleReachable(defs, t)
  {
    var p: seq<TypeId> :| CycleAlong(defs, [t], p, st, st');
    assert p[0] == [t][0];
    var i :| 0 <= i < |p| - 1 && p[i] == p[|p| - 1];
  }

  /** A circularity error is counted exactly when a cycle is reachable, and then some type on
      such a cycle is cached as an integer. */
  lemma CircularExactly(defs: Defs, t: TypeId)
    requires Closed(defs) && t in defs
    ensures Elab(defs, EMPTY, t).0.circular > 0 <==> CycleReachable(defs, t)
    ensures CycleReachable(defs, t) ==> Recovers(defs, [t], EMPTY, Elab(defs, EMPTY, t).0)
  {
    var st := Elab(defs, EMPTY, t).0;
    if st.circular > 0 {
      assert [] + [t] == [t];
      ElabCircular(defs, EMPTY, t, []);
      RecoversCycle(defs, t, EMPTY, st);
    } else {
      ElabClean(defs, EMPTY, t, 0);
      NoCycleFromOrder(defs, st.order, t);
    }
  }

  /** Without a reachable cycle, the result is that of the recursion without a cache, and
      the errors are those of the finished types, each counted once. */
  lemma AcyclicIsUncached(defs: Defs, t: TypeId)
    requires Closed(defs) && t in defs && !CycleReachable(defs, t)
    ensures var (st, r) := Elab(defs, EMPTY, t);
      && r == Uncached(defs, t, {}) && Faithful(defs, st.cache, st.order) && t in st.order
      && st.errors == Sum(defs, st.cache, st.order)
  {
    CircularExactly(defs, t);
    ElabClean(defs, EMPTY, t, 0);
    var st := Elab(defs, EMPTY, t).0;
    var i :| 0 <= i < |st.order| && st.order[i] == t;
    CacheIsUncached(defs, st.cache, st.order, i, {});
  }

  /** However types depend on each other, no raw elaboration runs twice. */
  lemma RawRunsOnce(defs: Defs, t: TypeId)
    requires Closed(defs) && t in defs
    ensures var runs := Elab(defs, EMPTY, t).0.runs; forall i, j | 0 <= i < j < |runs| :: runs[i] != runs[j]
  {
    ElabOnce(defs, EMPTY, t);
  }
}
