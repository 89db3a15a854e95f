/** The tree of scopes, as instances and generate blocks are added to it in any order, and
    the check that keeps recursive modules from nesting for ever. */
module ScopeTrees {

  datatype Kind = ModuleScope(name: string) | GenBlock | OtherScope

  /** `parent` is the index of the enclosing scope, or -1. */
  datatype Scope = Scope(kind: Kind, parent: int)

  ghost predicate IsTree(scopes: seq<Scope>) {
    forall i | 0 <= i < |scopes| :: -1 <= scopes[i].parent < i
  }

  /** The kinds of `sc` and of the scopes around it, innermost first. */
  ghost function Path(scopes: seq<Scope>, sc: int): seq<Kind>
    requires IsTree(scopes) && -1 <= sc < |scopes|
    decreases sc + 1
  {
    if sc < 0 then [] else [scopes[sc].kind] + Path(scopes, scopes[sc].parent)
  }

  ghost function Count(m: string, path: seq<Kind>): nat {
    if path == [] then 0 else (if path[0] == ModuleScope(m) then 1 else 0) + Count(m, path[1..])
  }

  /** A generate block comes before the first scope of module `m`, if there is one. */
  ghost predicate BlockFirst(m: string, path: seq<Kind>) {
    path == [] || path[0] == GenBlock || (path[0] != ModuleScope(m) && BlockFirst(m, path[1..]))
  }

  /** An instance of `m` may be put inside scopes of these kinds. */
  ghost predicate MayNest(m: string, path: seq<Kind>, limit: nat) {
    BlockFirst(m, path) && Count(m, path) <= limit
  }

  /** Adding scopes does not change the paths there are. */
  lemma {:induction false} PathStays(scopes: seq<Scope>, more: seq<Scope>, sc: int)
    requires IsTree(scopes) && IsTree(scopes + more) && -1 <= sc < |scopes|
    ensures Path(scopes + more, sc) == Path(scopes, sc)
    decreases sc + 1
  {
    if sc >= 0 { PathStays(scopes, more, scopes[sc].parent); }
  }

  /** Each module scope may nest where it is. */
  ghost predicate Nested(scopes: seq<Scope>, limit: nat) {
    && IsTree(scopes)
    && forall i | 0 <= i < |scopes| && scopes[i].kind.ModuleScope? ::
         MayNest(scopes[i].kind.name, Path(scopes, scopes[i].parent), limit)
  }

  lemma NestedGrows(scopes: seq<Scope>, s: Scope, limit: nat)
    requires Nested(scopes, limit) && -1 <= s.parent < |scopes|
    requires s.kind.ModuleScope? ==> MayNest(s.kind.name, Path(scopes, s.parent), limit)
    ensures Nested(scopes + [s], limit)
  {
    var grown := scopes + [s];
    forall i | 0 <= i < |grown| && grown[i].kind.ModuleScope?
      ensures MayNest(grown[i].kind.name, Path(grown, grown[i].parent), limit)
    {
      PathStays(scopes, [s], grown[i].parent);
    }
  }

  // ----- what nesting means for a path -----

  /** Between two scopes of one module there is a generate block. */
  ghost predicate Separated(path: seq<Kind>) {
    forall i, j | 0 <= i < j < |path| && path[i].ModuleScope? && path[j] == path[i] ::
      GenBlock in path[i + 1..j]
  }

  lemma {:induction false} BlockBefore(m: string, path: seq<Kind>, j: nat)
    requires BlockFirst(m, path) && j < |path| && path[j] == ModuleScope(m)
    ensures GenBlock in path[..j]
  {
    if path[0] == GenBlock {
      assert path[..j][0] == GenBlock;
    } else {
      BlockBefore(m, path[1..], j - 1);
      assert path[1..][..j - 1] == path[..j][1..];
    }
  }

  lemma SliceOfTail<T>(path: seq<T>, up: seq<T>, i: nat, j: nat)
    requires path != [] && path[1..] == up && 1 <= i <= j <= |path|
    ensures path[i..j] == up[i - 1..j - 1]
  {
  }

  lemma {:induction false} PathSeparated(scopes: seq<Scope>, limit: nat, sc: int)
    requires Nested(scopes, limit) && -1 <= sc < |scopes|
    ensures Separated(Path(scopes, sc))
    decreases sc + 1
  {
    if sc >= 0 {
      var path, up := Path(scopes, sc), Path(scopes, scopes[sc].parent);
      PathSeparated(scopes, limit, scopes[sc].parent);
      assert path[1..] == up;
      forall i, j | 0 <= i < j < |path| && path[i].ModuleScope? && path[j] == path[i]
        ensures GenBlock in path[i + 1..j]
      {
        if i == 0 {
          BlockBefore(path[0].name, up, j - 1);
          SliceOfTail(path, up, 1, j);
        } else {
          SliceOfTail(path, up, i + 1, j);
        }
      }
    }
  }

  lemma {:induction false} PathCount(scopes: seq<Scope>, limit: nat, sc: int, m: string)
    requires Nested(scopes, limit) && -1 <= sc < |scopes|
    ensures Count(m, Path(scopes, sc)) <= limit + 1
    decreases sc + 1
  {
    if sc >= 0 {
      PathCount(scopes, limit, scopes[sc].parent, m);
      assert Path(scopes, sc)[1..] == Path(scopes, scopes[sc].parent);
    }
  }

  ghost function Modules(path: seq<Kind>): nat {
    if path == [] then 0 else (if path[0].ModuleScope? then 1 else 0) + Modules(path[1..])
  }

  function Without(path: seq<Kind>, m: string): seq<Kind> {
    if path == [] then []
    else (if path[0] == ModuleScope(m) then [] else [path[0]]) + Without(path[1..], m)
  }

  lemma {:induction false} WithoutCounts(path: seq<Kind>, m: string, n: string)
    ensures Modules(path) == Count(m, path) + Modules(Without(path, m))
    ensures Count(n, Without(path, m)) == if n == m then 0 else Count(n, path)
  {
    if path != [] {
      WithoutCounts(path[1..], m, n);
      if path[0] != ModuleScope(m) {
        assert Without(path, m)[0] == path[0] && Without(path, m)[1..] == Without(path[1..], m);
      } else {
        assert Without(path, m) == Without(path[1..], m);
      }
    }
  }

  lemma {:induction false} NoModules(path: seq<Kind>)
    requires forall m :: Count(m, path) == 0
    ensures Modules(path) == 0
  {
    if path != [] {
      if path[0].ModuleScope? { assert Count(path[0].name, path) >= 1; }
      forall m ensures Count(m, path[1..]) == 0 {
        assert Count(m, path) >= Count(m, path[1..]);
      }
      NoModules(path[1..]);
    }
  }

  /** No more than `each` scopes of each of the named modules, and none of others. */
  ghost predicate Bounded(path: seq<Kind>, names: set<string>, each: nat) {
    forall m :: Count(m, path) <= if m in names then each else 0
  }

  lemma BoundedWithout(path: seq<Kind>, names: set<string>, each: nat, m: string)
    requires Bounded(path, names, each)
    ensures Bounded(Without(path, m), names - {m}, each)
  {
    forall n ensures Count(n, Without(path, m)) <= if n in names - {m} then each else 0 {
      WithoutCounts(path, m, n);
      assert Count(n, path) <= if n in names then each else 0;
    }
  }

  lemma {:induction false} ModulesBound(path: seq<Kind>, names: set<string>, each: nat)
    requires Bounded(path, names, each)
    ensures Modules(path) <= |names| * each
    decreases |names|
  {
    if names == {} {
      forall m ensures Count(m, path) == 0 {
        assert Count(m, path) <= if m in names then each else 0;
      }
      NoModules(path);
    } else {
      var m :| m in names;
      var k := |names - {m}|;
      assert |names| == k + 1;
      BoundedWithout(path, names, each, m);
      WithoutCounts(path, m, m);
      ModulesBound(Without(path, m), names - {m}, each);
      assert Count(m, path) <= each;
      assert (k + 1) * each == k * each + each;
    }
  }

  // ----- the check on the scopes themselves -----

  /** `chain` goes from `sc` through the enclosing scopes to a root. */
  ghost predicate Encloses(scopes: seq<Scope>, sc: nat, chain: seq<nat>)
    requires IsTree(scopes)
  {
    && chain != [] && chain[0] == sc && (forall i | 0 <= i < |chain| :: chain[i] < |scopes|)
    && (forall i | 0 <= i < |chain| - 1 :: scopes[chain[i]].parent == chain[i + 1])
    && scopes[chain[|chain| - 1]].parent == -1
  }

  lemma {:induction false} PathOfChain(scopes: seq<Scope>, sc: nat, chain: seq<nat>)
    requires IsTree(scopes) && Encloses(scopes, sc, chain)
    ensures |Path(scopes, sc)| == |chain|
    ensures forall i | 0 <= i < |chain| :: Path(scopes, sc)[i] == scopes[chain[i]].kind
    decreases |chain|
  {
    if |chain| > 1 {
      var up := chain[1..];
      assert forall i | 0 <= i < |up| :: up[i] == chain[i + 1];
      PathOfChain(scopes, chain[1], up);
      assert Path(scopes, sc)[1..] == Path(scopes, chain[1]);
    }
  }

  ghost function Places(m: string, path: seq<Kind>): set<nat> {
    set i: nat | i < |path| && path[i] == ModuleScope(m)
  }

  lemma {:induction false} CountIsPlaces(m: string, path: seq<Kind>)
    ensures Count(m, path) == |Places(m, path)|
  {
    if path != [] {
      var n, front := |path| - 1, path[..|path| - 1];
      CountIsPlaces(m, front);
      CountSnoc(m, path);
      assert Places(m, path) == Places(m, front) + if path[n] == ModuleScope(m) then {n} else {};
    }
  }

  lemma {:induction false} CountSnoc(m: string, path: seq<Kind>)
    requires path != []
    ensures Count(m, path) == Count(m, path[..|path| - 1]) + if path[|path| - 1] == ModuleScope(m) then 1 else 0
  {
    if |path| > 1 {
      CountSnoc(m, path[1..]);
      assert path[..|path| - 1][1..] == path[1..][..|path| - 2];
    }
  }

  lemma {:induction false} BlockFirstExactly(m: string, path: seq<Kind>)
    ensures BlockFirst(m, path) <==> forall j | 0 <= j < |path| && path[j] == ModuleScope(m) :: GenBlock in path[..j]
  {
    if BlockFirst(m, path) {
      forall j | 0 <= j < |path| && path[j] == ModuleScope(m) ensures GenBlock in path[..j] {
        BlockBefore(m, path, j);
      }
    } else {
      BlockFirstExactly(m, path[1..]);
      if path[0] == ModuleScope(m) {
        assert path[..0] == [];
      } else {
        var j :| 0 <= j < |path[1..]| && path[1..][j] == ModuleScope(m) && GenBlock !in path[1..][..j];
        assert path[..j + 1] == [path[0]] + path[1..][..j];
        assert path[j + 1] == ModuleScope(m);
      }
    }
  }

  /** Each scope of the module has a generate block further in. */
  ghost predicate Blocked(scopes: seq<Scope>, chain: seq<nat>, m: string)
    requires forall i | 0 <= i < |chain| :: chain[i] < |scopes|
  {
    forall j | 0 <= j < |chain| && scopes[chain[j]].kind == ModuleScope(m) ::
      exists i :: 0 <= i < j && scopes[chain[i]].kind == GenBlock
  }

  lemma BlockedIs(scopes: seq<Scope>, chain: seq<nat>, m: string, path: seq<Kind>)
    requires |path| == |chain| && forall i | 0 <= i < |chain| :: chain[i] < |scopes| && path[i] == scopes[chain[i]].kind
    ensures BlockFirst(m, path) <==> Blocked(scopes, chain, m)
  {
    BlockFirstExactly(m, path);
    forall j | 0 <= j < |chain|
      ensures GenBlock in path[..j] <==> exists i :: 0 <= i < j && scopes[chain[i]].kind == GenBlock
    {
      if GenBlock in path[..j] {
        var i :| 0 <= i < j && path[..j][i] == GenBlock;
        assert scopes[chain[i]].kind == GenBlock;
      }
      if i :| 0 <= i < j && scopes[chain[i]].kind == GenBlock { assert path[..j][i] == GenBlock; }
    }
  }

  /** An instance may be put inside a scope exactly if at most `limit` of the scopes around it
      are of its module, each with a generate block further in. */
  lemma MayNestExactly(scopes: seq<Scope>, sc: nat, chain: seq<nat>, m: string, limit: nat)
    requires IsTree(scopes) && Encloses(scopes, sc, chain)
    ensures MayNest(m, Path(scopes, sc), limit)
      <==> Blocked(scopes, chain, m) && |set i: nat | i < |chain| && scopes[chain[i]].kind == ModuleScope(m)| <= limit
  {
    var path := Path(scopes, sc);
    PathOfChain(scopes, sc, chain);
    CountIsPlaces(m, path);
    BlockedIs(scopes, chain, m, path);
    assert Places(m, path) == set i: nat | i < |chain| && scopes[chain[i]].kind == ModuleScope(m);
  }

  // ----- elaboration -----

  /** What elaboration may do next: `RunDelayed` takes up the oldest array of instances. */
  datatype Step =
    | NewRoot(name: string)
    | NewScope(inside: nat, kind: Kind)
    | Instantiate(name: string, inside: nat, isArray: bool, count: nat)
    | RunDelayed

  /** An array whose size is not known when its instantiation is reached. */
  datatype Delayed = Delayed(name: string, inside: nat, count: nat)

  datatype Forest = Forest(scopes: seq<Scope>, work: seq<Delayed>, errors: nat)

  /** What each step does. */
  ghost predicate Takes(limit: nat, a: Forest, s: Step, b: Forest) {
    IsTree(a.scopes) &&
    match s
    case NewRoot(name) => b == a.(scopes := a.scopes + [Scope(ModuleScope(name), -1)])
    case NewScope(inside, kind) =>
      b == if inside < |a.scopes| && !kind.ModuleScope? then a.(scopes := a.scopes + [Scope(kind, inside)]) else a
    case Instantiate(name, inside, isArray, count) =>
      if inside >= |a.scopes| then b == a
      else if !MayNest(name, Path(a.scopes, inside), limit) then b == a.(errors := a.errors + 1)
      else if isArray then b == a.(work := a.work + [Delayed(name, inside, count)])
      else b == a.(scopes := a.scopes + [Scope(ModuleScope(name), inside)])
    case RunDelayed =>
      if a.work == [] then b == a
      else
        var d := a.work[0];
        b == a.(work := a.work[1..], scopes := a.scopes + seq(d.count, i => Scope(ModuleScope(d.name), d.inside)))
  }

  // ----- nothing is lost -----

  function Times(x: Scope, scopes: seq<Scope>): nat {
    if scopes == [] then 0 else Times(x, scopes[..|scopes| - 1]) + if scopes[|scopes| - 1] == x then 1 else 0
  }

  /** How often the queued arrays will make this scope. */
  function Queued(x: Scope, work: seq<Delayed>): nat {
    if work == [] then 0
    else
      (if x == Scope(ModuleScope(work[0].name), work[0].inside) then work[0].count else 0) + Queued(x, work[1..])
  }

  /** How often a step asks for this scope. */
  function Asked(x: Scope, a: Forest, s: Step): nat {
    match s
    case NewRoot(name) => if x == Scope(ModuleScope(name), -1) then 1 else 0
    case NewScope(inside, kind) =>
      if inside < |a.scopes| && !kind.ModuleScope? && x == Scope(kind, inside) then 1 else 0
    case Instantiate(name, inside, isArray, count) =>
      if inside < |a.scopes| && x == Scope(ModuleScope(name), inside) then (if isArray then count else 1) else 0
    case RunDelayed => 0
  }

  /** How often it may not be where it is asked for. */
  ghost function Refused(limit: nat, x: Scope, a: Forest, s: Step): nat
    requires IsTree(a.scopes)
  {
    if s.Instantiate? && s.inside < |a.scopes| && !MayNest(s.name, Path(a.scopes, s.inside), limit) then Asked(x, a, s)
    else 0
  }

  lemma {:induction false} QueuedAppend(x: Scope, work: seq<Delayed>, d: Delayed)
    ensures Queued(x, work + [d])
         == Queued(x, work) + if x == Scope(ModuleScope(d.name), d.inside) then d.count else 0
  {
    if work == [] {
      assert [d][1..] == [];
      assert work + [d] == [d];
    } else {
      QueuedAppend(x, work[1..], d);
      assert (work + [d])[1..] == work[1..] + [d];
    }
  }

  lemma TimesAppend(x: Scope, scopes: seq<Scope>, s: Scope)
    ensures Times(x, scopes + [s]) == Times(x, scopes) + if s == x then 1 else 0
  {
    assert (scopes + [s])[..|scopes|] == scopes;
  }

  lemma {:induction false} TimesCopies(x: Scope, scopes: seq<Scope>, s: Scope, n: nat)
    ensures Times(x, scopes + seq(n, i => s)) == Times(x, scopes) + if s == x then n else 0
  {
    if n == 0 {
      assert scopes + seq(n, i => s) == scopes;
    } else {
      TimesCopies(x, scopes, s, n - 1);
      assert scopes + seq(n, i => s) == scopes + seq(n - 1, i => s) + [s];
      TimesAppend(x, scopes + seq(n - 1, i => s), s);
    }
  }

  /** At each step, what was there, queued and asked for is there, queued or refused after it. */
  lemma StepConserves(limit: nat, x: Scope, a: Forest, s: Step, b: Forest)
    requires Takes(limit, a, s, b)
    ensures Times(x, b.scopes) + Queued(x, b.work) + Refused(limit, x, a, s)
         == Times(x, a.scopes) + Queued(x, a.work) + Asked(x, a, s)
  {
    match s {
      case NewRoot(name) => TimesAppend(x, a.scopes, Scope(ModuleScope(name), -1));
      case NewScope(inside, kind) => TimesAppend(x, a.scopes, Scope(kind, inside));
      case Instantiate(name, inside, isArray, count) =>
        QueuedAppend(x, a.work, Delayed(name, inside, count));
        TimesAppend(x, a.scopes, Scope(ModuleScope(name), inside));
      case RunDelayed =>
        if a.work != [] {
          var d := a.work[0];
          TimesCopies(x, a.scopes, Scope(ModuleScope(d.name), d.inside), d.count);
        }
    }
  }

  /** The states between the steps of a run. */
  ghost predicate Trace(limit: nat, steps: seq<Step>, trace: seq<Forest>) {
    && |trace| == |steps| + 1
    && forall k | 0 <= k < |steps| :: Takes(limit, trace[k], steps[k], trace[k + 1])
  }

  ghost function AllAsked(x: Scope, steps: seq<Step>, trace: seq<Forest>): nat
    requires |trace| > |steps|
  {
    if steps == [] then 0 else Asked(x, trace[0], steps[0]) + AllAsked(x, steps[1..], trace[1..])
  }

  ghost function AllRefused(limit: nat, x: Scope, steps: seq<Step>, trace: seq<Forest>): nat
    requires Trace(limit, steps, trace)
  {
    if steps == [] then 0
    else
      assert Takes(limit, trace[0], steps[0], trace[0 + 1]);
      TraceTail(limit, steps, trace);
      Refused(limit, x, trace[0], steps[0]) + AllRefused(limit, x, steps[1..], trace[1..])
  }

  lemma TraceTail(limit: nat, steps: seq<Step>, trace: seq<Forest>)
    requires Trace(limit, steps, trace) && steps != []
    ensures Trace(limit, steps[1..], trace[1..])
  {
    forall k | 0 <= k < |steps[1..]| ensures Takes(limit, trace[1..][k], steps[1..][k], trace[1..][k + 1]) {
      assert Takes(limit, trace[k + 1], steps[k + 1], trace[k + 1 + 1]);
    }
  }

  /** Over any run, and for each module and parent, the scopes at the end, those still queued
      and those refused are as many as those at the start, those queued then and those asked for. */
  lemma {:induction false} RunConserves(limit: nat, x: Scope, steps: seq<Step>, trace: seq<Forest>)
    requires Trace(limit, steps, trace)
    ensures var a, b := trace[0], trace[|steps|];
      Times(x, b.scopes) + Queued(x, b.work) + AllRefused(limit, x, steps, trace)
      == Times(x, a.scopes) + Queued(x, a.work) + AllAsked(x, steps, trace)
  {
    if steps != [] {
      assert Takes(limit, trace[0], steps[0], trace[0 + 1]);
      StepConserves(limit, x, trace[0], steps[0], trace[1]);
      TraceTail(limit, steps, trace);
      RunConserves(limit, x, steps[1..], trace[1..]);
      assert trace[1..][|steps| - 1] == trace[|steps|];
    }
  }

  class Design {
    const limit: nat
    var scopes: seq<Scope>
    var work: seq<Delayed>
    var errors: nat

    ghost predicate Valid()
      reads this
    {
      && Nested(scopes, limit)
      && forall d | d in work :: d.inside < |scopes| && MayNest(d.name, Path(scopes, d.inside), limit)
    }

    constructor (limit: nat)
      ensures Valid() && this.limit == limit && scopes == [] && work == [] && errors == 0
    {
      this.limit := limit;
      scopes, work, errors := [], [], 0;
    }

    /** The scan of `elaborate_scope_mod_` from the scope outwards. */
    method MayInstantiate(name: string, sc: nat) returns (ok: bool)
      requires IsTree(scopes) && sc < |scopes|
      ensures ok <==> MayNest(name, Path(scopes, sc), limit)
    {
      var rlCount: nat, inGenblk, scn: int := 0, false, sc;
      while scn >= 0
        invariant -1 <= scn < |scopes|
        invariant MayNest(name, Path(scopes, sc), limit)
          <==> (inGenblk || BlockFirst(name, Path(scopes, scn))) && rlCount + Count(name, Path(scopes, scn)) <= limit
        invariant rlCount <= limit && (!inGenblk ==> rlCount == 0)
        decreases scn
      {
        var scope := scopes[scn];
        assert Path(scopes, scn)[1..] == Path(scopes, scope.parent);
        if scope.kind.GenBlock? {
          inGenblk := true;
        } else if scope.kind == ModuleScope(name) {
          if !inGenblk { return false; }
          rlCount := rlCount + 1;
          if rlCount > limit { return false; }
        }
        scn := scope.parent;
      }
      ok := true;
    }

    method AddScope(kind: Kind, parent: int)
      requires Valid() && -1 <= parent < |scopes|
      requires kind.ModuleScope? ==> MayNest(kind.name, Path(scopes, parent), limit)
      modifies this`scopes
      ensures Valid() && scopes == old(scopes) + [Scope(kind, parent)]
    {
      NestedGrows(scopes, Scope(kind, parent), limit);
      forall d | d in work ensures Path(scopes + [Scope(kind, parent)], d.inside) == Path(scopes, d.inside) {
        PathStays(scopes, [Scope(kind, parent)], d.inside);
      }
      scopes := scopes + [Scope(kind, parent)];
    }

    /** `elaborate_scope_mod_instances_`. */
    method AddInstances(name: string, sc: nat, count: nat)
      requires Valid() && sc < |scopes| && MayNest(name, Path(scopes, sc), limit)
      modifies this`scopes
      ensures Valid()
      ensures scopes == old(scopes) + seq(count, i => Scope(ModuleScope(name), sc))
    {
      var idx := 0;
      while idx < count
        invariant 0 <= idx <= count && Valid()
        invariant scopes == old(scopes) + seq(idx, i => Scope(ModuleScope(name), sc))
        invariant sc < |scopes| && MayNest(name, Path(scopes, sc), limit)
      {
        ghost var before := scopes;
        AddScope(ModuleScope(name), sc);
        PathStays(before, [Scope(ModuleScope(name), sc)], sc);
        idx := idx + 1;
      }
    }

    /** `elaborate_scope_mod_`: check, then make the instances now or, for an array, later. */
    method InstantiateModule(name: string, sc: nat, isArray: bool, count: nat)
      requires Valid() && sc < |scopes|
      modifies this
      ensures Valid()
      ensures if !old(MayNest(name, Path(scopes, sc), limit)) then
          errors == old(errors) + 1 && scopes == old(scopes) && work == old(work)
        else
          errors == old(errors)
          && if isArray then scopes == old(scopes) && work == old(work) + [Delayed(name, sc, count)]
             else scopes == old(scopes) + seq(count, i => Scope(ModuleScope(name), sc)) && work == old(work)
    {
      var ok := MayInstantiate(name, sc);
      if !ok {
        errors := errors + 1;
      } else if isArray {
        work := work + [Delayed(name, sc, count)];
      } else {
        AddInstances(name, sc, count);
      }
    }

    ghost function Now(): Forest
      reads this
    {
      Forest(scopes, work, errors)
    }

    method Take(s: Step)
      requires Valid()
      modifies this
      ensures Valid() && Takes(limit, old(Now()), s, Now())
    {
      match s {
        case NewRoot(name) => AddScope(ModuleScope(name), -1);
        case NewScope(inside, kind) =>
          if inside < |scopes| && !kind.ModuleScope? { AddScope(kind, inside); }
        case Instantiate(name, inside, isArray, count) =>
          if inside < |scopes| { InstantiateModule(name, inside, isArray, if isArray then count else 1); }
        case RunDelayed =>
          if work != [] {
            var d := work[0];
            work := work[1..];
            AddInstances(d.name, d.inside, d.count);
          }
      }
    }

    /** Any run is a sequence of such steps, and however they interleave, on every path of the
        tree each module occurs at most once more than the limit, with generate blocks in between. */
    method Run(steps: seq<Step>) returns (ghost trace: seq<Forest>)
      requires Valid()
      modifies this
      ensures Valid()
      ensures Trace(limit, steps, trace) && trace[0] == old(Now()) && trace[|steps|] == Now()
      ensures forall sc | 0 <= sc < |scopes| :: Separated(Path(scopes, sc))
      ensures forall sc, m | 0 <= sc < |scopes| :: Count(m, Path(scopes, sc)) <= limit + 1
    {
      var k := 0;
      trace := [Now()];
      while k < |steps|
        invariant 0 <= k <= |steps| && Valid()
        invariant Trace(limit, steps[..k], trace) && trace[0] == old(Now()) && trace[k] == Now()
      {
        Take(steps[k]);
        TraceGrows(limit, steps[..k], trace, steps[k], Now());
        assert steps[..k + 1] == steps[..k] + [steps[k]];
        trace := trace + [Now()];
        k := k + 1;
      }
      assert steps[..k] == steps;
      forall sc | 0 <= sc < |scopes| ensures Separated(Path(scopes, sc)) {
        PathSeparated(scopes, limit, sc);
      }
      forall sc, m | 0 <= sc < |scopes| ensures Count(m, Path(scopes, sc)) <= limit + 1 {
        PathCount(scopes, limit, sc, m);
      }
    }
  }

  lemma TraceGrows(limit: nat, steps: seq<Step>, trace: seq<Forest>, s: Step, b: Forest)
    requires Trace(limit, steps, trace) && Takes(limit, trace[|steps|], s, b)
    ensures Trace(limit, steps + [s], trace + [b])
  {
    var steps', trace' := steps + [s], trace + [b];
    forall k | 0 <= k < |steps'| ensures Takes(limit, trace'[k], steps'[k], trace'[k + 1]) {
      if k < |steps| { assert Takes(limit, trace[k], steps[k], trace[k + 1]); }
    }
  }

  /** So a path has at most `limit + 1` module scopes for each module there is. */
  lemma PathBound(scopes: seq<Scope>, limit: nat, sc: nat, names: set<string>)
    requires Nested(scopes, limit) && sc < |scopes|
    requires forall i | 0 <= i < |scopes| && scopes[i].kind.ModuleScope? :: scopes[i].kind.name in names
    ensures Modules(Path(scopes, sc)) <= |names| * (limit + 1)
  {
    forall m ensures Count(m, Path(scopes, sc)) <= if m in names then limit + 1 else 0 {
      PathCount(scopes, limit, sc, m);
      if m !in names { NoOther(scopes, sc, m); }
    }
    ModulesBound(Path(scopes, sc), names, limit + 1);
  }

  lemma {:induction false} NoOther(scopes: seq<Scope>, sc: int, m: string)
    requires IsTree(scopes) && -1 <= sc < |scopes|
    requires forall i | 0 <= i < |scopes| :: scopes[i].kind != ModuleScope(m)
    ensures Count(m, Path(scopes, sc)) == 0
    decreases sc + 1
  {
    if sc >= 0 {
      NoOther(scopes, scopes[sc].parent, m);
      assert Path(scopes, sc)[1..] == Path(scopes, scopes[sc].parent);
    }
  }
}
