/** Merging the implicit constructor of a class into the explicit one, by surgery on
    statement lists. */
module Constructors {

  /** A call of the parent's constructor, a block, or any other statement. */
  datatype Statement = Chain(args: nat) | Nested(block: Block) | Other(id: nat)

  datatype Option<T> = None | Some(value: T)

  class Block {
    const sequential: bool
    var list: seq<Statement>

    constructor (list: seq<Statement>)
      ensures sequential && this.list == list
    {
      sequential, this.list := true, list;
    }

    /** `PBlock::extract_chain_constructor`: the others move up by one. */
    method ExtractChain() returns (res: Option<Statement>)
      modifies this
      ensures if old(list) != [] && old(list)[0].Chain?
        then res == Some(old(list)[0]) && list == old(list)[1..]
        else res == None && list == old(list)
    {
      if list == [] || !list[0].Chain? { return None; }
      res := Some(list[0]);
      var idx := 0;
      while idx < |list| - 1
        invariant 0 <= idx <= |list| - 1 && |list| == |old(list)|
        invariant forall k | 0 <= k < idx :: list[k] == old(list)[k + 1]
        invariant forall k | idx <= k < |list| :: list[k] == old(list)[k]
      {
        list := list[idx := list[idx + 1]];
        idx := idx + 1;
      }
      list := list[..|list| - 1];
    }

    /** `PBlock::push_statement_front`: the others move down by one. */
    method PushFront(that: Statement)
      requires sequential
      modifies this
      ensures list == [that] + old(list)
    {
      ghost var was := list;
      list := list + [that];
      var idx := |list| - 1;
      while idx > 0
        invariant 0 <= idx < |list| == |was| + 1
        invariant forall k | 0 <= k < idx :: list[k] == was[k]
        invariant forall k | idx < k < |list| :: list[k] == was[k - 1]
      {
        list := list[idx := list[idx - 1]];
        idx := idx - 1;
      }
      list := list[0 := that];
    }
  }

  class Function {
    var statement: Option<Statement>

    constructor (statement: Option<Statement>)
      ensures this.statement == statement
    {
      this.statement := statement;
    }

    /** The block that holds the statements, if there is one. */
    ghost function Blocks(): set<Block>
      reads this
    {
      if statement.Some? && statement.value.Nested? then {statement.value.block} else {}
    }

    /** The statements in order. */
    ghost function Items(): seq<Statement>
      reads this, Blocks()
    {
      if statement.None? then []
      else if statement.value.Nested? then statement.value.block.list
      else [statement.value]
    }

    /** There is a statement, and not a parallel block. */
    ghost predicate Pushable()
      reads this
    {
      statement.Some? && forall b | b in Blocks() :: b.sequential
    }

    /** `PFunction::push_statement_front`: a statement that is no block is wrapped in one. */
    method PushFront(stmt: Statement)
      requires Pushable()
      modifies this, Blocks()
      ensures Pushable() && Items() == [stmt] + old(Items())
      ensures forall b | b in Blocks() :: b in old(Blocks()) || fresh(b)
    {
      if !statement.value.Nested? {
        var blk := new Block([statement.value]);
        statement := Some(Nested(blk));
      }
      statement.value.block.PushFront(stmt);
    }

    /** `PFunction::extract_chain_constructor`. */
    method ExtractChain() returns (res: Option<Statement>)
      modifies this, Blocks()
      ensures if old(Items()) != [] && old(Items())[0].Chain?
        then res == Some(old(Items())[0]) && Items() == old(Items())[1..]
        else res == None && Items() == old(Items())
      ensures forall b | b in Blocks() :: b in old(Blocks()) || (fresh(b) && b.sequential)
      ensures statement.Some? <==> old(statement).Some?
    {
      res := None;
      if statement.Some? {
        match statement.value {
          case Chain(_) =>
            res := Some(statement.value);
            var blk := new Block([]);
            statement := Some(Nested(blk));
          case Nested(blk) => res := blk.ExtractChain();
          case Other(_) =>
        }
      }
    }
  }

  /** The super call for a constructor with these statements in a class with this parent. */
  function SuperCall(items: seq<Statement>, base: Option<nat>): Option<Statement> {
    if items != [] && items[0].Chain? then Some(items[0])
    else if base.Some? then Some(Chain(base.value))
    else None
  }

  function WithoutSuper(items: seq<Statement>): seq<Statement> {
    if items != [] && items[0].Chain? then items[1..] else items
  }

  function Listed(s: Option<Statement>): seq<Statement> {
    if s.Some? then [s.value] else []
  }

  const NEW := "new"
  const IMPLICIT := "new@"

  /** What happens to an explicit constructor: its super call is set aside, or one is made
      for the parent; the statement of the implicit constructor goes in front of the rest,
      and then the super call. */
  method BlendExplicit(def: Function, both: bool, initialisers: Option<Statement>, base: Option<nat>)
    requires forall b | b in def.Blocks() :: b.sequential
    requires SuperCall(def.Items(), base).Some? && !both ==> def.statement.Some?
    requires initialisers.Some? ==> both
    modifies def, def.Blocks()
    ensures def.Items()
      == Listed(SuperCall(old(def.Items()), base)) + Listed(initialisers) + WithoutSuper(old(def.Items()))
  {
    var chain := def.ExtractChain();
    if chain == None && base.Some? { chain := Some(Chain(base.value)); }
    if both {
      if def.statement.None? {
        var empty := new Block([]);
        def.statement := Some(Nested(empty));
      }
      if initialisers.Some? { def.PushFront(initialisers.value); }
    }
    if chain.Some? { def.PushFront(chain.value); }
  }

  class Class {
    /** The constructor arguments for the parent class, if there is one. */
    const base: Option<nat>
    var funcs: map<string, Function>

    constructor (base: Option<nat>, funcs: map<string, Function>)
      ensures this.base == base && this.funcs == funcs
    {
      this.base, this.funcs := base, funcs;
    }

    ghost function Objects(): set<object>
      reads this, funcs.Values
    {
      {this} + (set f | f in funcs.Values :: f as object)
             + (set f, b | f in funcs.Values && b in f.Blocks() :: b as object)
    }

    /** The function that statements are pushed onto can take them. */
    ghost predicate Blendable()
      reads this, funcs.Values, set f, b | f in funcs.Values && b in f.Blocks() :: b
    {
      if NEW in funcs then
        var f := funcs[NEW];
        && (forall b | b in f.Blocks() :: b.sequential)
        && (SuperCall(f.Items(), base).Some? && IMPLICIT !in funcs ==> f.statement.Some?)
      else IMPLICIT in funcs && base.Some? ==> funcs[IMPLICIT].Pushable()
    }

    /** `blend_class_constructors`. An explicit constructor ends up as the super call, then
        the statement of the implicit constructor, then its own other statements in order;
        an implicit one alone gets the super call for its parent in front. */
    method BlendConstructors()
      requires Blendable()
      modifies Objects()
      ensures NEW in old(funcs) ==> funcs == old(funcs) - {IMPLICIT}
      ensures NEW in old(funcs) ==>
        funcs[NEW].Items()
        == Listed(SuperCall(old(funcs[NEW].Items()), base))
         + (if IMPLICIT in old(funcs) then Listed(old(funcs[IMPLICIT].statement)) else [])
         + WithoutSuper(old(funcs[NEW].Items()))
      ensures NEW !in old(funcs) ==> funcs == old(funcs)
      ensures NEW !in old(funcs) && IMPLICIT in old(funcs) ==>
        funcs[IMPLICIT].Items()
        == (if base.Some? then [Chain(base.value)] else []) + old(funcs[IMPLICIT].Items())
    {
      if NEW in funcs {
        assert funcs[NEW] in funcs.Values && forall b | b in funcs[NEW].Blocks() :: b in Objects();
        var both := IMPLICIT in funcs;
        var initialisers := if both then funcs[IMPLICIT].statement else None;
        BlendExplicit(funcs[NEW], both, initialisers, base);
        funcs := funcs - {IMPLICIT};
      } else if IMPLICIT in funcs && base.Some? {
        assert funcs[IMPLICIT] in funcs.Values && forall b | b in funcs[IMPLICIT].Blocks() :: b in Objects();
        funcs[IMPLICIT].PushFront(Chain(base.value));
      }
    }
  }

  /** If the constructor calls its parent nowhere but at its start, the merged one has the
      super call first and no other. */
  lemma OneSuperCallFirst(items: seq<Statement>, initialisers: Option<Statement>, base: Option<nat>)
    requires initialisers.Some? ==> !initialisers.value.Chain?
    requires forall k | 0 < k < |items| :: !items[k].Chain?
    ensures var merged := Listed(SuperCall(items, base)) + Listed(initialisers) + WithoutSuper(items);
      && (forall k | 0 <= k < |merged| && merged[k].Chain? :: k == 0)
      && (merged != [] && merged[0].Chain? <==> base.Some? || (items != [] && items[0].Chain?))
  {
    var rest := WithoutSuper(items);
    forall k | 0 <= k < |rest| ensures !rest[k].Chain? {
      if items != [] && items[0].Chain? { assert rest[k] == items[k + 1]; }
    }
    var merged := Listed(SuperCall(items, base)) + Listed(initialisers) + rest;
    var n := |Listed(SuperCall(items, base))| + |Listed(initialisers)|;
    assert forall k | n <= k < |merged| :: merged[k] == rest[k - n];
  }

  /** A constructor that calls its parent with arguments of its own keeps that call, whatever
      the class declares for its parent; without one, the parent's declared arguments are
      passed; and without a parent there is no call. The body follows the initialisers. */
  lemma MergedOrder(own: Option<nat>, body: seq<Statement>, initialisers: Option<Statement>, base: Option<nat>)
    requires body != [] ==> !body[0].Chain?
    ensures var items := if own.Some? then [Chain(own.value)] + body else body;
      Listed(SuperCall(items, base)) + Listed(initialisers) + WithoutSuper(items)
      == (if own.Some? then [Chain(own.value)] else if base.Some? then [Chain(base.value)] else [])
         + (if initialisers.Some? then [initialisers.value] else []) + body
  {
    assert own.Some? ==> ([Chain(own.value)] + body)[1..] == body;
  }
}
