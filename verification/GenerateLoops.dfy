/** The loop that generates one scope for each value of a genvar. */
module GenerateLoops {

  /** A constant expression of the genvar, as it evaluates. */
  datatype Constant<T> = NotConstant | Undefined | Is(value: T)

  const LIMIT := 500000

  predicate Distinct(made: seq<int>) {
    forall i, j | 0 <= i < j < |made| :: made[i] != made[j]
  }

  /** Each value passed the test and leads to the next by the step. */
  ghost predicate Chain(init: int, test: int -> Constant<bool>, step: int -> Constant<int>, made: seq<int>,
                        genvar: int) {
    && (if made == [] then genvar == init else made[0] == init && step(made[|made| - 1]) == Is(genvar))
    && (forall i | 0 <= i < |made| :: test(made[i]) == Is(true))
    && (forall i | 0 <= i < |made| - 1 :: step(made[i]) == Is(made[i + 1]))
  }

  /** The whole loop: it ends, by a value that fails the test, after at most the limit of
      values, which are distinct and new. */
  ghost predicate Complete(init: int, test: int -> Constant<bool>, step: int -> Constant<int>, children: set<int>,
                           made: seq<int>, last: int) {
    && Chain(init, test, step, made, last) && test(last) == Is(false)
    && Distinct(made) && |made| <= LIMIT && forall i | 0 <= i < |made| :: made[i] !in children
  }

  ghost predicate Generates(init: int, test: int -> Constant<bool>, step: int -> Constant<int>, children: set<int>) {
    exists made, last :: Complete(init, test, step, children, made, last)
  }

  /** The values so far begin those of the whole loop, and the next one is its next. */
  lemma {:induction false} Begins(init: int, test: int -> Constant<bool>, step: int -> Constant<int>, made: seq<int>,
                                  genvar: int, all: seq<int>, last: int)
    requires Chain(init, test, step, made, genvar)
    requires Chain(init, test, step, all, last) && test(last) == Is(false)
    ensures made <= all && genvar == if |made| < |all| then all[|made|] else last
  {
    if made != [] {
      var n := |made| - 1;
      assert n > 0 ==> step(made[n - 1]) == Is(made[n - 1 + 1]);
      Begins(init, test, step, made[..n], made[n], all, last);
      assert test(made[n]) == Is(true);
      assert made == made[..n] + [made[n]];
      assert n + 1 < |all| ==> step(all[n]) == Is(all[n + 1]);
    }
  }

  /** Nothing that the loop takes for an error comes up when the whole loop can be generated. */
  lemma NoErrorYet(init: int, test: int -> Constant<bool>, step: int -> Constant<int>, children: set<int>,
                   made: seq<int>, genvar: int)
    requires Chain(init, test, step, made, genvar) && Generates(init, test, step, children)
    ensures test(genvar).Is? && |made| <= LIMIT
    ensures test(genvar).value ==>
      genvar !in children && genvar !in made && step(genvar).Is? && step(genvar).value != genvar
  {
    var all, last :| Complete(init, test, step, children, all, last);
    var n := |made|;
    Begins(init, test, step, made, genvar, all, last);
    if test(genvar).value {
      assert n < |all| && test(all[n]) == Is(true);
      if n + 1 < |all| { assert step(all[n]) == Is(all[n + 1]) && all[n] != all[n + 1]; }
    }
  }

  /** `generate_scope_loop_`. `children` are the genvars of scopes there already; `made`
      those of the scopes made, also when the loop ends in an error. */
  method GenerateLoop(init: int, test: int -> Constant<bool>, step: int -> Constant<int>, children: set<int>)
    returns (ok: bool, made: seq<int>, ghost last: int)
    ensures Distinct(made) && (forall i | 0 <= i < |made| :: made[i] !in children) && |made| <= LIMIT + 1
    ensures ok <==> Generates(init, test, step, children)
    ensures ok ==> Complete(init, test, step, children, made, last)
  {
    var genvar := init;
    made, last := [], init;
    if Generates(init, test, step, children) { NoErrorYet(init, test, step, children, made, genvar); }
    if !test(genvar).Is? { return false, made, last; }
    var loopCount := 1;
    while test(genvar).value
      invariant Distinct(made) && forall i | 0 <= i < |made| :: made[i] !in children
      invariant test(genvar).Is? && Chain(init, test, step, made, genvar)
      invariant loopCount == |made| + 1 <= LIMIT + 1
      decreases LIMIT + 1 - |made|
    {
      if Generates(init, test, step, children) { NoErrorYet(init, test, step, children, made, genvar); }
      if genvar in children || genvar in made { return false, made, last; }
      made := made + [genvar];
      var next := step(genvar);
      if !next.Is? || next.value == genvar { return false, made, last; }
      genvar := next.value;
      if Generates(init, test, step, children) { NoErrorYet(init, test, step, children, made, genvar); }
      if !test(genvar).Is? { return false, made, last; }
      if loopCount > LIMIT { return false, made, last; }
      loopCount := loopCount + 1;
    }
    assert Complete(init, test, step, children, made, genvar);
    ok, last := true, genvar;
  }
}
