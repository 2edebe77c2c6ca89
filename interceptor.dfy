/** Interceptor composition as `interceptorTest` pins it down. An interceptor
    wraps an invocation: it may rewrite the mutable parameter list and then
    proceeds to the rest of the chain, whose result it returns. The tests use
    two kinds: `DIRECT`, which proceeds at once, and `i(id)`, which turns
    parameter 0 into `parameter0 * 10 + id` before proceeding. `composite`
    folds a list of interceptors into one, with `DIRECT` as its unit. */
module Interceptor {

  /** `DIRECT`, the interceptor `i(id)` of the tests for any int id, or one
      interceptor wrapping another. */
  datatype Interceptor =
    | Direct
    | Rewriter(id: int)
    | Chain(outer: Interceptor, inner: Interceptor)

  /** Two interceptors, the first wrapping the second; `DIRECT` disappears
      on either side, and the result is `DIRECT` only when both are. */
  function Compose(outer: Interceptor, inner: Interceptor): (r: Interceptor)
    ensures r == Direct <==> outer == Direct && inner == Direct
  {
    if outer == Direct then inner
    else if inner == Direct then outer
    else Chain(outer, inner)
  }

  /** `composite(i1, ..., in)`: i1 wrapping i2 wrapping ... wrapping in. It
      is `DIRECT` exactly when every argument is `DIRECT`. */
  function Composite(interceptors: seq<Interceptor>): (r: Interceptor)
    ensures r == Direct <==> forall k | 0 <= k < |interceptors| :: interceptors[k] == Direct
  {
    if |interceptors| == 0 then Direct
    else Compose(Composite(interceptors[..|interceptors| - 1]), interceptors[|interceptors| - 1])
  }

  /** The interceptors that rewrite parameters, in the order they run. */
  function Steps(i: Interceptor): seq<int> {
    match i
    case Direct => []
    case Rewriter(id) => [id]
    case Chain(outer, inner) => Steps(outer) + Steps(inner)
  }

  /** What `i(id)` makes of parameter 0. */
  function Rewrite(p: int, id: int): int {
    p * 10 + id
  }

  /** Parameter 0 after the whole chain has run, from the outside in. A
      chain without rewriters leaves it as it is, and a chain with one
      rewriter applies just that one. */
  function Apply(i: Interceptor, p: int): (r: int)
    ensures Steps(i) == [] ==> r == p
    ensures |Steps(i)| == 1 ==> r == Rewrite(p, Steps(i)[0])
  {
    match i
    case Direct => p
    case Rewriter(id) => Rewrite(p, id)
    case Chain(outer, inner) => Apply(inner, Apply(outer, p))
  }

  /** The rewrites of a list of steps, first to last. */
  function Run(ids: seq<int>, p: int): int
    decreases |ids|
  {
    if |ids| == 0 then p else Run(ids[1..], Rewrite(p, ids[0]))
  }

  /** p with the ids appended one after the other, each shifting what came
      before one decimal place up: for ids 0..9 these are decimal digits, but
      any int is allowed (the tests use 123). */
  function AppendIds(ids: seq<int>, p: int): int
    decreases |ids|
  {
    if |ids| == 0 then p else AppendIds(ids[..|ids| - 1], p) * 10 + ids[|ids| - 1]
  }

  lemma {:induction false} RunAppend(a: seq<int>, b: seq<int>, p: int)
    ensures Run(a + b, p) == Run(b, Run(a, p))
    decreases |a|
  {
    if |a| == 0 {
      assert a + b == b;
    } else {
      assert (a + b)[1..] == a[1..] + b;
      RunAppend(a[1..], b, Rewrite(p, a[0]));
    }
  }

  /** Running a chain is running its steps in order. */
  lemma {:induction false} ApplyRunsSteps(i: Interceptor, p: int)
    ensures Apply(i, p) == Run(Steps(i), p)
  {
    match i {
      case Direct =>
      case Rewriter(id) =>
        assert Run([id], p) == Run([], Rewrite(p, id));
      case Chain(outer, inner) =>
        ApplyRunsSteps(outer, p);
        ApplyRunsSteps(inner, Apply(outer, p));
        RunAppend(Steps(outer), Steps(inner), p);
    }
  }

  /** Composition concatenates the steps: the outer interceptor's run first. */
  lemma ComposeSteps(outer: Interceptor, inner: Interceptor)
    ensures Steps(Compose(outer, inner)) == Steps(outer) + Steps(inner)
  {
    if outer == Direct {
      assert Steps(outer) + Steps(inner) == Steps(inner);
    } else if inner == Direct {
      assert Steps(outer) + Steps(inner) == Steps(outer);
    }
  }

  /** `composite` runs the steps of its arguments in argument order. */
  lemma {:induction false} CompositeSteps(interceptors: seq<Interceptor>)
    ensures Steps(Composite(interceptors)) == Flatten(interceptors)
    decreases |interceptors|
  {
    if |interceptors| > 0 {
      var n := |interceptors| - 1;
      CompositeSteps(interceptors[..n]);
      ComposeSteps(Composite(interceptors[..n]), interceptors[n]);
      FlattenLast(interceptors);
    }
  }

  /** The steps of a list of interceptors, in list order. */
  function Flatten(interceptors: seq<Interceptor>): seq<int>
    decreases |interceptors|
  {
    if |interceptors| == 0 then [] else Steps(interceptors[0]) + Flatten(interceptors[1..])
  }

  lemma {:induction false} FlattenLast(interceptors: seq<Interceptor>)
    requires |interceptors| > 0
    ensures Flatten(interceptors)
         == Flatten(interceptors[..|interceptors| - 1]) + Steps(interceptors[|interceptors| - 1])
    decreases |interceptors|
  {
    var n := |interceptors| - 1;
    if n == 0 {
      assert interceptors[..n] == [];
    } else {
      assert interceptors[1..][..n - 1] == interceptors[..n][1..];
      FlattenLast(interceptors[1..]);
      assert interceptors[..n][0] == interceptors[0];
    }
  }

  /** `composite()` is `DIRECT` itself. */
  lemma CompositeOfNothing()
    ensures Composite([]) == Direct
  {
  }

  /** `composite(x)` is x itself. */
  lemma CompositeOfOne(x: Interceptor)
    ensures Composite([x]) == x
  {
    assert [x][..0] == [];
  }

  /** `DIRECT` is neutral on either side of a composition. */
  lemma DirectIsUnit(x: Interceptor)
    ensures Compose(Direct, x) == x && Compose(x, Direct) == x
  {
  }

  /** Composition is associative in what the chain does. */
  lemma ComposeAssociative(a: Interceptor, b: Interceptor, c: Interceptor, p: int)
    ensures Steps(Compose(Compose(a, b), c)) == Steps(Compose(a, Compose(b, c)))
    ensures Apply(Compose(Compose(a, b), c), p) == Apply(Compose(a, Compose(b, c)), p)
  {
    ComposeSteps(Compose(a, b), c);
    ComposeSteps(a, b);
    ComposeSteps(a, Compose(b, c));
    ComposeSteps(b, c);
    assert Steps(a) + Steps(b) + Steps(c) == Steps(a) + (Steps(b) + Steps(c));
    ApplyRunsSteps(Compose(Compose(a, b), c), p);
    ApplyRunsSteps(Compose(a, Compose(b, c)), p);
  }

  lemma {:induction false} RunIsAppendIds(ids: seq<int>, p: int)
    ensures Run(ids, p) == AppendIds(ids, p)
    decreases |ids|
  {
    if |ids| > 0 {
      var n := |ids| - 1;
      assert ids == ids[..n] + [ids[n]];
      RunAppend(ids[..n], [ids[n]], p);
      RunIsAppendIds(ids[..n], p);
      assert Run([ids[n]], Run(ids[..n], p)) == Run([], Rewrite(Run(ids[..n], p), ids[n]));
    }
  }

  /** The interceptors of `composite(i(d1), ..., i(dn))` rewrite parameter 0
      from p to p with d1 ... dn appended in that order: the first
      interceptor runs first. */
  lemma RewritersRunInOrder(interceptors: seq<Interceptor>, p: int)
    ensures Apply(Composite(interceptors), p) == AppendIds(Flatten(interceptors), p)
  {
    ApplyRunsSteps(Composite(interceptors), p);
    CompositeSteps(interceptors);
    RunIsAppendIds(Flatten(interceptors), p);
  }

  /** The results of `invoke` that `interceptorTest` asserts. */
  lemma InvokeResults()
    ensures Apply(Composite([]), 0) == 0
    ensures Apply(Composite([Direct]), 0) == 0
    ensures Apply(Composite([Rewriter(123)]), 0) == 123
    ensures Apply(Composite([Direct, Rewriter(123)]), 0) == 123
    ensures Apply(Composite([Rewriter(123), Direct]), 0) == 123
    ensures Apply(Composite([Rewriter(9), Rewriter(8), Rewriter(7)]), 0) == 987
  {
    CompositeOfOne(Direct);
    CompositeOfOne(Rewriter(123));
    assert [Direct, Rewriter(123)][..1] == [Direct];
    assert [Rewriter(123), Direct][..1] == [Rewriter(123)];
    var nine := [Rewriter(9), Rewriter(8), Rewriter(7)];
    assert nine[..2][..1] == [Rewriter(9)];
    CompositeOfOne(Rewriter(9));
  }

  /** One interceptor's rewrite of parameter 0, in place. */
  method RewriteInPlace(parameters: array<int>, id: int)
    requires parameters.Length > 0
    modifies parameters
    ensures parameters[..] == old(parameters[..])[0 := Rewrite(old(parameters[0]), id)]
  {
    parameters[0] := parameters[0] * 10 + id;
  }

  /** Invokes `target` through interceptor i: each `i(id)` in the chain
      rewrites parameter 0 in place, outermost first, and the chain returns
      what the target returns for the final parameters. */
  method Invoke<R>(i: Interceptor, parameters: array<int>, target: seq<int> -> R) returns (result: R)
    requires |Steps(i)| > 0 ==> parameters.Length > 0
    modifies parameters
    ensures parameters.Length > 0 ==> parameters[..] == old(parameters[..])[0 := Apply(i, old(parameters[0]))]
    ensures parameters.Length == 0 ==> parameters[..] == old(parameters[..])
    ensures result == target(parameters[..])
  {
    var steps := Steps(i);
    ghost var p0 := if parameters.Length > 0 then parameters[0] else 0;
    ghost var rest := parameters[..];
    for k := 0 to |steps|
      invariant parameters.Length > 0 ==> parameters[..] == rest[0 := Run(steps[..k], p0)]
      invariant parameters.Length == 0 ==> parameters[..] == rest
    {
      RewriteInPlace(parameters, steps[k]);
      assert steps[..k + 1] == steps[..k] + [steps[k]];
      RunAppend(steps[..k], [steps[k]], p0);
      assert Run([steps[k]], Run(steps[..k], p0)) == Run([], Rewrite(Run(steps[..k], p0), steps[k]));
    }
    assert steps[..|steps|] == steps;
    if parameters.Length > 0 {
      ApplyRunsSteps(i, p0);
    }
    result := target(parameters[..]);
  }

  /** `invoke(...interceptors)` of `interceptorTest`: runs the composite of
      the interceptors on the parameter list [0] and returns parameter 0. */
  method InvokeTest(interceptors: seq<Interceptor>) returns (p: int)
    ensures p == Apply(Composite(interceptors), 0)
    ensures p == AppendIds(Flatten(interceptors), 0)
  {
    var parameters := new int[1];
    parameters[0] := 0;
    var ignored := Invoke(Composite(interceptors), parameters, _ => "fkjskfjksjfl");
    p := parameters[0];
    RewritersRunInOrder(interceptors, 0);
  }
}
