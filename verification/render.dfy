/** Rendering of the consolidated variable (plugins/modules/consolidate_variable.py,
    `_render_recursive` and `render_variables`). Rendering one string with Jinja2 against the
    merged variables is a parameter: `render(s)` is the rendered text, or `None` when the
    template fails to parse or render. */
module Render {
  import opened Wrappers
  import opened Variables

  /** Two values have the same shape: strings where the other has strings, lists of the same
      length with items of the same shape, mappings with the same keys and values of the same
      shape, and equal values everywhere else. */
  predicate SameShape(a: Value, b: Value)
    decreases a
  {
    match a
    case Str(_) => b.Str?
    case List(xs) =>
      && b.List? && |b.items| == |xs|
      && forall i :: 0 <= i < |xs| ==> SameShape(xs[i], b.items[i])
    case Dict(m) =>
      && b.Dict? && b.entries.Keys == m.Keys
      && forall k :: k in m ==> SameShape(m[k], b.entries[k])
    case _ => b == a
  }

  /** `_render_recursive`: every string is rendered (kept as it is when rendering fails), lists
      and mappings are rebuilt item by item, other values are returned unchanged. */
  function RenderRecursive(v: Value, render: string -> Option<string>): (r: Value)
    ensures SameShape(v, r)
    ensures v.Str? && render(v.s).Some? ==> r == Str(render(v.s).value)
    ensures v.Str? && render(v.s).None? ==> r == v
    decreases v
  {
    match v
    case Str(s) =>
      (match render(s)
       case Some(t) => Str(t)
       case None => v)
    case List(xs) =>
      List(seq(|xs|, i requires 0 <= i < |xs| => RenderRecursive(xs[i], render)))
    case Dict(m) =>
      Dict(map k | k in m :: RenderRecursive(m[k], render))
    case _ => v
  }

  /** Rendering a list renders each item in place, so rendering commutes with concatenation:
      the rendered list of `xs + ys` is the rendered `xs` followed by the rendered `ys`. */
  lemma RenderListAppend(xs: seq<Value>, ys: seq<Value>, render: string -> Option<string>)
    ensures RenderRecursive(List(xs + ys), render).items
         == RenderRecursive(List(xs), render).items + RenderRecursive(List(ys), render).items
  {
    var a := RenderRecursive(List(xs), render).items;
    var b := RenderRecursive(List(ys), render).items;
    var c := RenderRecursive(List(xs + ys), render).items;
    assert |c| == |a| + |b|;
    forall i | 0 <= i < |c| ensures c[i] == (a + b)[i] {
      if i < |xs| {
        assert (xs + ys)[i] == xs[i];
      } else {
        assert (xs + ys)[i] == ys[i - |xs|];
      }
    }
  }


  /** Repeated rendering of a list also commutes with concatenation, for any number of passes. */
  lemma {:induction false} IterateListAppend(xs: seq<Value>, ys: seq<Value>, render: string -> Option<string>, n: nat)
    ensures Iterate(List(xs + ys), render, n).items
         == Iterate(List(xs), render, n).items + Iterate(List(ys), render, n).items
    decreases n
  {
    if n > 0 {
      var a := RenderRecursive(List(xs), render).items;
      var b := RenderRecursive(List(ys), render).items;
      RenderListAppend(xs, ys, render);
      assert RenderRecursive(List(xs + ys), render) == List(a + b);
      IterateListAppend(a, b, render, n - 1);
    }
  }

  /** A renderer that returns every string as it is leaves every value unchanged. */
  lemma {:induction false} RenderIdentity(v: Value, render: string -> Option<string>)
    requires forall s :: render(s) == Some(s)
    ensures RenderRecursive(v, render) == v
    decreases v
  {
    match v
    case Str(_) =>
    case List(xs) =>
      forall i | 0 <= i < |xs| ensures RenderRecursive(xs[i], render) == xs[i] {
        RenderIdentity(xs[i], render);
      }
    case Dict(m) =>
      forall k | k in m ensures RenderRecursive(m[k], render) == m[k] {
        RenderIdentity(m[k], render);
      }
    case _ =>
  }

  /** A renderer that fails on every string leaves every value unchanged. */
  lemma {:induction false} RenderAllFail(v: Value, render: string -> Option<string>)
    requires forall s :: render(s).None?
    ensures RenderRecursive(v, render) == v
    decreases v
  {
    match v
    case Str(_) =>
    case List(xs) =>
      forall i | 0 <= i < |xs| ensures RenderRecursive(xs[i], render) == xs[i] {
        RenderAllFail(xs[i], render);
      }
    case Dict(m) =>
      forall k | k in m ensures RenderRecursive(m[k], render) == m[k] {
        RenderAllFail(m[k], render);
      }
    case _ =>
  }

  /** Having the same shape is transitive, so any number of rendering steps keeps the shape. */
  lemma {:induction false} SameShapeTrans(a: Value, b: Value, c: Value)
    requires SameShape(a, b) && SameShape(b, c)
    ensures SameShape(a, c)
    decreases a
  {
    match a
    case Str(_) =>
    case List(xs) =>
      forall i | 0 <= i < |xs| ensures SameShape(xs[i], c.items[i]) {
        SameShapeTrans(xs[i], b.items[i], c.items[i]);
      }
    case Dict(m) =>
      forall k | k in m ensures SameShape(m[k], c.entries[k]) {
        SameShapeTrans(m[k], b.entries[k], c.entries[k]);
      }
    case _ =>
  }

  /** The value after `n` rendering steps. */
  function Iterate(v: Value, render: string -> Option<string>, n: nat): (r: Value)
    ensures SameShape(v, r)
    decreases n
  {
    if n == 0 then
      SameShapeRefl(v);
      v
    else
      var w := RenderRecursive(v, render);
      var r := Iterate(w, render, n - 1);
      SameShapeTrans(v, w, r);
      r
  }

  lemma {:induction false} SameShapeRefl(v: Value)
    ensures SameShape(v, v)
    decreases v
  {
    match v
    case Str(_) =>
    case List(xs) =>
      forall i | 0 <= i < |xs| ensures SameShape(xs[i], xs[i]) {
        SameShapeRefl(xs[i]);
      }
    case Dict(m) =>
      forall k | k in m ensures SameShape(m[k], m[k]) {
        SameShapeRefl(m[k]);
      }
    case _ =>
  }

  lemma {:induction false} IterateLast(v: Value, render: string -> Option<string>, n: nat)
    ensures Iterate(v, render, n + 1) == RenderRecursive(Iterate(v, render, n), render)
    decreases n
  {
    var w := RenderRecursive(v, render);
    assert Iterate(v, render, n + 1) == Iterate(w, render, n);
    if n == 0 {
      assert Iterate(w, render, 0) == w && Iterate(v, render, 0) == v;
    } else {
      IterateLast(w, render, n - 1);
      assert Iterate(v, render, n) == Iterate(w, render, n - 1);
    }
  }

  /** Once a step changes nothing, no later step does. */
  lemma {:induction false} FixedPointStays(v: Value, render: string -> Option<string>, n: nat)
    requires RenderRecursive(v, render) == v
    ensures Iterate(v, render, n) == v
    decreases n
  {
    if n > 0 {
      FixedPointStays(v, render, n - 1);
    }
  }

  /** A rendering step leaves `v` unchanged. */
  predicate IsFixpoint(v: Value, render: string -> Option<string>)
  {
    RenderRecursive(v, render) == v
  }

  /** None of the first `n` steps left its value unchanged. */
  ghost predicate NoFixpointBefore(v: Value, render: string -> Option<string>, n: nat)
  {
    forall j :: 0 <= j < n ==> !IsFixpoint(Iterate(v, render, j), render)
  }

  /** A step that changes the value after `i` steps yields the value after `i + 1` steps. */
  lemma StepChanges(v: Value, render: string -> Option<string>, i: nat, r: Value)
    requires r == Iterate(v, render, i) && !IsFixpoint(r, render)
    requires NoFixpointBefore(v, render, i)
    ensures RenderRecursive(r, render) == Iterate(v, render, i + 1)
    ensures NoFixpointBefore(v, render, i + 1)
  {
    IterateLast(v, render, i);
  }

  /** `render_variables(obj, variables, max_iterations)`: render until a step changes nothing,
      at most `maxIterations` times (`range` of a count below one runs no step). `steps` is the
      number of steps taken before the value returned. */
  method RenderVariables(obj: Value, render: string -> Option<string>, maxIterations: int) returns (r: Value, steps: nat)
    ensures r == Iterate(obj, render, steps)
    ensures steps == 0 || steps <= maxIterations
    ensures steps < maxIterations ==> RenderRecursive(r, render) == r
    ensures forall j :: 0 <= j < steps ==> RenderRecursive(Iterate(obj, render, j), render) != Iterate(obj, render, j)
    ensures SameShape(obj, r)
  {
    r := obj;
    steps := 0;
    var i: nat := 0;
    while i < maxIterations
      invariant steps == i
      invariant i == 0 || i <= maxIterations
      invariant r == Iterate(obj, render, i)
      invariant NoFixpointBefore(obj, render, i)
      decreases maxIterations - i
    {
      if IsFixpoint(r, render) {
        return r, steps;
      }
      StepChanges(obj, render, i, r);
      r := RenderRecursive(r, render);
      i := i + 1;
      steps := i;
    }
  }

  /** With a renderer that changes nothing, the value comes back at once, after no step. */
  lemma RenderVariablesIdentity(obj: Value, render: string -> Option<string>, r: Value, steps: nat)
    requires forall s :: render(s) == Some(s)
    requires r == Iterate(obj, render, steps)
    ensures r == obj
  {
    RenderIdentity(obj, render);
    FixedPointStays(obj, render, steps);
  }
}
