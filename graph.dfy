/** The arena that owns every node of a computation graph, with the
    operations of the `Compute` interface and the constructors of the input
    leaf and of the four operators.  A handle to a node is its index; the
    strong argument references and the weak dependant references of the
    crate become index lists. */
module Graph {
  import opened Expressions
  import opened Ops
  import opened Semantics

  class Arena {
    const fo: FloatOps
    var nodes: seq<Node>

    /** The arena invariant: wiring and cache consistent (see `Consistent`). */
    ghost predicate Valid()
      reads this
    {
      Consistent(fo, nodes)
    }

    constructor (fo: FloatOps)
      ensures this.fo == fo && nodes == [] && Valid()
    {
      this.fo := fo;
      nodes := [];
    }

    // -----------------------------------------------------------------
    // The cache accessors every node implements

    /** `add_dependant`: records `d` once more among the dependants of `i`,
        without looking for an earlier entry. */
    method AddDependant(i: nat, d: nat)
      requires i < |nodes|
      modifies this
      ensures nodes == old(nodes)[i := old(nodes[i]).AddDependant(d)]
    {
      nodes := nodes[i := nodes[i].AddDependant(d)];
    }

    /** `has_cached_value`: always true for an input, and for an operator
        exactly when its record holds a value. */
    method HasCachedValue(i: nat) returns (b: bool)
      requires i < |nodes|
      ensures nodes[i].Input? ==> b
      ensures nodes[i].Operator? ==> (b <==> nodes[i].expr.cachedValue.Some?)
    {
      b := nodes[i].HasCachedValue();
    }

    /** `get_cached_value`: an input's current value, or the value an
        operator holds; in a valid arena either is the node's fresh value. */
    method GetCachedValue(i: nat) returns (v: real)
      requires i < |nodes| && nodes[i].HasCachedValue()
      ensures nodes[i].Input? ==> v == nodes[i].value
      ensures nodes[i].Operator? ==> nodes[i].expr.cachedValue == Some(v)
      ensures Valid() ==> v == Eval(fo, Terms(nodes), i)
    {
      if Valid() {
        assert CorrectAt(fo, nodes, i);
      }
      v := nodes[i].GetCachedValue();
    }

    /** `set_cached_value`: an operator's record is overwritten whatever it
        held; an input only checks that `v` is its current value.  The arena
        stays valid when the value stored is the node's fresh value and its
        arguments all hold values, as they do when `compute` stores it. */
    method SetCachedValue(i: nat, v: real)
      requires i < |nodes|
      requires nodes[i].Input? ==> v == nodes[i].value
      modifies this
      ensures old(nodes[i]).Input? ==> nodes == old(nodes)
      ensures old(nodes[i]).Operator? ==>
        nodes == old(nodes)[i := old(nodes[i]).(expr := old(nodes[i]).expr.(cachedValue := Some(v)))]
      ensures old(Valid()) && old(nodes[i]).Operator?
        && (forall a :: a in old(nodes[i]).Args() ==> a < |old(nodes)| && old(nodes)[a].HasCachedValue())
        && v == Eval(fo, Terms(old(nodes)), i)
        ==> Valid()
    {
      nodes := nodes[i := nodes[i].SetCachedValue(v)];
      if old(Valid()) && old(nodes[i]).Operator?
        && (forall a :: a in old(nodes[i]).Args() ==> a < |old(nodes)| && old(nodes)[a].HasCachedValue())
        && v == Eval(fo, Terms(old(nodes)), i)
      {
        FillConsistent(fo, old(nodes), i, v);
      }
    }

    /** `invalidate_cache`: clears the node's own value (an input has none)
        and recurses into every registered dependant, one entry at a time. */
    method InvalidateCache(i: nat)
      requires i < |nodes| && Upward(Wiring(nodes))
      modifies this
      decreases |nodes| - i
      ensures nodes == Invalidated(old(nodes), i)
      ensures old(Valid()) ==> Valid()
    {
      ghost var g := nodes;
      ghost var ws := Wiring(g);
      nodes := nodes[i := nodes[i].ClearCache()];
      ClearedByStart(g, i);
      var deps := nodes[i].Dependants();
      assert deps == ws[i];
      for k := 0 to |deps|
        invariant nodes == ClearedBy(g, ws, i, deps[..k])
      {
        ClearedByStep(g, i, deps[..k], deps[k]);
        assert i < deps[k] < |nodes|;
        InvalidateCache(deps[k]);
        assert deps[..k + 1] == deps[..k] + [deps[k]];
      }
      assert deps[..|deps|] == ws[i];
      ClearedByEnd(g, i);
      if Consistent(fo, g) {
        InvalidatedConsistent(fo, g, i);
      }
    }

    // -----------------------------------------------------------------
    // Compute with cache

    /** `compute`: a node that holds a value returns it and changes nothing;
        otherwise its fresh value is computed from its arguments, stored and
        returned.  Either way the result is the node's fresh value over the
        current inputs, and only empty caches below the node get filled. */
    method Compute(i: nat) returns (v: real)
      requires Valid() && i < |nodes|
      modifies this
      decreases i, 2
      ensures Valid() && Fills(old(nodes), nodes, i)
      ensures old(nodes[i].HasCachedValue()) ==> nodes == old(nodes) && v == old(nodes[i].GetCachedValue())
      ensures nodes[i].HasCachedValue() && nodes[i].GetCachedValue() == v
      ensures v == Eval(fo, Terms(nodes), i)
      ensures forall j: nat :: ArgReach(Terms(nodes), i, j) ==> j < |nodes| && nodes[j].HasCachedValue()
    {
      var hit := HasCachedValue(i);
      if hit {
        v := GetCachedValue(i);
        FillsRefl(nodes, i);
      } else {
        v := ComputeFull(i);
        ghost var before := nodes;
        SetCachedValue(i, v);
        FillsFinish(old(nodes), before, i, v);
      }
      forall j: nat | ArgReach(Terms(nodes), i, j)
        ensures j < |nodes| && nodes[j].HasCachedValue()
      {
        CachedClosed(nodes, i, j);
      }
    }

    /** `compute_full`: the fresh value of node `i` from the values its
        arguments compute to; the node's own record is not touched. */
    method ComputeFull(i: nat) returns (v: real)
      requires Valid() && i < |nodes|
      modifies this
      decreases i, 1
      ensures Valid() && Fills(old(nodes), nodes, i) && nodes[i] == old(nodes[i])
      ensures forall a :: a in nodes[i].Args() ==> a < |nodes| && nodes[a].HasCachedValue()
      ensures v == Eval(fo, Terms(nodes), i)
    {
      match nodes[i]
      case Input(value, _) =>
        v := value;
      case Operator(op, _) =>
        match op
        case Add =>
          v := AddComputeFull(i);
        case Mul =>
          v := MulComputeFull(i);
        case Pow(_) =>
          v := PowComputeFull(i);
        case Sin =>
          v := SinComputeFull(i);
    }

    // -----------------------------------------------------------------
    // Input

    /** `Input::new`: a fresh leaf holding 0 with no dependants. */
    method NewInput() returns (x: nat)
      requires Valid()
      modifies this
      ensures Valid() && x == |old(nodes)|
      ensures nodes == old(nodes) + [Input(0.0, [])]
    {
      x := |nodes|;
      nodes := nodes + [Input(0.0, [])];
      AttachInput(old(nodes), 0.0);
      AttachConsistent(fo, old(nodes), InputTerm(0.0));
    }

    /** `Input::set`: stores the new value, then invalidates everything that
        depends on the input, directly or not; every other node keeps its
        cache. */
    method Set(x: nat, v: real)
      requires Valid() && x < |nodes| && nodes[x].Input?
      modifies this
      ensures Valid()
      ensures nodes == Invalidated(old(nodes)[x := old(nodes[x]).(value := v)], x)
    {
      nodes := nodes[x := nodes[x].(value := v)];
      assert Wiring(nodes) == Wiring(old(nodes));
      InvalidateCache(x);
      SetConsistent(fo, old(nodes), x, v);
    }

    // -----------------------------------------------------------------
    // Operators

    /** `Add::new`: a node over `[left, right]` with an empty cache, entered
        once in the dependants of `left` and then once in those of `right`
        (twice in the same list when `left == right`). */
    method NewAdd(left: nat, right: nat) returns (n: nat)
      requires Valid() && left < |nodes| && right < |nodes|
      modifies this
      ensures Valid() && n == |old(nodes)|
      ensures nodes == Attach(old(nodes), OpTerm(Add, [left, right]))
      ensures nodes[n] == Operator(Add, Expression([left, right], None, []))
    {
      n := NewBinary(Add, left, right);
    }

    /** `Mul::new`: as `Add::new`, for a product. */
    method NewMul(left: nat, right: nat) returns (n: nat)
      requires Valid() && left < |nodes| && right < |nodes|
      modifies this
      ensures Valid() && n == |old(nodes)|
      ensures nodes == Attach(old(nodes), OpTerm(Mul, [left, right]))
      ensures nodes[n] == Operator(Mul, Expression([left, right], None, []))
    {
      n := NewBinary(Mul, left, right);
    }

    /** The construction `Add::new` and `Mul::new` share. */
    method NewBinary(op: Op, left: nat, right: nat) returns (n: nat)
      requires Valid() && left < |nodes| && right < |nodes| && Arity(op) == 2
      modifies this
      ensures Valid() && n == |old(nodes)|
      ensures nodes == Attach(old(nodes), OpTerm(op, [left, right]))
    {
      n := |nodes|;
      nodes := nodes + [Operator(op, Expression([left, right], None, []))];
      AddDependant(left, n);
      AddDependant(right, n);
      AttachBinary(old(nodes), op, left, right);
      AttachConsistent(fo, old(nodes), OpTerm(op, [left, right]));
    }

    /** `Pow::new`: a node over `[arg]` with exponent `exp`, entered once in
        the dependants of `arg`. */
    method NewPow(arg: nat, exp: real) returns (n: nat)
      requires Valid() && arg < |nodes|
      modifies this
      ensures Valid() && n == |old(nodes)|
      ensures nodes == Attach(old(nodes), OpTerm(Pow(exp), [arg]))
      ensures nodes[n] == Operator(Pow(exp), Expression([arg], None, []))
    {
      n := NewUnary(Pow(exp), arg);
    }

    /** `Sin::new`: a node over `[arg]`, entered once in the dependants of `arg`. */
    method NewSin(arg: nat) returns (n: nat)
      requires Valid() && arg < |nodes|
      modifies this
      ensures Valid() && n == |old(nodes)|
      ensures nodes == Attach(old(nodes), OpTerm(Sin, [arg]))
      ensures nodes[n] == Operator(Sin, Expression([arg], None, []))
    {
      n := NewUnary(Sin, arg);
    }

    /** The construction `Pow::new` and `Sin::new` share. */
    method NewUnary(op: Op, arg: nat) returns (n: nat)
      requires Valid() && arg < |nodes| && Arity(op) == 1
      modifies this
      ensures Valid() && n == |old(nodes)|
      ensures nodes == Attach(old(nodes), OpTerm(op, [arg]))
    {
      n := |nodes|;
      nodes := nodes + [Operator(op, Expression([arg], None, []))];
      AddDependant(arg, n);
      AttachUnary(old(nodes), op, arg);
      AttachConsistent(fo, old(nodes), OpTerm(op, [arg]));
    }

    /** `Add::compute_full`: computes the arguments left to right and folds
        their values with `+` from 0. */
    method AddComputeFull(i: nat) returns (v: real)
      requires Valid() && i < |nodes| && nodes[i].Operator? && nodes[i].op == Add
      modifies this
      decreases i, 0
      ensures Valid() && Fills(old(nodes), nodes, i) && nodes[i] == old(nodes[i])
      ensures forall a :: a in nodes[i].Args() ==> a < |nodes| && nodes[a].HasCachedValue()
      ensures v == Sum(ArgValues(fo, Terms(nodes), i))
    {
      var args := nodes[i].expr.args;
      ghost var vals := ArgValues(fo, Terms(nodes), i);
      ArgsBelow(nodes, i);
      v := 0.0;
      for k := 0 to |args|
        invariant Valid() && Fills(old(nodes), nodes, i) && nodes[i] == old(nodes[i])
        invariant forall m :: 0 <= m < k ==> nodes[args[m]].HasCachedValue()
        invariant v == Sum(vals[..k])
      {
        ghost var mid := nodes;
        var a := Compute(args[k]);
        FillsStep(old(nodes), mid, nodes, i, k);
        forall m | 0 <= m < k ensures nodes[args[m]].HasCachedValue() {
          assert FillsAt(mid, nodes, args[k], args[m]);
        }
        assert vals[..k + 1][..k] == vals[..k];
        v := v + a;
      }
      assert vals[..|args|] == vals;
    }

    /** `Mul::compute_full`: computes the arguments left to right and folds
        their values with `*` from 1. */
    method MulComputeFull(i: nat) returns (v: real)
      requires Valid() && i < |nodes| && nodes[i].Operator? && nodes[i].op == Mul
      modifies this
      decreases i, 0
      ensures Valid() && Fills(old(nodes), nodes, i) && nodes[i] == old(nodes[i])
      ensures forall a :: a in nodes[i].Args() ==> a < |nodes| && nodes[a].HasCachedValue()
      ensures v == Product(ArgValues(fo, Terms(nodes), i))
    {
      var args := nodes[i].expr.args;
      ghost var vals := ArgValues(fo, Terms(nodes), i);
      ArgsBelow(nodes, i);
      v := 1.0;
      for k := 0 to |args|
        invariant Valid() && Fills(old(nodes), nodes, i) && nodes[i] == old(nodes[i])
        invariant forall m :: 0 <= m < k ==> nodes[args[m]].HasCachedValue()
        invariant v == Product(vals[..k])
      {
        ghost var mid := nodes;
        var a := Compute(args[k]);
        FillsStep(old(nodes), mid, nodes, i, k);
        forall m | 0 <= m < k ensures nodes[args[m]].HasCachedValue() {
          assert FillsAt(mid, nodes, args[k], args[m]);
        }
        assert vals[..k + 1][..k] == vals[..k];
        v := v * a;
      }
      assert vals[..|args|] == vals;
    }

    /** `Pow::compute_full`: `powf` of the value its single argument
        computes to, with the node's fixed exponent. */
    method PowComputeFull(i: nat) returns (v: real)
      requires Valid() && i < |nodes| && nodes[i].Operator? && nodes[i].op.Pow?
      modifies this
      decreases i, 0
      ensures Valid() && Fills(old(nodes), nodes, i) && nodes[i] == old(nodes[i])
      ensures |nodes[i].Args()| == 1 && nodes[i].Args()[0] < |nodes| && nodes[nodes[i].Args()[0]].HasCachedValue()
      ensures v == fo.powf(Eval(fo, Terms(nodes), nodes[i].Args()[0]), nodes[i].op.exp)
    {
      var args := nodes[i].expr.args;
      ArgsBelow(nodes, i);
      assert |args| == 1;
      ghost var mid := nodes;
      var a := Compute(args[0]);
      FillsStep(old(nodes), mid, nodes, i, 0);
      v := fo.powf(a, nodes[i].op.exp);
    }

    /** `Sin::compute_full`: `sin` of the value its single argument computes to. */
    method SinComputeFull(i: nat) returns (v: real)
      requires Valid() && i < |nodes| && nodes[i].Operator? && nodes[i].op == Sin
      modifies this
      decreases i, 0
      ensures Valid() && Fills(old(nodes), nodes, i) && nodes[i] == old(nodes[i])
      ensures |nodes[i].Args()| == 1 && nodes[i].Args()[0] < |nodes| && nodes[nodes[i].Args()[0]].HasCachedValue()
      ensures v == fo.sin(Eval(fo, Terms(nodes), nodes[i].Args()[0]))
    {
      var args := nodes[i].expr.args;
      ArgsBelow(nodes, i);
      assert |args| == 1;
      ghost var mid := nodes;
      var a := Compute(args[0]);
      FillsStep(old(nodes), mid, nodes, i, 0);
      v := fo.sin(a);
    }
  }
}
