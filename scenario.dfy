/** The cache walk-through of the crate's own example: the graph
    y = x1 + x2 * sin(x2 + pow(x3, 3)) built node by node, then a sequence of
    `set` and `compute` calls, with the cache state of every operator node
    observed in between. */
module Scenario {
  import opened Expressions
  import opened Ops
  import opened Semantics
  import opened Graph

  // Arena positions: x1 = 0, x2 = 1, x3 = 2, pow = 3, add = 4, sin = 5,
  // mul = 6, root = 7.

  /** The arena right after the example graph is built. */
  function Built(): seq<Node> {
    [ Input(0.0, [7]), Input(0.0, [4, 6]), Input(0.0, [3]),
      Operator(Pow(3.0), Expression([2], None, [4])),
      Operator(Add, Expression([1, 3], None, [5])),
      Operator(Sin, Expression([4], None, [6])),
      Operator(Mul, Expression([1, 5], None, [7])),
      Operator(Add, Expression([0, 6], None, [])) ]
  }

  function BuiltWiring(): seq<seq<nat>> {
    [[7], [4, 6], [3], [4], [5], [6], [7], []]
  }

  /** The example graph's terms under input values `v1`, `v2`, `v3`. */
  function ExampleTerms(v1: real, v2: real, v3: real): seq<Term> {
    [ InputTerm(v1), InputTerm(v2), InputTerm(v3),
      OpTerm(Pow(3.0), [2]), OpTerm(Add, [1, 3]), OpTerm(Sin, [4]),
      OpTerm(Mul, [1, 5]), OpTerm(Add, [0, 6]) ]
  }

  /** The formula the example graph is built from. */
  function Formula(fo: FloatOps, x1: real, x2: real, x3: real): real {
    x1 + x2 * fo.sin(x2 + fo.powf(x3, 3.0))
  }

  /** Every argument of the example precedes its node, and each operator
      has its arity. */
  lemma ExampleWellFormed(v1: real, v2: real, v3: real)
    ensures WellFormed(ExampleTerms(v1, v2, v3))
  {
  }

  /** The root evaluates to the formula the graph was built from. */
  lemma ExampleEval(fo: FloatOps, v1: real, v2: real, v3: real)
    ensures WellFormed(ExampleTerms(v1, v2, v3))
    ensures Eval(fo, ExampleTerms(v1, v2, v3), 7) == Formula(fo, v1, v2, v3)
  {
    var ts := ExampleTerms(v1, v2, v3);
    ExampleWellFormed(v1, v2, v3);
    ArgValuesSingle(fo, ts, 3);
    var p := Eval(fo, ts, 3);
    ArgValuesPair(fo, ts, 4);
    SumPair(v2, p);
    var s := Eval(fo, ts, 4);
    ArgValuesSingle(fo, ts, 5);
    var n := Eval(fo, ts, 5);
    ArgValuesPair(fo, ts, 6);
    ProductPair(v2, n);
    var m := Eval(fo, ts, 6);
    ArgValuesPair(fo, ts, 7);
    SumPair(v1, m);
  }

  /** Above a node with a single dependant `d` lies the node itself and
      whatever lies above `d`. */
  lemma SingleDependant(ws: seq<seq<nat>>, x: nat, d: nat, j: nat)
    requires x < d < |ws| && ws[x] == [d]
    ensures DepReach(ws, x, j) <==> j == x || DepReach(ws, d, j)
  {
    if DepReach(ws, d, j) && j != x {
      assert 0 <= 0 < |ws[x]| && x < ws[x][0] < |ws| && DepReach(ws, ws[x][0], j);
    }
  }

  lemma ReachFromRoot(j: nat)
    ensures DepReach(BuiltWiring(), 7, j) <==> j == 7
  {
    assert BuiltWiring()[7] == [];
  }

  lemma {:induction false} ReachFromAdd(j: nat)
    ensures DepReach(BuiltWiring(), 4, j) <==> 4 <= j <= 7
  {
    var ws := BuiltWiring();
    ReachFromRoot(j);
    SingleDependant(ws, 6, 7, j);
    SingleDependant(ws, 5, 6, j);
    SingleDependant(ws, 4, 5, j);
  }

  /** Setting x1 reaches only x1 itself and the root. */
  lemma {:induction false} ReachFromX1(j: nat)
    ensures DepReach(BuiltWiring(), 0, j) <==> j == 0 || j == 7
  {
    ReachFromRoot(j);
    SingleDependant(BuiltWiring(), 0, 7, j);
  }

  /** Setting x2 reaches everything but x1, x3 and pow. */
  lemma {:induction false} ReachFromX2(j: nat)
    ensures DepReach(BuiltWiring(), 1, j) <==> j == 1 || 4 <= j <= 7
  {
    var ws := BuiltWiring();
    assert ws[1] == [4, 6];
    ReachFromAdd(j);
    ReachFromRoot(j);
    SingleDependant(ws, 6, 7, j);
    if 4 <= j <= 7 {
      assert 0 <= 0 < |ws[1]| && 1 < ws[1][0] < |ws| && DepReach(ws, ws[1][0], j);
    }
    if DepReach(ws, 1, j) && j != 1 {
      var m :| 0 <= m < |ws[1]| && 1 < ws[1][m] < |ws| && DepReach(ws, ws[1][m], j);
      assert ws[1][m] == 4 || ws[1][m] == 6;
    }
  }

  /** Assigning an input's value changes only that input's term. */
  lemma SetTerms(g: seq<Node>, x: nat, v: real)
    requires x < |g| && g[x].Input?
    ensures Terms(g[x := g[x].(value := v)]) == Terms(g)[x := InputTerm(v)]
    ensures Wiring(g[x := g[x].(value := v)]) == Wiring(g)
  {
  }

  /** The arena after each construction of the example: the three
      inputs, then pow, add, sin and mul; `Built` follows with the root. */
  function Inputs(): seq<Node> {
    [Input(0.0, []), Input(0.0, []), Input(0.0, [])]
  }

  function WithPow(): seq<Node> {
    [Input(0.0, []), Input(0.0, []), Input(0.0, [3]),
      Operator(Pow(3.0), Expression([2], None, []))]
  }

  function WithAdd(): seq<Node> {
    [Input(0.0, []), Input(0.0, [4]), Input(0.0, [3]),
      Operator(Pow(3.0), Expression([2], None, [4])),
      Operator(Add, Expression([1, 3], None, []))]
  }

  function WithSin(): seq<Node> {
    [Input(0.0, []), Input(0.0, [4]), Input(0.0, [3]),
      Operator(Pow(3.0), Expression([2], None, [4])),
      Operator(Add, Expression([1, 3], None, [5])),
      Operator(Sin, Expression([4], None, []))]
  }

  function WithMul(): seq<Node> {
    [Input(0.0, []), Input(0.0, [4, 6]), Input(0.0, [3]),
      Operator(Pow(3.0), Expression([2], None, [4])),
      Operator(Add, Expression([1, 3], None, [5])),
      Operator(Sin, Expression([4], None, [6])),
      Operator(Mul, Expression([1, 5], None, []))]
  }

  lemma BuildPow()
    ensures Attach(Inputs(), OpTerm(Pow(3.0), [2])) == WithPow()
  {
    var g := Inputs();
    AttachUnary(g, Pow(3.0), 2);
    var g1 := g + [NewNode(OpTerm(Pow(3.0), [2]))];
    assert g1[2].AddDependant(3) == WithPow()[2];
    assert g1[2 := g1[2].AddDependant(3)] == WithPow();
  }

  lemma BuildAdd()
    ensures Attach(WithPow(), OpTerm(Add, [1, 3])) == WithAdd()
  {
    var g := WithPow();
    AttachBinary(g, Add, 1, 3);
    var g1 := g + [NewNode(OpTerm(Add, [1, 3]))];
    var g2 := g1[1 := g1[1].AddDependant(4)];
    assert g2[1] == WithAdd()[1];
    assert g2[3].AddDependant(4) == WithAdd()[3];
    assert g2[3 := g2[3].AddDependant(4)] == WithAdd();
  }

  lemma BuildSin()
    ensures Attach(WithAdd(), OpTerm(Sin, [4])) == WithSin()
  {
    var g := WithAdd();
    AttachUnary(g, Sin, 4);
    var g1 := g + [NewNode(OpTerm(Sin, [4]))];
    assert g1[4].AddDependant(5) == WithSin()[4];
    assert g1[4 := g1[4].AddDependant(5)] == WithSin();
  }

  lemma BuildMul()
    ensures Attach(WithSin(), OpTerm(Mul, [1, 5])) == WithMul()
  {
    var g := WithSin();
    AttachBinary(g, Mul, 1, 5);
    var g1 := g + [NewNode(OpTerm(Mul, [1, 5]))];
    var g2 := g1[1 := g1[1].AddDependant(6)];
    assert [4] + [6] == [4, 6];
    assert g2[1] == WithMul()[1];
    assert g2[5].AddDependant(6) == WithMul()[5];
    assert g2[5 := g2[5].AddDependant(6)] == WithMul();
  }

  lemma BuildRoot()
    ensures Attach(WithMul(), OpTerm(Add, [0, 6])) == Built()
  {
    var g := WithMul();
    AttachBinary(g, Add, 0, 6);
    var g1 := g + [NewNode(OpTerm(Add, [0, 6]))];
    var g2 := g1[0 := g1[0].AddDependant(7)];
    assert g2[0] == Built()[0];
    assert g2[6].AddDependant(7) == Built()[6];
    assert g2[6 := g2[6].AddDependant(7)] == Built();
  }

  /** `Input::new` three times, as the example starts. */
  method BuildInputs(fo: FloatOps) returns (a: Arena)
    ensures fresh(a) && a.Valid() && a.fo == fo && a.nodes == Inputs()
  {
    a := new Arena(fo);
    var x1 := a.NewInput();
    var x2 := a.NewInput();
    var x3 := a.NewInput();
  }

  /** The example graph over three fresh inputs, its operators built from
      the inside out. */
  method Build(fo: FloatOps) returns (a: Arena)
    ensures fresh(a) && a.Valid() && a.fo == fo && a.nodes == Built()
  {
    a := BuildInputs(fo);
    BuildPow();
    var pow := a.NewPow(2, 3.0);
    BuildAdd();
    var add := a.NewAdd(1, pow);
    BuildSin();
    var sin := a.NewSin(add);
    BuildMul();
    var mul := a.NewMul(1, sin);
    BuildRoot();
    var root := a.NewAdd(0, mul);
  }

  /** The cache state of pow, add, sin, mul and the root, in that order. */
  method OperatorCaches(a: Arena) returns (cs: seq<bool>)
    requires |a.nodes| == 8
    ensures cs == [a.nodes[3].HasCachedValue(), a.nodes[4].HasCachedValue(), a.nodes[5].HasCachedValue(),
                   a.nodes[6].HasCachedValue(), a.nodes[7].HasCachedValue()]
  {
    var pow := a.HasCachedValue(3);
    var add := a.HasCachedValue(4);
    var sin := a.HasCachedValue(5);
    var mul := a.HasCachedValue(6);
    var root := a.HasCachedValue(7);
    cs := [pow, add, sin, mul, root];
  }

  /** After `compute` on the root every node below it holds a value. */
  lemma AllReached(v1: real, v2: real, v3: real)
    ensures forall j :: 0 <= j < 8 ==> ArgReach(ExampleTerms(v1, v2, v3), 7, j)
  {
    var ts := ExampleTerms(v1, v2, v3);
    ExampleWellFormed(v1, v2, v3);
    assert ArgReach(ts, 7, 7);
    ArgReachExtend(ts, 7, 7, 0);
    ArgReachExtend(ts, 7, 7, 1);
    ArgReachExtend(ts, 7, 6, 1);
    ArgReachExtend(ts, 7, 6, 0);
    ArgReachExtend(ts, 7, 5, 0);
    ArgReachExtend(ts, 7, 4, 1);
    ArgReachExtend(ts, 7, 3, 0);
    forall j | 0 <= j < 8 ensures ArgReach(ts, 7, j) {
      if j == 0 {
      } else if j == 1 {
      } else if j == 2 {
      } else if j == 3 {
      } else if j == 4 {
      } else if j == 5 {
      } else if j == 6 {
      }
    }
  }

  /** The arena has the example's wiring and terms, with inputs `v1`, `v2`, `v3`. */
  ghost predicate Shaped(g: seq<Node>, v1: real, v2: real, v3: real) {
    |g| == 8 && Wiring(g) == BuiltWiring() && Terms(g) == ExampleTerms(v1, v2, v3)
  }

  lemma BuiltShaped()
    ensures Shaped(Built(), 0.0, 0.0, 0.0)
    ensures forall j :: 3 <= j < 8 ==> !Built()[j].HasCachedValue()
  {
    var g := Built();
    assert Wiring(g) == BuiltWiring();
    assert Terms(g) == ExampleTerms(0.0, 0.0, 0.0);
  }

  /** Setting input `x` of the example, taking inputs `v1`, `v2`, `v3` to
      `w1`, `w2`, `w3`, and invalidating from it: the shape is kept with the
      new inputs, and an operator keeps a value exactly when it had one and
      is not above the input. */
  lemma SetShaped(g: seq<Node>, x: nat, v: real, v1: real, v2: real, v3: real, w1: real, w2: real, w3: real)
    requires x < 3 && Shaped(g, v1, v2, v3) && g[x].Input?
    requires (x == 0 || w1 == v1) && (x == 1 || w2 == v2) && (x == 2 || w3 == v3)
    requires v == if x == 0 then w1 else if x == 1 then w2 else w3
    ensures var h := Invalidated(g[x := g[x].(value := v)], x);
      && Shaped(h, w1, w2, w3)
      && forall j :: 3 <= j < 8 ==>
           (h[j].HasCachedValue() <==> g[j].HasCachedValue() && !DepReach(BuiltWiring(), x, j))
  {
    var f := g[x := g[x].(value := v)];
    SetTerms(g, x, v);
    InvalidatedWiring(f, x);
    SetExampleTerms(x, v, v1, v2, v3, w1, w2, w3);
    forall j | 3 <= j < 8
      ensures Invalidated(f, x)[j].HasCachedValue() <==> g[j].HasCachedValue() && !DepReach(BuiltWiring(), x, j)
    {
      assert Terms(g)[j].OpTerm?;
      SetCacheAt(g, x, v, j);
    }
  }

  lemma SetExampleTerms(x: nat, v: real, v1: real, v2: real, v3: real, w1: real, w2: real, w3: real)
    requires x < 3
    requires (x == 0 || w1 == v1) && (x == 1 || w2 == v2) && (x == 2 || w3 == v3)
    requires v == if x == 0 then w1 else if x == 1 then w2 else w3
    ensures ExampleTerms(v1, v2, v3)[x := InputTerm(v)] == ExampleTerms(w1, w2, w3)
  {
  }

  /** An operator of the example keeps its value across a `set` of input
      `x` exactly when it is not above `x`. */
  lemma SetCacheAt(g: seq<Node>, x: nat, v: real, j: nat)
    requires |g| == 8 && Wiring(g) == BuiltWiring() && x < 3 && g[x].Input?
    requires 3 <= j < 8 && g[j].Operator?
    ensures Invalidated(g[x := g[x].(value := v)], x)[j].HasCachedValue()
        <==> g[j].HasCachedValue() && !DepReach(BuiltWiring(), x, j)
  {
    SetTerms(g, x, v);
  }

  /** `set` on input `x` of the example, as `SetShaped` describes. */
  method SetInput(a: Arena, x: nat, v1: real, v2: real, v3: real, w1: real, w2: real, w3: real)
    requires a.Valid() && x < 3 && Shaped(a.nodes, v1, v2, v3)
    requires (x == 0 || w1 == v1) && (x == 1 || w2 == v2) && (x == 2 || w3 == v3)
    modifies a
    ensures a.Valid() && Shaped(a.nodes, w1, w2, w3)
    ensures forall j :: 3 <= j < 8 ==>
      (a.nodes[j].HasCachedValue() <==> old(a.nodes[j].HasCachedValue()) && !DepReach(BuiltWiring(), x, j))
  {
    var v := if x == 0 then w1 else if x == 1 then w2 else w3;
    assert Terms(a.nodes)[x].InputTerm?;
    SetShaped(a.nodes, x, v, v1, v2, v3, w1, w2, w3);
    a.Set(x, v);
  }

  /** `compute` on the example's root: the value is the example's formula
      over the current inputs and every node then holds a value; on a root
      that already held one nothing changes. */
  method ComputeRoot(a: Arena, v1: real, v2: real, v3: real) returns (y: real)
    requires a.Valid() && Shaped(a.nodes, v1, v2, v3)
    modifies a
    ensures a.Valid() && Shaped(a.nodes, v1, v2, v3)
    ensures y == Formula(a.fo, v1, v2, v3)
    ensures forall j :: 0 <= j < 8 ==> a.nodes[j].HasCachedValue()
    ensures old(a.nodes[7].HasCachedValue()) ==> a.nodes == old(a.nodes) && y == old(a.nodes[7].GetCachedValue())
  {
    y := a.Compute(7);
    ExampleEval(a.fo, v1, v2, v3);
    AllReached(v1, v2, v3);
  }

  /** The example's cache walk-through: nothing is cached once built; one
      `compute` of the root fills every operator; setting x1 empties only
      the root; `compute` then fills it again, and a second `compute` with
      nothing set in between returns the same value and changes nothing; setting x2 leaves only pow cached.
      Each value computed is the formula over the inputs set so far. */
  method CacheWalkthrough(fo: FloatOps)
    returns (built: seq<bool>, y1: real, first: seq<bool>, afterX1: seq<bool>,
             y2: real, refilled: seq<bool>, again: real, afterX2: seq<bool>, y3: real)
    ensures built == [false, false, false, false, false]
    ensures y1 == Formula(fo, 1.0, 2.0, 3.0)
    ensures first == [true, true, true, true, true]
    ensures afterX1 == [true, true, true, true, false]
    ensures y2 == Formula(fo, 2.0, 2.0, 3.0) && again == y2
    ensures refilled == [true, true, true, true, true]
    ensures afterX2 == [true, false, false, false, false]
    ensures y3 == Formula(fo, 2.0, 6.0, 3.0)
  {
    var a := Build(fo);
    BuiltShaped();
    built := OperatorCaches(a);

    SetInput(a, 0, 0.0, 0.0, 0.0, 1.0, 0.0, 0.0);
    SetInput(a, 1, 1.0, 0.0, 0.0, 1.0, 2.0, 0.0);
    SetInput(a, 2, 1.0, 2.0, 0.0, 1.0, 2.0, 3.0);
    y1 := ComputeRoot(a, 1.0, 2.0, 3.0);
    first := OperatorCaches(a);

    SetInput(a, 0, 1.0, 2.0, 3.0, 2.0, 2.0, 3.0);
    ReachFromX1(3); ReachFromX1(4); ReachFromX1(5); ReachFromX1(6); ReachFromX1(7);
    afterX1 := OperatorCaches(a);

    y2 := ComputeRoot(a, 2.0, 2.0, 3.0);
    refilled := OperatorCaches(a);
    again := ComputeRoot(a, 2.0, 2.0, 3.0);

    SetInput(a, 1, 2.0, 2.0, 3.0, 2.0, 6.0, 3.0);
    ReachFromX2(3); ReachFromX2(4); ReachFromX2(5); ReachFromX2(6); ReachFromX2(7);
    afterX2 := OperatorCaches(a);

    y3 := ComputeRoot(a, 2.0, 6.0, 3.0);
  }
}
