/** The meaning of a graph: the fresh evaluation of a node, the two
    reachability relations (down the argument edges, up the dependant
    edges), the invariants every public operation keeps, and what an
    invalidation and a construction do to a whole arena. */
module Semantics {
  import opened Expressions
  import opened Ops

  /** The arena with caches and dependants erased. */
  function Terms(g: seq<Node>): seq<Term> {
    seq(|g|, j requires 0 <= j < |g| => g[j].ToTerm())
  }

  /** The dependant lists of the arena, node by node. */
  function Wiring(g: seq<Node>): seq<seq<nat>> {
    seq(|g|, j requires 0 <= j < |g| => g[j].Dependants())
  }

  /** Every argument was built before the node that uses it, and every
      operator has the number of arguments its constructor gives it. */
  ghost predicate WellFormed(ts: seq<Term>) {
    && (forall j, m :: 0 <= j < |ts| && ts[j].OpTerm? && 0 <= m < |ts[j].args| ==> ts[j].args[m] < j)
    && (forall j :: 0 <= j < |ts| && ts[j].OpTerm? ==> |ts[j].args| == Arity(ts[j].op))
  }

  /** Fresh recursive evaluation of node `i` over the current input values. */
  ghost function Eval(fo: FloatOps, ts: seq<Term>, i: nat): real
    requires WellFormed(ts) && i < |ts|
    decreases i, 1
  {
    match ts[i]
    case InputTerm(v) => v
    case OpTerm(op, args) => Apply(fo, op, ArgValues(fo, ts, i))
  }

  /** The fresh values of the arguments of operator `i`, in order. */
  ghost function ArgValues(fo: FloatOps, ts: seq<Term>, i: nat): seq<real>
    requires WellFormed(ts) && i < |ts| && ts[i].OpTerm?
    decreases i, 0
  {
    seq(|ts[i].args|, m requires 0 <= m < |ts[i].args| => Eval(fo, ts, ts[i].args[m]))
  }

  /** `j` is `i` or lies below it along argument edges. */
  ghost predicate ArgReach(ts: seq<Term>, i: nat, j: nat)
    decreases i
  {
    || i == j
    || (&& i < |ts| && ts[i].OpTerm?
        && exists m :: 0 <= m < |ts[i].args| && ts[i].args[m] < i && ArgReach(ts, ts[i].args[m], j))
  }

  /** `j` is `i` or lies above it along dependant edges. */
  ghost predicate DepReach(ws: seq<seq<nat>>, i: nat, j: nat)
    decreases |ws| - i
  {
    || i == j
    || (&& i < |ws|
        && exists m :: 0 <= m < |ws[i]| && i < ws[i][m] < |ws| && DepReach(ws, ws[i][m], j))
  }

  /** Every dependant was built after the node it depends on. */
  ghost predicate Upward(ws: seq<seq<nat>>) {
    forall a, m :: 0 <= a < |ws| && 0 <= m < |ws[a]| ==> a < ws[a][m] < |ws|
  }

  /** The dependant lists are the transpose of the argument lists, counted
      with multiplicity: `d` appears in the dependants of `a` exactly as
      often as `a` appears among the arguments of `d`. */
  ghost predicate Transposed(g: seq<Node>) {
    forall a, d :: 0 <= a < |g| && 0 <= d < |g| ==> LinkedAt(g, a, d)
  }

  ghost predicate LinkedAt(g: seq<Node>, a: nat, d: nat)
    requires a < |g| && d < |g|
  {
    multiset(g[a].Dependants())[d] == multiset(g[d].Args())[a]
  }

  ghost predicate Wired(g: seq<Node>) {
    WellFormed(Terms(g)) && Upward(Wiring(g)) && Transposed(g)
  }

  /** A node that holds a value has all its arguments holding values. */
  ghost predicate ArgsCached(g: seq<Node>) {
    forall j :: 0 <= j < |g| ==> ArgsCachedAt(g, j)
  }

  ghost predicate ArgsCachedAt(g: seq<Node>, j: nat)
    requires j < |g|
  {
    g[j].HasCachedValue() ==> forall a :: a in g[j].Args() ==> a < |g| && g[a].HasCachedValue()
  }

  /** Every value held equals the fresh evaluation of its node. */
  ghost predicate CacheCorrect(fo: FloatOps, g: seq<Node>)
    requires WellFormed(Terms(g))
  {
    forall j :: 0 <= j < |g| ==> CorrectAt(fo, g, j)
  }

  ghost predicate CorrectAt(fo: FloatOps, g: seq<Node>, j: nat)
    requires WellFormed(Terms(g)) && j < |g|
  {
    g[j].HasCachedValue() ==> g[j].GetCachedValue() == Eval(fo, Terms(g), j)
  }

  /** The invariant of an arena between public operations. */
  ghost predicate Consistent(fo: FloatOps, g: seq<Node>) {
    Wired(g) && ArgsCached(g) && CacheCorrect(fo, g)
  }

  /** The arena after invalidating from `x`: every node reachable from `x`
      through dependant edges loses its cached value, every other node is
      left as it was. */
  ghost function Invalidated(g: seq<Node>, x: nat): seq<Node> {
    seq(|g|, j requires 0 <= j < |g| => if DepReach(Wiring(g), x, j) then g[j].ClearCache() else g[j])
  }

  /** `c` copies of `x`. */
  function Repeat(x: nat, c: nat): (r: seq<nat>)
    ensures |r| == c
    ensures forall k :: 0 <= k < c ==> r[k] == x
  {
    if c == 0 then [] else [x] + Repeat(x, c - 1)
  }

  /** The arena after a constructor adds a node computing `t`: the new node
      goes at the end, and the end index is appended to the dependants of
      each argument once per occurrence of that argument. */
  ghost function Attach(g: seq<Node>, t: Term): seq<Node> {
    seq(|g| + 1, j requires 0 <= j <= |g| =>
      if j == |g| then NewNode(t)
      else g[j].WithDependants(g[j].Dependants() + Repeat(|g|, multiset(t.Args())[j])))
  }

  /** `h` is `g` with some empty caches filled in, all of them among the
      nodes reachable from `i` through argument edges. */
  ghost predicate Fills(g: seq<Node>, h: seq<Node>, i: nat) {
    && |h| == |g| && Terms(h) == Terms(g) && Wiring(h) == Wiring(g)
    && (forall j :: 0 <= j < |g| ==> FillsAt(g, h, i, j))
  }

  ghost predicate FillsAt(g: seq<Node>, h: seq<Node>, i: nat, j: nat)
    requires j < |g| && j < |h|
  {
    g[j].HasCachedValue() || !ArgReach(Terms(g), i, j) ==> h[j] == g[j]
  }

  /** The arena part-way through `invalidate_cache` of `i`: `i` itself and
      everything above the dependants in `xs` cleared, the rest untouched. */
  ghost function ClearedBy(g: seq<Node>, ws: seq<seq<nat>>, i: nat, xs: seq<nat>): seq<Node> {
    seq(|g|, j requires 0 <= j < |g| =>
      if j == i || exists m :: 0 <= m < |xs| && DepReach(ws, xs[m], j) then g[j].ClearCache() else g[j])
  }

  // ---------------------------------------------------------------------
  // Reachability

  lemma {:induction false} ArgReachBelow(ts: seq<Term>, i: nat, j: nat)
    requires ArgReach(ts, i, j)
    ensures j <= i
    decreases i
  {
    if i != j {
      var m :| 0 <= m < |ts[i].args| && ts[i].args[m] < i && ArgReach(ts, ts[i].args[m], j);
      ArgReachBelow(ts, ts[i].args[m], j);
    }
  }

  /** Reaching `d` and then stepping to one of its arguments reaches that argument. */
  lemma {:induction false} ArgReachExtend(ts: seq<Term>, j: nat, d: nat, m: nat)
    requires WellFormed(ts) && d < |ts| && ts[d].OpTerm? && m < |ts[d].args|
    requires ArgReach(ts, j, d)
    ensures ArgReach(ts, j, ts[d].args[m])
    decreases j
  {
    if j == d {
      assert ArgReach(ts, ts[d].args[m], ts[d].args[m]);
    } else {
      var k :| 0 <= k < |ts[j].args| && ts[j].args[k] < j && ArgReach(ts, ts[j].args[k], d);
      ArgReachExtend(ts, ts[j].args[k], d, m);
    }
  }

  /** Reaching `a` and then stepping to one of its dependants reaches that dependant. */
  lemma {:induction false} DepReachExtend(ws: seq<seq<nat>>, x: nat, a: nat, m: nat)
    requires Upward(ws) && a < |ws| && m < |ws[a]|
    requires DepReach(ws, x, a)
    ensures DepReach(ws, x, ws[a][m])
    decreases |ws| - x
  {
    if x == a {
      assert DepReach(ws, ws[a][m], ws[a][m]);
    } else {
      var k :| 0 <= k < |ws[x]| && x < ws[x][k] < |ws| && DepReach(ws, ws[x][k], a);
      DepReachExtend(ws, ws[x][k], a, m);
    }
  }

  lemma ArgIsDependant(g: seq<Node>, a: nat, d: nat)
    requires Transposed(g) && a < |g| && d < |g| && a in g[d].Args()
    ensures d in g[a].Dependants()
  {
    assert LinkedAt(g, a, d);
    assert multiset(g[d].Args())[a] > 0;
  }

  lemma DependantHasArg(g: seq<Node>, a: nat, d: nat)
    requires Transposed(g) && a < |g| && d < |g| && d in g[a].Dependants()
    ensures a in g[d].Args()
  {
    assert LinkedAt(g, a, d);
    assert multiset(g[a].Dependants())[d] > 0;
  }

  lemma {:induction false} ArgReachIsDepReach(g: seq<Node>, j: nat, x: nat)
    requires Wired(g) && j < |g|
    requires ArgReach(Terms(g), j, x)
    ensures DepReach(Wiring(g), x, j)
    decreases j
  {
    var ts, ws := Terms(g), Wiring(g);
    if j != x {
      var m :| 0 <= m < |ts[j].args| && ts[j].args[m] < j && ArgReach(ts, ts[j].args[m], x);
      var a := ts[j].args[m];
      ArgReachIsDepReach(g, a, x);
      assert a in g[j].Args();
      ArgIsDependant(g, a, j);
      var k :| 0 <= k < |ws[a]| && ws[a][k] == j;
      DepReachExtend(ws, x, a, k);
    }
  }

  lemma {:induction false} DepReachIsArgReach(g: seq<Node>, x: nat, j: nat)
    requires Wired(g) && x < |g| && j < |g|
    requires DepReach(Wiring(g), x, j)
    ensures ArgReach(Terms(g), j, x)
    decreases |g| - x
  {
    var ts, ws := Terms(g), Wiring(g);
    if x != j {
      var m :| 0 <= m < |ws[x]| && x < ws[x][m] < |ws| && DepReach(ws, ws[x][m], j);
      var d := ws[x][m];
      DepReachIsArgReach(g, d, j);
      DependantHasArg(g, x, d);
      var k :| 0 <= k < |ts[d].args| && ts[d].args[k] == x;
      ArgReachExtend(ts, j, d, k);
    }
  }

  /** The dependant relation is the transpose of the argument relation:
      `j` depends on `x`, directly or not, exactly when `x` feeds `j`. */
  lemma ReachTranspose(g: seq<Node>, x: nat, j: nat)
    requires Wired(g) && x < |g| && j < |g|
    ensures ArgReach(Terms(g), j, x) <==> DepReach(Wiring(g), x, j)
  {
    if ArgReach(Terms(g), j, x) { ArgReachIsDepReach(g, j, x); }
    if DepReach(Wiring(g), x, j) { DepReachIsArgReach(g, x, j); }
  }

  // ---------------------------------------------------------------------
  // Evaluation

  /** The argument values of a one-argument operator. */
  lemma ArgValuesSingle(fo: FloatOps, ts: seq<Term>, i: nat)
    requires WellFormed(ts) && i < |ts| && ts[i].OpTerm? && |ts[i].args| == 1
    ensures ArgValues(fo, ts, i) == [Eval(fo, ts, ts[i].args[0])]
  {
  }

  /** The argument values of a two-argument operator. */
  lemma ArgValuesPair(fo: FloatOps, ts: seq<Term>, i: nat)
    requires WellFormed(ts) && i < |ts| && ts[i].OpTerm? && |ts[i].args| == 2
    ensures ArgValues(fo, ts, i) == [Eval(fo, ts, ts[i].args[0]), Eval(fo, ts, ts[i].args[1])]
  {
  }

  /** A node's fresh value depends only on the nodes below it: two arenas
      that agree there evaluate it alike. */
  lemma {:induction false} EvalLocal(fo: FloatOps, ts: seq<Term>, us: seq<Term>, i: nat)
    requires WellFormed(ts) && WellFormed(us) && i < |ts| && i < |us|
    requires forall k :: 0 <= k < |ts| && ArgReach(ts, i, k) ==> k < |us| && us[k] == ts[k]
    ensures Eval(fo, ts, i) == Eval(fo, us, i)
    decreases i
  {
    assert ArgReach(ts, i, i);
    if ts[i].OpTerm? {
      var args := ts[i].args;
      forall m | 0 <= m < |args|
        ensures Eval(fo, ts, args[m]) == Eval(fo, us, args[m])
      {
        forall k | 0 <= k < |ts| && ArgReach(ts, args[m], k)
          ensures ArgReach(ts, i, k)
        {
        }
        EvalLocal(fo, ts, us, args[m]);
      }
      assert ArgValues(fo, ts, i) == ArgValues(fo, us, i);
    }
  }

  /** A node holding a value has every node below it holding one. */
  lemma {:induction false} CachedClosed(g: seq<Node>, i: nat, j: nat)
    requires Wired(g) && ArgsCached(g) && i < |g| && g[i].HasCachedValue()
    requires ArgReach(Terms(g), i, j)
    ensures j < |g| && g[j].HasCachedValue()
    decreases i
  {
    var ts := Terms(g);
    if i != j {
      var m :| 0 <= m < |ts[i].args| && ts[i].args[m] < i && ArgReach(ts, ts[i].args[m], j);
      assert ArgsCachedAt(g, i) && ts[i].args[m] in g[i].Args();
      CachedClosed(g, ts[i].args[m], j);
    }
  }

  // ---------------------------------------------------------------------
  // Invariants kept by each kind of change

  /** Invalidating twice from the same node gives the state of invalidating once. */
  lemma InvalidatedIdempotent(g: seq<Node>, x: nat)
    ensures Invalidated(Invalidated(g, x), x) == Invalidated(g, x)
  {
    var h := Invalidated(g, x);
    assert Wiring(h) == Wiring(g);
  }

  /** Invalidating from `x` clears exactly the nodes whose value is computed
      from `x`, directly or not, and leaves every other node as it was. */
  lemma InvalidatedExactly(g: seq<Node>, x: nat, j: nat)
    requires Wired(g) && x < |g| && j < |g|
    ensures Invalidated(g, x)[j] == if ArgReach(Terms(g), j, x) then g[j].ClearCache() else g[j]
  {
    ReachTranspose(g, x, j);
  }

  /** Invalidating from any node keeps the arena consistent: no argument,
      dependant or term changes, and every value still held was held before. */
  lemma InvalidatedConsistent(fo: FloatOps, g: seq<Node>, x: nat)
    requires Consistent(fo, g) && x < |g|
    ensures Consistent(fo, Invalidated(g, x))
  {
    var h := Invalidated(g, x);
    InvalidatedWiring(g, x);
    forall a, d | 0 <= a < |h| && 0 <= d < |h| ensures LinkedAt(h, a, d) {
      assert LinkedAt(g, a, d);
      assert h[a].Dependants() == g[a].Dependants() && h[d].Args() == g[d].Args();
    }
    InvalidatedArgsCached(g, x);
    forall j | 0 <= j < |h| ensures CorrectAt(fo, h, j) {
      assert CorrectAt(fo, g, j);
    }
  }

  lemma InvalidatedArgsCached(g: seq<Node>, x: nat)
    requires Wired(g) && ArgsCached(g)
    ensures ArgsCached(Invalidated(g, x))
  {
    var h := Invalidated(g, x);
    var ws := Wiring(g);
    forall j | 0 <= j < |h| ensures ArgsCachedAt(h, j) {
      if h[j].HasCachedValue() && h[j].Operator? {
        assert !DepReach(ws, x, j) && h[j] == g[j];
        assert ArgsCachedAt(g, j);
        forall a | a in h[j].Args() ensures a < |h| && h[a].HasCachedValue() {
          if DepReach(ws, x, a) {
            ArgIsDependant(g, a, j);
            var k :| 0 <= k < |ws[a]| && ws[a][k] == j;
            DepReachExtend(ws, x, a, k);
          }
        }
      }
    }
  }

  /** Setting an input and invalidating from it keeps the arena consistent:
      every value still held is the fresh value under the new input. */
  lemma SetConsistent(fo: FloatOps, g: seq<Node>, x: nat, v: real)
    requires Consistent(fo, g) && x < |g| && g[x].Input?
    ensures Consistent(fo, Invalidated(g[x := g[x].(value := v)], x))
  {
    SetWired(g, x, v);
    SetArgsCached(g, x, v);
    SetCacheCorrect(fo, g, x, v);
  }

  lemma SetArgsCached(g: seq<Node>, x: nat, v: real)
    requires Wired(g) && ArgsCached(g) && x < |g| && g[x].Input?
    ensures ArgsCached(Invalidated(g[x := g[x].(value := v)], x))
  {
    var g1 := g[x := g[x].(value := v)];
    assert Wiring(g1) == Wiring(g);
    forall a, d | 0 <= a < |g1| && 0 <= d < |g1| ensures LinkedAt(g1, a, d) {
      assert LinkedAt(g, a, d);
    }
    forall j | 0 <= j < |g1| ensures ArgsCachedAt(g1, j) {
      assert ArgsCachedAt(g, j);
    }
    assert forall k :: 0 <= k < |g| && k != x ==> Terms(g1)[k] == Terms(g)[k];
    InvalidatedArgsCached(g1, x);
  }

  lemma SetCacheCorrect(fo: FloatOps, g: seq<Node>, x: nat, v: real)
    requires Wired(g) && CacheCorrect(fo, g) && x < |g| && g[x].Input?
    requires var h := Invalidated(g[x := g[x].(value := v)], x);
      && WellFormed(Terms(h))
      && (forall k :: 0 <= k < |g| && k != x ==> Terms(h)[k] == Terms(g)[k])
    ensures CacheCorrect(fo, Invalidated(g[x := g[x].(value := v)], x))
  {
    var g1 := g[x := g[x].(value := v)];
    var h := Invalidated(g1, x);
    var ws, ts, hs := Wiring(g), Terms(g), Terms(h);
    assert Wiring(g1) == ws;
    forall j | 0 <= j < |h| ensures CorrectAt(fo, h, j) {
      if h[j].HasCachedValue() && h[j].Operator? {
        assert !DepReach(ws, x, j) && h[j] == g[j];
        assert CorrectAt(fo, g, j);
        if ArgReach(ts, j, x) {
          ArgReachIsDepReach(g, j, x);
        }
        EvalLocal(fo, ts, hs, j);
      }
    }
  }

  /** Setting an input and invalidating from it changes no argument and no
      dependant list, and no term other than the input's. */
  lemma SetWired(g: seq<Node>, x: nat, v: real)
    requires Wired(g) && x < |g| && g[x].Input?
    ensures var h := Invalidated(g[x := g[x].(value := v)], x);
      && Wired(h) && Wiring(h) == Wiring(g)
      && (forall k :: 0 <= k < |g| && k != x ==> Terms(h)[k] == Terms(g)[k])
      && Terms(h)[x] == InputTerm(v)
  {
    var g1 := g[x := g[x].(value := v)];
    var h := Invalidated(g1, x);
    assert Wiring(g1) == Wiring(g);
    assert Wiring(h) == Wiring(g);
    forall a, d | 0 <= a < |h| && 0 <= d < |h| ensures LinkedAt(h, a, d) {
      assert LinkedAt(g, a, d);
      assert h[a].Dependants() == g[a].Dependants() && h[d].Args() == g[d].Args();
    }
    var ts, hs := Terms(g), Terms(h);
    assert forall k :: 0 <= k < |g| && k != x ==> hs[k] == ts[k];
    assert WellFormed(hs);
  }

  /** Storing the fresh value of an operator whose arguments all hold
      values keeps the arena consistent. */
  lemma FillConsistent(fo: FloatOps, g: seq<Node>, i: nat, v: real)
    requires Consistent(fo, g) && i < |g| && g[i].Operator?
    requires forall a :: a in g[i].Args() ==> a < |g| && g[a].HasCachedValue()
    requires v == Eval(fo, Terms(g), i)
    ensures Consistent(fo, g[i := g[i].SetCachedValue(v)])
  {
    var h := g[i := g[i].SetCachedValue(v)];
    assert Terms(h) == Terms(g);
    assert Wiring(h) == Wiring(g);
    forall a, d | 0 <= a < |h| && 0 <= d < |h| ensures LinkedAt(h, a, d) {
      assert LinkedAt(g, a, d);
      assert h[a].Dependants() == g[a].Dependants() && h[d].Args() == g[d].Args();
    }
    assert Wired(h);
    forall j | 0 <= j < |h| ensures ArgsCachedAt(h, j) {
      if j != i && h[j].HasCachedValue() {
        assert ArgsCachedAt(g, j);
        assert h[j] == g[j];
        forall a | a in h[j].Args() ensures a < |h| && h[a].HasCachedValue() {
          assert a < |g| && g[a].HasCachedValue();
        }
      }
    }
    assert ArgsCached(h);
    forall j | 0 <= j < |h| ensures CorrectAt(fo, h, j) {
      if j != i {
        assert CorrectAt(fo, g, j);
      }
    }
    assert CacheCorrect(fo, h);
  }

  /** Filling caches below an argument of `i` fills caches below `i`, and
      leaves `i` itself alone. */
  lemma FillsStep(g: seq<Node>, mid: seq<Node>, h: seq<Node>, i: nat, m: nat)
    requires WellFormed(Terms(g)) && i < |g| && g[i].Operator? && m < |g[i].Args()|
    requires Fills(g, mid, i) && Fills(mid, h, g[i].Args()[m])
    ensures Fills(g, h, i) && h[i] == mid[i]
  {
    var ts := Terms(g);
    var a := g[i].Args()[m];
    assert ts[i].args[m] == a;
    forall j | 0 <= j < |g| ensures FillsAt(g, h, i, j) {
      assert FillsAt(g, mid, i, j) && FillsAt(mid, h, a, j);
      if ArgReach(ts, a, j) {
        assert ArgReach(ts, i, j);
      }
    }
    assert FillsAt(g, mid, i, i) && FillsAt(mid, h, a, i);
    if ArgReach(ts, a, i) {
      ArgReachBelow(ts, a, i);
    }
  }

  /** Storing a value in node `i` itself, whose cache was empty, is one more fill below `i`. */
  lemma FillsFinish(g: seq<Node>, mid: seq<Node>, i: nat, v: real)
    requires i < |g| && Fills(g, mid, i) && mid[i] == g[i] && g[i].Operator? && !g[i].HasCachedValue()
    ensures Fills(g, mid[i := mid[i].SetCachedValue(v)], i)
  {
    var h := mid[i := mid[i].SetCachedValue(v)];
    assert Terms(h) == Terms(mid) && Wiring(h) == Wiring(mid);
    forall j | 0 <= j < |g| ensures FillsAt(g, h, i, j) {
      assert FillsAt(g, mid, i, j);
      assert ArgReach(Terms(g), i, i);
    }
  }

  /** Changing nothing fills nothing. */
  lemma FillsRefl(g: seq<Node>, i: nat)
    ensures Fills(g, g, i)
  {
    forall j | 0 <= j < |g| ensures FillsAt(g, g, i, j) {
    }
  }

  /** Adding a node computing `t`, whose arguments are all already in the
      arena, keeps the arena consistent; the new node holds no value. */
  lemma AttachConsistent(fo: FloatOps, g: seq<Node>, t: Term)
    requires Consistent(fo, g)
    requires forall a :: a in t.Args() ==> a < |g|
    requires t.OpTerm? ==> |t.args| == Arity(t.op)
    ensures Consistent(fo, Attach(g, t))
  {
    AttachTerms(g, t);
    WellFormedSnoc(Terms(g), t);
    AttachUpward(g, t);
    AttachTransposed(g, t);
    AttachArgsCached(g, t);
    AttachCacheCorrect(fo, g, t);
  }

  lemma AttachArgsCached(g: seq<Node>, t: Term)
    requires ArgsCached(g)
    ensures ArgsCached(Attach(g, t))
  {
    var h := Attach(g, t);
    forall j | 0 <= j < |h| ensures ArgsCachedAt(h, j) {
      if j < |g| {
        AttachAt(g, t, j);
        if g[j].HasCachedValue() {
          assert ArgsCachedAt(g, j);
          forall a | a in h[j].Args() ensures a < |h| && h[a].HasCachedValue() {
            AttachAt(g, t, a);
          }
        }
      }
    }
  }

  /** An old node keeps its arguments, its term and its cache when a node is attached. */
  lemma AttachAt(g: seq<Node>, t: Term, j: nat)
    requires j < |g|
    ensures var h := Attach(g, t);
      && |h| == |g| + 1
      && h[j].Args() == g[j].Args() && h[j].ToTerm() == g[j].ToTerm()
      && h[j].HasCachedValue() == g[j].HasCachedValue()
      && (g[j].HasCachedValue() ==> h[j].GetCachedValue() == g[j].GetCachedValue())
  {
  }

  lemma AttachCacheCorrect(fo: FloatOps, g: seq<Node>, t: Term)
    requires WellFormed(Terms(g)) && CacheCorrect(fo, g)
    requires WellFormed(Terms(g) + [t]) && Terms(Attach(g, t)) == Terms(g) + [t]
    ensures CacheCorrect(fo, Attach(g, t))
  {
    var h := Attach(g, t);
    var ts, hs := Terms(g), Terms(h);
    forall j | 0 <= j < |h| ensures CorrectAt(fo, h, j) {
      if j < |g| {
      assert CorrectAt(fo, g, j);
      assert h[j].HasCachedValue() == g[j].HasCachedValue();
      forall k | 0 <= k < |ts| && ArgReach(ts, j, k)
        ensures k < |hs| && hs[k] == ts[k]
      {
      }
      EvalLocal(fo, ts, hs, j);
      }
    }
  }

  lemma AttachTerms(g: seq<Node>, t: Term)
    ensures Terms(Attach(g, t)) == Terms(g) + [t]
  {
    var h := Attach(g, t);
    forall j | 0 <= j < |h| ensures Terms(h)[j] == (Terms(g) + [t])[j] {
      if j < |g| {
        assert h[j].ToTerm() == g[j].ToTerm();
      }
    }
  }

  lemma WellFormedSnoc(ts: seq<Term>, t: Term)
    requires WellFormed(ts)
    requires forall a :: a in t.Args() ==> a < |ts|
    requires t.OpTerm? ==> |t.args| == Arity(t.op)
    ensures WellFormed(ts + [t])
  {
    var us := ts + [t];
    forall j, m | 0 <= j < |us| && us[j].OpTerm? && 0 <= m < |us[j].args|
      ensures us[j].args[m] < j
    {
      if j == |ts| {
        assert us[j].args[m] in t.Args();
      }
    }
  }

  lemma AttachUpward(g: seq<Node>, t: Term)
    requires Upward(Wiring(g))
    ensures Upward(Wiring(Attach(g, t)))
  {
    var n := |g|;
    var h := Attach(g, t);
    var ws, hw := Wiring(g), Wiring(h);
    forall a, m | 0 <= a < |hw| && 0 <= m < |hw[a]|
      ensures a < hw[a][m] < |hw|
    {
      if a < n {
        var c := multiset(t.Args())[a];
        assert hw[a] == ws[a] + Repeat(n, c);
        if m < |ws[a]| {
          assert hw[a][m] == ws[a][m];
        } else {
          assert hw[a][m] == Repeat(n, c)[m - |ws[a]|] == n;
        }
      }
    }
  }

  lemma AttachTransposed(g: seq<Node>, t: Term)
    requires Transposed(g) && Upward(Wiring(g)) && WellFormed(Terms(g))
    requires forall a :: a in t.Args() ==> a < |g|
    ensures Transposed(Attach(g, t))
  {
    var n := |g|;
    var h := Attach(g, t);
    forall a, d | 0 <= a < |h| && 0 <= d < |h| ensures LinkedAt(h, a, d) {
      if a < n && d < n {
        assert LinkedAt(g, a, d);
      }
      if a < n {
        var c := multiset(t.Args())[a];
        RepeatCount(n, c, d);
        assert h[a].Dependants() == g[a].Dependants() + Repeat(n, c);
        if d == n {
          NotDependantOfEarlier(g, a);
        } else {
          assert h[d].Args() == g[d].Args();
        }
      } else if d < n {
        NotArgumentOfEarlier(g, d);
      } else {
        assert n !in t.Args();
      }
    }
  }

  lemma NotDependantOfEarlier(g: seq<Node>, a: nat)
    requires Upward(Wiring(g)) && a < |g|
    ensures |g| !in g[a].Dependants()
  {
    forall m | 0 <= m < |g[a].Dependants()| ensures g[a].Dependants()[m] < |g| {
      assert Wiring(g)[a][m] == g[a].Dependants()[m];
    }
  }

  lemma NotArgumentOfEarlier(g: seq<Node>, d: nat)
    requires WellFormed(Terms(g)) && d < |g|
    ensures |g| !in g[d].Args()
  {
    forall m | 0 <= m < |g[d].Args()| ensures g[d].Args()[m] < |g| {
      assert Terms(g)[d].args[m] == g[d].Args()[m];
    }
  }

  lemma {:induction false} RepeatCount(x: nat, c: nat, y: nat)
    ensures multiset(Repeat(x, c))[y] == if y == x then c else 0
    decreases c
  {
    if c > 0 {
      RepeatCount(x, c - 1, y);
    }
  }

  lemma InvalidatedWiring(g: seq<Node>, x: nat)
    ensures |Invalidated(g, x)| == |g|
    ensures Wiring(Invalidated(g, x)) == Wiring(g) && Terms(Invalidated(g, x)) == Terms(g)
  {
    var h := Invalidated(g, x);
    assert forall j :: 0 <= j < |g| ==> h[j].Dependants() == g[j].Dependants() && h[j].ToTerm() == g[j].ToTerm();
  }

  /** Clearing a node's own cache is where invalidation starts. */
  lemma ClearedByStart(g: seq<Node>, i: nat)
    requires i < |g|
    ensures ClearedBy(g, Wiring(g), i, []) == g[i := g[i].ClearCache()]
  {
  }

  /** Invalidating from one more dependant extends the cleared region by
      everything above it; nothing else changes. */
  lemma ClearedByStep(g: seq<Node>, i: nat, xs: seq<nat>, x: nat)
    ensures |ClearedBy(g, Wiring(g), i, xs)| == |g|
    ensures Wiring(ClearedBy(g, Wiring(g), i, xs)) == Wiring(g)
    ensures Invalidated(ClearedBy(g, Wiring(g), i, xs), x) == ClearedBy(g, Wiring(g), i, xs + [x])
  {
    var ws := Wiring(g);
    var c := ClearedBy(g, ws, i, xs);
    assert Wiring(c) == ws;
    var ys := xs + [x];
    forall j | 0 <= j < |g|
      ensures (exists m :: 0 <= m < |ys| && DepReach(ws, ys[m], j))
          <==> (exists m :: 0 <= m < |xs| && DepReach(ws, xs[m], j)) || DepReach(ws, x, j)
    {
      if DepReach(ws, x, j) {
        assert ys[|xs|] == x;
      }
      if exists m :: 0 <= m < |xs| && DepReach(ws, xs[m], j) {
        var m :| 0 <= m < |xs| && DepReach(ws, xs[m], j);
        assert ys[m] == xs[m];
      }
    }
  }

  /** Once every dependant of `i` has been invalidated from, the arena is
      the invalidation of `i`. */
  lemma ClearedByEnd(g: seq<Node>, i: nat)
    requires Upward(Wiring(g)) && i < |g|
    ensures ClearedBy(g, Wiring(g), i, Wiring(g)[i]) == Invalidated(g, i)
  {
    var ws := Wiring(g);
    forall j | 0 <= j < |g|
      ensures DepReach(ws, i, j) <==> j == i || exists m :: 0 <= m < |ws[i]| && DepReach(ws, ws[i][m], j)
    {
    }
  }

  /** The arena `Input::new` builds is the attachment of an input term. */
  lemma AttachInput(g: seq<Node>, v: real)
    ensures Attach(g, InputTerm(v)) == g + [Input(v, [])]
  {
    var h := Attach(g, InputTerm(v));
    forall j | 0 <= j < |g| ensures h[j] == g[j] {
      assert Repeat(|g|, 0) == [];
      assert g[j].Dependants() + [] == g[j].Dependants();
    }
  }

  /** The arena `Pow::new` and `Sin::new` build is the attachment of a
      one-argument term. */
  lemma AttachUnary(g: seq<Node>, op: Op, a: nat)
    requires a < |g|
    ensures var n := |g|;
      var g1 := g + [NewNode(OpTerm(op, [a]))];
      Attach(g, OpTerm(op, [a])) == g1[a := g1[a].AddDependant(n)]
  {
    var n := |g|;
    var g1 := g + [NewNode(OpTerm(op, [a]))];
    var h := Attach(g, OpTerm(op, [a]));
    forall j | 0 <= j < n ensures h[j] == g1[a := g1[a].AddDependant(n)][j] {
      AttachUnaryAt(g, op, a, j);
    }
  }

  lemma AttachUnaryAt(g: seq<Node>, op: Op, a: nat, j: nat)
    requires a < |g| && j < |g|
    ensures Attach(g, OpTerm(op, [a]))[j] == if j == a then g[j].AddDependant(|g|) else g[j]
  {
    var n := |g|;
    var ds := g[j].Dependants();
    if j == a {
      assert multiset([a])[j] == 1 && Repeat(n, 1) == [n];
    } else {
      assert multiset([a])[j] == 0 && Repeat(n, 0) == [] && ds + [] == ds;
      WithOwnDependants(g[j]);
    }
  }

  /** The arena `Add::new` and `Mul::new` build is the attachment of a
      two-argument term: the left argument is told first, then the right. */
  lemma AttachBinary(g: seq<Node>, op: Op, l: nat, r: nat)
    requires l < |g| && r < |g|
    ensures var n := |g|;
      var g1 := g + [NewNode(OpTerm(op, [l, r]))];
      var g2 := g1[l := g1[l].AddDependant(n)];
      Attach(g, OpTerm(op, [l, r])) == g2[r := g2[r].AddDependant(n)]
  {
    var n := |g|;
    var g1 := g + [NewNode(OpTerm(op, [l, r]))];
    var g2 := g1[l := g1[l].AddDependant(n)];
    var g3 := g2[r := g2[r].AddDependant(n)];
    var h := Attach(g, OpTerm(op, [l, r]));
    forall j | 0 <= j < n ensures h[j] == g3[j] {
      AttachBinaryAt(g, op, l, r, j);
    }
  }

  lemma AttachBinaryAt(g: seq<Node>, op: Op, l: nat, r: nat, j: nat)
    requires l < |g| && r < |g| && j < |g|
    ensures var n := |g|;
      var x := if j == l then g[j].AddDependant(n) else g[j];
      Attach(g, OpTerm(op, [l, r]))[j] == if j == r then x.AddDependant(n) else x
  {
    var n := |g|;
    var x := g[j];
    var ds := x.Dependants();
    PairCount(l, r, j);
    if j == l && j == r {
      assert Repeat(n, 2) == [n, n];
      assert ds + [n] + [n] == ds + [n, n];
      WithDependantsTwice(x, ds + [n], ds + [n, n]);
    } else if j == l || j == r {
      assert Repeat(n, 1) == [n];
    } else {
      assert Repeat(n, 0) == [] && ds + [] == ds;
      WithOwnDependants(x);
    }
  }

  lemma WithDependantsTwice(x: Node, ds: seq<nat>, es: seq<nat>)
    ensures x.WithDependants(ds).Dependants() == ds
    ensures x.WithDependants(ds).WithDependants(es) == x.WithDependants(es)
  {
  }

  lemma WithOwnDependants(x: Node)
    ensures x.WithDependants(x.Dependants()) == x
  {
  }

  lemma PairCount(l: nat, r: nat, j: nat)
    ensures multiset([l, r])[j] == (if j == l then 1 else 0) + (if j == r then 1 else 0)
  {
    assert multiset([l, r]) == multiset{l} + multiset{r};
  }

  /** The arguments of a node come before it, and there are as many as its
      operator takes. */
  lemma ArgsBelow(g: seq<Node>, i: nat)
    requires WellFormed(Terms(g)) && i < |g|
    ensures forall m :: 0 <= m < |g[i].Args()| ==> g[i].Args()[m] < i
    ensures g[i].Operator? ==> |g[i].Args()| == Arity(g[i].op)
  {
    assert Terms(g)[i] == g[i].ToTerm();
  }
}
