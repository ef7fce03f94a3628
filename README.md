# computational_graph in Dafny

A model of the `computational_graph` crate. The crate builds a graph in which
each node is a lazy expression. `compute` evaluates a node on demand and keeps
the result in the node's cache. `Input::set` changes an input and clears the
caches of exactly the nodes computed from it. Every other cache is kept.

The model keeps the crate's structure:

- `expressions.dfy` (module `Expressions`): the records.
  - `Expression` is the cache record every operator embeds. It holds the
    argument list, the `Option` cached value and the dependant list.
  - `Node` is an `Input` leaf (a value and a dependant list) or an `Operator`
    (`Add`, `Mul`, `Pow(exp)`, `Sin`) wrapping its record.
- `graph.dfy` (module `Graph`): the class `Arena`.
  - It owns every node, in construction order.
  - A node handle is its index, so the `Rc` argument references and the
    `Weak` dependant references become index lists.
  - Its methods are the crate's operations, imperative as in the crate:
    - the `Compute` interface: `Compute`, `ComputeFull`, `AddDependant`,
      `HasCachedValue`, `GetCachedValue`, `SetCachedValue` and
      `InvalidateCache`;
    - the node constructors `NewInput`, `NewAdd`, `NewMul`, `NewPow`, `NewSin`;
    - `Set`;
    - each operator's `compute_full`, with the fold loop of `Add` and `Mul`.
- `semantics.dfy` (module `Semantics`): the meaning of a graph.
  - `Eval` is the fresh recursive evaluation of a node.
  - `ArgReach` and `DepReach` follow argument edges down and dependant edges
    up.
  - `Invalidated` and `Attach` give the whole-arena effect of an
    invalidation and of a construction.
  - The arena invariant `Consistent` has five parts:
    1. Every argument comes before the node that uses it, and each operator
       has its arity (`WellFormed`).
    2. Every dependant comes after the node it depends on (`Upward`). This
       is the measure on which invalidation terminates.
    3. Dependant lists are the transpose of argument lists, counted with
       multiplicity.
    4. A node holding a value has all its arguments holding values.
    5. Every value held equals the node's fresh evaluation.
  - It also holds lemmas about this invariant:
    - The constructors, `set`, `compute` and `invalidate_cache` keep it.
    - `set_cached_value` keeps it when it stores the node's fresh value over
      arguments that all hold values, which is how `compute` calls it.
    - A direct `set_cached_value` or `add_dependant` can break it (see
      "Left out").
- `ops.dfy` (module `Ops`): the operator arithmetic. `Add` and `Mul` are left
  folds from 0 and from 1. `powf` and `sin` are supplied functions.
- `scenario.dfy` (module `Scenario`): the crate's own example,
  y = x1 + x2 * sin(x2 + pow(x3, 3)).
  - It builds the example with the arena's constructors.
  - It then runs the cache-observing sequence of `set` and `compute` calls and
    proves the cache state after each step.

`f32` is modelled as `real`. `powf` and `sin` are the fields of a `FloatOps`
value that the arena is given. The crate's panicking assertions are modelled
as preconditions:

- `get_cached_value` without a value;
- `Input::set_cached_value` with a different value;
- the arity assertion of `Pow` and `Sin` (the arena invariant guarantees it).

In two places the model follows the code where a reader might expect otherwise:

- The dependant list is a `Vec` that `add_dependant` pushes onto without
  deduplication, not a set. `Add::new(x, x)` therefore registers the new node
  twice, and the transpose invariant counts multiplicities.
- A dependant that no longer resolves makes `invalidate_cache` panic. In an
  arena every dependant index stays valid, so that path cannot arise.

## Model

| member | source | states |
|---|---|---|
| Graph.Arena.Compute | src/expressions/computable.rs:10-18 | On a node holding a value: returns that value and changes no node. Otherwise: stores and returns the node's fresh value. Either way the result equals the fresh evaluation over the current inputs, the arena invariant is kept, only empty caches of nodes below the node get filled, and afterwards every node below it holds a value. |
| Graph.Arena.ComputeFull | src/expressions/input.rs:64-66 | The fresh value of the node from the values its arguments compute to (an input's own value). The node's record is untouched, the invariant is kept, and every argument then holds a value. |
| Graph.Arena.AddDependant | src/expressions/expression.rs:20-22 | Appends exactly one entry to the node's dependant list without looking for an earlier one. Nothing else changes. |
| Graph.Arena.HasCachedValue | src/expressions/expression.rs:24-26 | For an operator: true exactly when its record holds `Some`. For an input: always true (src/expressions/input.rs:42-44). |
| Graph.Arena.GetCachedValue | src/expressions/expression.rs:28-31 | Requires a held value and nothing else. Returns the value the record holds, or an input's current value (src/expressions/input.rs:46-48). In an arena where the invariant holds, that value is the node's fresh evaluation. |
| Graph.Arena.SetCachedValue | src/expressions/expression.rs:33-35 | An operator's record is overwritten whatever it held, and nothing else changes. On an input it requires the input's current value and changes nothing (src/expressions/input.rs:50-52). The invariant is kept when the value stored is the node's fresh value and its arguments all hold values. |
| Graph.Arena.InvalidateCache | src/expressions/expression.rs:41-51 | The loop over the dependants ends in `Invalidated(old, i)`: every node reachable from `i` by dependant edges loses its value, and every other node is left as it was. Inputs keep their values (src/expressions/input.rs:54-62). The arena invariant is kept, so `compute` may follow directly. |
| Semantics.InvalidatedConsistent | src/expressions/computable.rs:28-29 | Invalidating from any node keeps the arena invariant: no argument, dependant list or term changes, and every value still held was held before and is still fresh. |
| Semantics.InvalidatedExactly | src/expressions/computable.rs:28-29 | In a wired arena, invalidating from `x` clears exactly the nodes whose value is computed from `x` through argument edges, and leaves every other node as it was. |
| Semantics.ReachTranspose | src/expressions/computable.rs:20-21 | With the dependant lists the transpose of the argument lists: `x` lies below `j` along argument edges if and only if `j` lies above `x` along dependant edges. |
| Semantics.InvalidatedIdempotent | src/expressions/expression.rs:41-51 | Invalidating twice from the same node gives the same arena as invalidating once. |
| Graph.Arena.NewInput | src/expressions/input.rs:21-28 | Appends an input holding 0 with no dependants. The invariant is kept. |
| Graph.Arena.Set | src/expressions/input.rs:31-34 | The input's value becomes `v`, then the arena is invalidated from the input. The invariant is kept. |
| Semantics.SetConsistent | src/expressions/input.rs:31-34 | Assigning an input and invalidating from it keeps the arena invariant: every value still held is the fresh value under the new input. |
| Graph.Arena.NewAdd | src/ops/add.rs:12-26 | Appends `Add` over `[left, right]` with an empty cache and no dependants. The new index is registered once in `left`'s list and once in `right`'s (twice in one list when they coincide). No other node changes. The invariant is kept. |
| Graph.Arena.NewMul | src/ops/mul.rs:12-26 | As `NewAdd`, for `Mul`. |
| Graph.Arena.NewPow | src/ops/pow.rs:13-27 | Appends `Pow(exp)` over `[arg]` with an empty cache, registered once among `arg`'s dependants. No other node changes. The invariant is kept. |
| Graph.Arena.NewSin | src/ops/sin.rs:12-25 | Appends `Sin` over `[arg]` with an empty cache, registered once among `arg`'s dependants. No other node changes. The invariant is kept. |
| Semantics.AttachConsistent | src/ops/add.rs:12-26 | Adding a node over existing arguments, with its back-edges, keeps the arena invariant. |
| Semantics.AttachBinary | src/ops/add.rs:22-24 | The general construction of a two-argument node is the same as appending it and then registering it with the left argument, then with the right. |
| Semantics.AttachUnary | src/ops/pow.rs:24-26 | The general construction of a one-argument node is the same as appending it and then registering it with its argument. |
| Semantics.ArgIsDependant | src/ops/add.rs:23-24 | In a transposed arena, a node is among the dependants of each of its arguments. |
| Semantics.DependantHasArg | src/ops/add.rs:23-24 | In a transposed arena, each registered dependant has the node among its arguments. |
| Graph.Arena.AddComputeFull | src/ops/add.rs:50-54 | The left-to-right fold of `+` from 0 over the values the arguments compute to. Every argument then holds a value, and only caches below the node were filled. |
| Graph.Arena.MulComputeFull | src/ops/mul.rs:50-54 | The left-to-right fold of `*` from 1 over the values the arguments compute to. Every argument then holds a value, and only caches below the node were filled. |
| Graph.Arena.PowComputeFull | src/ops/pow.rs:51-60 | `powf` of the value the single argument computes to, with the node's exponent. The argument then holds a value. |
| Graph.Arena.SinComputeFull | src/ops/sin.rs:49-58 | `sin` of the value the single argument computes to. The argument then holds a value. |
| Ops.SumPair | src/ops/add.rs:50-54 | The fold of `+` from 0 over two values is their sum. |
| Ops.ProductPair | src/ops/mul.rs:50-54 | The fold of `*` from 1 over two values is their product. |
| Semantics.CachedClosed | src/expressions/computable.rs:8-9 | In a consistent arena, every node below a node holding a value also holds one. |
| Semantics.EvalLocal | src/lib.rs:3-5 | A node's fresh value depends only on the nodes below it. Two arenas that agree there evaluate it alike. |
| Semantics.FillConsistent | src/expressions/computable.rs:13-17 | Storing a node's fresh value, once all its arguments hold values, keeps the arena invariant. |
| Semantics.FillsStep | src/ops/add.rs:51-53 | Computing an argument fills only caches below the operator. Such steps compose, and the operator's own node is untouched. |
| Scenario.ExampleEval | src/lib.rs:24-36 | The example graph's root evaluates to x1 + x2 * sin(x2 + powf(x3, 3)). |
| Scenario.Build | src/lib.rs:87-96 | Building the example with the arena's constructors gives the expected arena: the wiring of the example, and no operator holding a value. |
| Scenario.AllReached | src/lib.rs:105-113 | Every node of the example lies below the root. |
| Scenario.ComputeRoot | src/lib.rs:105-113 | `compute` on the root returns the formula over the current inputs, and every node then holds a value. A second call changes nothing and returns the same value. |
| Scenario.ReachFromX1 | src/lib.rs:115-121 | Only x1 itself and the root lie above x1. |
| Scenario.ReachFromX2 | src/lib.rs:133-139 | Above x2 lie x2, add, sin, mul and the root, and not pow. |
| Scenario.SetShaped | src/lib.rs:115-121 | `set` on an example input keeps the shape with the new input values. An operator keeps its value exactly when it had one and is not above the input. |
| Scenario.CacheWalkthrough | src/lib.rs:84-144 | The crate's cache walk-through. No operator is cached once built. The first `compute` caches all five and returns the formula at (1, 2, 3). Setting x1 empties only the root. Computing again caches all five and returns the formula at (2, 2, 3), and a second call returns the same value. Setting x2 leaves only pow cached, and the next result is the formula at (2, 6, 3). |

## Left out

- f32 arithmetic is modelled as `real`, so there is no rounding. `powf` and `sin` are supplied functions, so the numeric results in the crate's tests (such as -0.32727) are not proved. The results are stated as the formula instead.
- `utils::round` is left out. It is float scaling used only by the tests.
- The tests' `println!` output is left out.
- `Rc`, `RefCell` and `Weak` are replaced by arena indices. Reference counting, borrow checking and dropping nodes are not modelled.
- The panic in `invalidate_cache` when a `Weak` dependant no longer upgrades is not modelled. It cannot arise in an arena, where every dependant index stays valid.
- The `name` field of `Input` is not kept. It is diagnostic only.
- `compute_full` on a bare `Expression` (`unimplemented!`) is not modelled. A bare record is never a node of the arena: only inputs and the four operators are.
- Graph.Arena.PowComputeFull: the arity assertion is a consequence of the arena invariant, so its failing path is not modelled.
- Graph.Arena.SinComputeFull: the arity assertion is a consequence of the arena invariant, so its failing path is not modelled.
- Graph.Arena.SetCachedValue: called directly on an operator whose arguments do not all hold values, or with a value other than the fresh one, it breaks the arena invariant. `Compute`, `ComputeFull`, `Set` and the constructors require that invariant, so the model does not follow such a call with them. The crate accepts the call, and a later `get_cached_value` or `compute` then returns the stored value. Inside the crate only `compute` calls `set_cached_value`, always with the fresh value.
- Graph.Arena.AddDependant: called directly, outside a constructor, it adds a dependant entry with no matching argument edge. That breaks the transpose part of the invariant, with the same consequence. Inside the crate only the constructors call `add_dependant`, and each call matches an argument edge.
- Direct writes to the public `value` field of an `Input` or the public fields of an `Expression` bypass `set` and the constructors. They are not modelled.
