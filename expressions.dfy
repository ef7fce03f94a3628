/** The records a computation graph is made of: the cache record that every
    operator embeds (`Expression`), the named input leaf, and the four
    operators.  Nodes live in an arena and refer to one another by index:
    an argument edge points to a smaller index, a dependant edge to a larger
    one. */
module Expressions {

  datatype Option<+T> = None | Some(value: T)

  /** The two f32 library calls the operators make (`powf` and `sin`),
      supplied from outside: their numeric behaviour is not part of the
      model, only that each is a function of its inputs. */
  datatype FloatOps = FloatOps(powf: (real, real) -> real, sin: real -> real)

  /** The operator of a non-input node; `Pow` carries its exponent, which is
      fixed when the node is built. */
  datatype Op = Add | Mul | Pow(exp: real) | Sin

  /** The cache record embedded in every operator: its argument list, the
      memoised result and the nodes registered as its dependants. */
  datatype Expression = Expression(args: seq<nat>, cachedValue: Option<real>, dependants: seq<nat>)

  /** What a node computes, with its cache and its dependants erased. */
  datatype Term = InputTerm(value: real) | OpTerm(op: Op, args: seq<nat>)
  {
    function Args(): seq<nat> {
      if InputTerm? then [] else args
    }
  }

  /** A node of the graph: a named input leaf (the name is diagnostic only
      and is not kept) or an operator wrapping its cache record. */
  datatype Node =
    | Input(value: real, inputDependants: seq<nat>)
    | Operator(op: Op, expr: Expression)
  {
    function Args(): seq<nat> {
      if Input? then [] else expr.args
    }

    function Dependants(): seq<nat> {
      if Input? then inputDependants else expr.dependants
    }

    function ToTerm(): Term {
      if Input? then InputTerm(value) else OpTerm(op, expr.args)
    }

    /** An input is always up to date; an operator is when its record holds a value. */
    predicate HasCachedValue() {
      Input? || expr.cachedValue.Some?
    }

    function GetCachedValue(): real
      requires HasCachedValue()
    {
      if Input? then value else expr.cachedValue.value
    }

    /** An operator overwrites its cache; an input only accepts its own value. */
    function SetCachedValue(v: real): Node
      requires Input? ==> v == value
    {
      if Input? then this else this.(expr := expr.(cachedValue := Some(v)))
    }

    /** The node's own part of `invalidate_cache`: an input has nothing to clear. */
    function ClearCache(): Node {
      if Input? then this else this.(expr := expr.(cachedValue := None))
    }

    function AddDependant(d: nat): Node {
      WithDependants(Dependants() + [d])
    }

    function WithDependants(ds: seq<nat>): Node {
      if Input? then this.(inputDependants := ds) else this.(expr := expr.(dependants := ds))
    }
  }

  /** The node a constructor builds for `t`: an input of that value, or an
      operator over those arguments with an empty cache and no dependants. */
  function NewNode(t: Term): Node {
    match t
    case InputTerm(v) => Input(v, [])
    case OpTerm(op, args) => Operator(op, Expression(args, None, []))
  }
}
