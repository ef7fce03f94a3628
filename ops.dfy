/** What each operator computes from the values of its arguments. */
module Ops {
  import opened Expressions

  /** Left-to-right fold of `+` starting from 0, as `Add` folds its arguments. */
  function Sum(vs: seq<real>): real {
    if vs == [] then 0.0 else Sum(vs[..|vs| - 1]) + vs[|vs| - 1]
  }

  /** Left-to-right fold of `*` starting from 1, as `Mul` folds its arguments. */
  function Product(vs: seq<real>): real {
    if vs == [] then 1.0 else Product(vs[..|vs| - 1]) * vs[|vs| - 1]
  }

  /** With two arguments the fold is the plain sum of left and right. */
  lemma SumPair(x: real, y: real)
    ensures Sum([x, y]) == x + y
  {
    assert [x, y][..1] == [x] && [x][..0] == [];
    assert Sum([x]) == Sum([]) + x;
    assert Sum([x, y]) == Sum([x]) + y;
  }

  /** With two arguments the fold is the plain product of left and right. */
  lemma ProductPair(x: real, y: real)
    ensures Product([x, y]) == x * y
  {
    assert [x, y][..1] == [x] && [x][..0] == [];
    assert Product([x]) == Product([]) * x;
    assert Product([x, y]) == Product([x]) * y;
  }

  /** The number of arguments each operator's constructor takes. */
  function Arity(op: Op): nat {
    match op
    case Add => 2
    case Mul => 2
    case Pow(_) => 1
    case Sin => 1
  }

  /** The operator applied to the values of its arguments. */
  function Apply(fo: FloatOps, op: Op, vs: seq<real>): real
    requires |vs| == Arity(op)
  {
    match op
    case Add => Sum(vs)
    case Mul => Product(vs)
    case Pow(exp) => fo.powf(vs[0], exp)
    case Sin => fo.sin(vs[0])
  }
}
