/** Rich comparison derived from a single three-way `compare`: the six operators that both the
    `Comparable` metaclass and the `comparable` class decorator install. Each operator tests
    only the sign of `compare(self, other)`. */
module Comparable {

  datatype Operator = Eq | Ne | Lt | Le | Gt | Ge

  /** What an installed operator returns when `compare(self, other)` returned `c`. */
  function Apply(op: Operator, c: int): (r: bool)
    ensures c < 0 ==> (r <==> op == Ne || op == Lt || op == Le)
    ensures c == 0 ==> (r <==> op == Eq || op == Le || op == Ge)
    ensures c > 0 ==> (r <==> op == Ne || op == Gt || op == Ge)
  {
    match op
    case Eq => c == 0
    case Ne => c != 0
    case Lt => c < 0
    case Le => c <= 0
    case Gt => c > 0
    case Ge => c >= 0
  }

  /** `a <op> b` for a class whose comparison method is `compare`. */
  function Relation<T>(op: Operator, compare: (T, T) -> int, a: T, b: T): (r: bool)
    ensures compare(a, b) < 0 ==> (r <==> op == Ne || op == Lt || op == Le)
    ensures compare(a, b) == 0 ==> (r <==> op == Eq || op == Le || op == Ge)
    ensures compare(a, b) > 0 ==> (r <==> op == Ne || op == Gt || op == Ge)
  {
    Apply(op, compare(a, b))
  }

  /** The operators answer consistently with each other for every result of `compare`:
      `!=` negates `==`, `<=` is `<` or `==`, `>=` is `>` or `==`, and exactly one of
      `<`, `==`, `>` holds. */
  lemma OperatorsConsistent(c: int)
    ensures Apply(Ne, c) == !Apply(Eq, c)
    ensures Apply(Le, c) == (Apply(Lt, c) || Apply(Eq, c))
    ensures Apply(Ge, c) == (Apply(Gt, c) || Apply(Eq, c))
    ensures Apply(Lt, c) || Apply(Eq, c) || Apply(Gt, c)
    ensures !(Apply(Lt, c) && Apply(Eq, c)) && !(Apply(Lt, c) && Apply(Gt, c)) && !(Apply(Eq, c) && Apply(Gt, c))
  {
  }

  /** The laws a three-way comparison must obey for the derived operators to form a total
      order: zero exactly on equal values, a sign that flips with the arguments, and
      transitivity of "negative". */
  ghost predicate ThreeWayLaws<T(!new)>(compare: (T, T) -> int) {
    && (forall a, b :: compare(a, b) == 0 <==> a == b)
    && (forall a, b :: compare(a, b) < 0 <==> compare(b, a) > 0)
    && (forall a, b, c :: compare(a, b) < 0 && compare(b, c) < 0 ==> compare(a, c) < 0)
  }

  ghost predicate StrictTotalOrder<T(!new)>(less: (T, T) -> bool) {
    && (forall a :: !less(a, a))
    && (forall a, b, c :: less(a, b) && less(b, c) ==> less(a, c))
    && (forall a, b :: a != b ==> less(a, b) || less(b, a))
  }

  ghost predicate TotalOrder<T(!new)>(lessEq: (T, T) -> bool) {
    && (forall a :: lessEq(a, a))
    && (forall a, b :: lessEq(a, b) && lessEq(b, a) ==> a == b)
    && (forall a, b, c :: lessEq(a, b) && lessEq(b, c) ==> lessEq(a, c))
    && (forall a, b :: lessEq(a, b) || lessEq(b, a))
  }

  /** Under the three-way laws, the derived `<` is a strict total order, `<=` a total order,
      `==` is identity and `>` is `<` with the arguments swapped. */
  lemma DerivedOrder<T(!new)>(compare: (T, T) -> int)
    requires ThreeWayLaws(compare)
    ensures StrictTotalOrder((a, b) => Relation(Lt, compare, a, b))
    ensures TotalOrder((a, b) => Relation(Le, compare, a, b))
    ensures forall a, b :: Relation(Eq, compare, a, b) <==> a == b
    ensures forall a, b :: Relation(Gt, compare, a, b) <==> Relation(Lt, compare, b, a)
  {
    forall a, b, c | Relation(Le, compare, a, b) && Relation(Le, compare, b, c)
      ensures Relation(Le, compare, a, c)
    {
      if a == b || b == c {
      } else {
        assert compare(a, b) < 0 && compare(b, c) < 0;
      }
    }
  }

  /** The objects of the source's test classes: a comparison key `value`, compared by
      `self.value - other.value`. */
  datatype Counter = Counter(value: int)

  function ValueDifference(a: Counter, b: Counter): int {
    a.value - b.value
  }

  /** Python's own operators on ints, which the derived operators agree with. */
  function IntOperator(op: Operator, x: int, y: int): bool {
    match op
    case Eq => x == y
    case Ne => x != y
    case Lt => x < y
    case Le => x <= y
    case Gt => x > y
    case Ge => x >= y
  }

  /** With `compare` returning the difference of the values, every derived operator coincides
      with the same operator on the values. */
  lemma DifferenceCompareMatchesIntegers(op: Operator, a: Counter, b: Counter)
    ensures Relation(op, ValueDifference, a, b) == IntOperator(op, a.value, b.value)
  {
  }

  lemma DifferenceCompareObeysLaws()
    ensures ThreeWayLaws(ValueDifference)
  {
  }
}
