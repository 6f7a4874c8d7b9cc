/**
 * The value vocabulary of the symbolic-execution domain: symbolic values,
 * the closed set of ordering/equality relations between two of them, and the
 * three-valued verdict a relation query produces.
 */
module Symbolic {
  import opened Wrappers

  /** A symbolic value: a variable bound to a declaration whose owner is either
      a type (the variable is a field) or a method, or the canonical constant
      `true`. */
  datatype Value = Variable(id: nat, ownerIsType: bool) | BooleanTrue

  /** The values a boolean constraint can be attached to. */
  type VariableValue = v: Value | v.Variable? witness Variable(0, false)

  /** A value is a field when it is a variable owned by a type declaration. */
  predicate IsField(v: Value) {
    v.Variable? && v.ownerIsType
  }

  datatype Relation = EqualTo | NotEqual | GreaterThan | GreaterEqual | LessThan | LessEqual | Unknown

  /** The three-valued answer to "does this relation hold?". */
  datatype BooleanConstraint = True | False | Unknown

  /** How the left operand compares with the right one in one concrete execution. */
  datatype Ordering = Below | Same | Above

  /** The ordering seen from the other operand. */
  function Flip(o: Ordering): Ordering {
    match o
    case Below => Above
    case Same => Same
    case Above => Below
  }

  /** The concrete orderings a stored relation leaves possible; UNKNOWN allows all. */
  predicate Admits(r: Relation, o: Ordering) {
    match r
    case EqualTo => o == Same
    case NotEqual => o != Same
    case GreaterThan => o == Above
    case GreaterEqual => o != Below
    case LessThan => o == Below
    case LessEqual => o != Above
    case Unknown => true
  }

  /** The relation that holds once the two operands are exchanged. */
  function Swap(r: Relation): (s: Relation)
    ensures forall o :: Admits(s, Flip(o)) == Admits(r, o)
  {
    match r
    case EqualTo => EqualTo
    case NotEqual => NotEqual
    case GreaterThan => LessThan
    case GreaterEqual => LessEqual
    case LessThan => GreaterThan
    case LessEqual => GreaterEqual
    case Unknown => Relation.Unknown
  }

  /** Distinct relations admit distinct sets of orderings, so a relation is
      determined by what it admits. */
  lemma AdmitsDetermines(r: Relation, s: Relation)
    requires forall o :: Admits(r, o) == Admits(s, o)
    ensures r == s
  {
    assert Admits(r, Below) == Admits(s, Below);
    assert Admits(r, Same) == Admits(s, Same);
    assert Admits(r, Above) == Admits(s, Above);
  }

  /** Swapping twice gives back the stored relation, so Swap is a bijection. */
  lemma SwapInvolution(r: Relation)
    ensures Swap(Swap(r)) == r
    ensures forall t :: Swap(t) == Swap(r) ==> t == r
  {
  }

  function SwapOption(o: Option<Relation>): Option<Relation> {
    match o
    case None => None
    case Some(r) => Some(Swap(r))
  }

  /** `SymbolicRelation.union(other)` with the receiver first and a possibly
      absent (null) accumulator second. Its table is not part of this model, so
      the operations that use it take it as a parameter. */
  type UnionOp = (Relation, Option<Relation>) -> Relation

  /** `SymbolicRelation.combine(queried)`: the stored relation first, the queried one second. */
  type CombineOp = (Relation, Relation) -> BooleanConstraint

  /** The join on relations that a union operator induces. */
  function Join(union: UnionOp, x: Relation, y: Relation): Relation {
    union(x, Some(y))
  }

  /** The union operator is a join: an absent partner is neutral, and joining is
      commutative, associative and idempotent. */
  ghost predicate IsJoin(union: UnionOp) {
    && (forall x :: union(x, None) == x)
    && (forall x, y :: Join(union, x, y) == Join(union, y, x))
    && (forall x, y, z :: Join(union, x, Join(union, y, z)) == Join(union, Join(union, x, y), z))
    && (forall x :: Join(union, x, x) == x)
  }

  /** Exchanging the operands before or after the union makes no difference. */
  ghost predicate CommutesWithSwap(union: UnionOp) {
    forall x, acc :: union(Swap(x), SwapOption(acc)) == Swap(union(x, acc))
  }

  /** The union never claims more than either side: every ordering either side
      allows is still allowed. */
  ghost predicate Widens(union: UnionOp) {
    && (forall x, acc, o :: Admits(x, o) ==> Admits(union(x, acc), o))
    && (forall x, y, o :: Admits(y, o) ==> Admits(union(x, Some(y)), o))
  }

  /** The relations that rule out the left operand being below (resp. above) the right one. */
  predicate InGreaterFamily(r: Relation) {
    r == EqualTo || r == GreaterThan || r == GreaterEqual
  }

  predicate InLessFamily(r: Relation) {
    r == EqualTo || r == LessThan || r == LessEqual
  }

  /** One concrete union table. A relation joined with itself stays itself;
      two distinct relations that both rule out "below" give GREATER_EQUAL,
      two that both rule out "above" give LESS_EQUAL, and every other pair
      (NOT_EQUAL with GREATER_THAN, anything with UNKNOWN, ...) gives UNKNOWN.
      An absent accumulator returns the receiver. */
  function WideningUnion(x: Relation, acc: Option<Relation>): Relation {
    match acc
    case None => x
    case Some(y) =>
      if x == y then x
      else if InGreaterFamily(x) && InGreaterFamily(y) then GreaterEqual
      else if InLessFamily(x) && InLessFamily(y) then LessEqual
      else Relation.Unknown
  }

  lemma WideningAssociative(x: Relation, y: Relation, z: Relation)
    ensures Join(WideningUnion, x, Join(WideningUnion, y, z))
         == Join(WideningUnion, Join(WideningUnion, x, y), z)
  {
  }

  lemma WideningCommutes(x: Relation, y: Relation)
    ensures Join(WideningUnion, x, y) == Join(WideningUnion, y, x)
  {
  }

  lemma WideningUnionIsJoin()
    ensures IsJoin(WideningUnion)
  {
    forall x ensures WideningUnion(x, None) == x {
    }
    forall x ensures Join(WideningUnion, x, x) == x {
    }
    forall x, y ensures Join(WideningUnion, x, y) == Join(WideningUnion, y, x) {
      WideningCommutes(x, y);
    }
    forall x, y, z
      ensures Join(WideningUnion, x, Join(WideningUnion, y, z))
           == Join(WideningUnion, Join(WideningUnion, x, y), z)
    {
      WideningAssociative(x, y, z);
    }
  }

  lemma WideningUnionSwaps(x: Relation, acc: Option<Relation>)
    ensures WideningUnion(Swap(x), SwapOption(acc)) == Swap(WideningUnion(x, acc))
  {
  }

  lemma WideningUnionWidens(x: Relation, y: Relation, o: Ordering)
    ensures Admits(x, o) ==> Admits(WideningUnion(x, Some(y)), o)
    ensures Admits(y, o) ==> Admits(WideningUnion(x, Some(y)), o)
  {
  }

  /** This table meets every assumption the merge lemmas make, and
      reproduces the unions the merge test observes. */
  lemma WideningUnionIsSoundJoin()
    ensures IsJoin(WideningUnion)
    ensures CommutesWithSwap(WideningUnion)
    ensures Widens(WideningUnion)
    ensures WideningUnion(GreaterThan, Some(GreaterThan)) == GreaterThan
    ensures WideningUnion(LessEqual, Some(LessThan)) == LessEqual
    ensures WideningUnion(GreaterThan, Some(LessThan)) == Relation.Unknown
    ensures WideningUnion(EqualTo, Some(GreaterThan)) == GreaterEqual
  {
    WideningUnionIsJoin();
    forall x, acc ensures WideningUnion(Swap(x), SwapOption(acc)) == Swap(WideningUnion(x, acc)) {
      WideningUnionSwaps(x, acc);
    }
    forall x, y, o ensures Admits(y, o) ==> Admits(WideningUnion(x, Some(y)), o) {
      WideningUnionWidens(x, y, o);
    }
    forall x, acc, o ensures Admits(x, o) ==> Admits(WideningUnion(x, acc), o) {
      if acc.Some? { WideningUnionWidens(x, acc.value, o); }
    }
  }
}
