/**
 * The unit scenarios of `ExecutionStateTest`, replayed on the model: each
 * lemma builds the same states and writes and proves the answers the test
 * expects, for every choice of the values involved.
 */
module Scenarios {
  import opened Wrappers
  import opened Symbolic
  import opened States
  import opened Merge

  const Empty: Arena := Arena([], [])

  /** `test_get_set_relation`, on a fresh root `s` (as `AddState(Empty, None)`
      makes, see `FreshRoot`): it answers UNKNOWN; a self pair is not stored;
      a write is stored twice and read back in both directions. */
  lemma RelationScenario(a0: Arena, s: nat, x: Value, y: Value)
    requires Valid(a0) && s < |a0.parent| && a0.parent[s].None? && a0.relations[s] == map[]
    requires x != y
    ensures
      var a1 := SetRelation(a0, s, x, GreaterEqual, x);
      var a2 := SetRelation(a1, s, x, GreaterEqual, y);
      && GetRelation(a0, s, x, y) == Relation.Unknown
      && |a1.relations[s]| == 0
      && |a2.relations[s]| == 2
      && GetRelation(a2, s, x, y) == GreaterEqual && GetRelation(a2, s, y, x) == LessEqual
  {
    LookupStep(a0, s, x, y);
    SelfPairIgnored(a0, s, x, GreaterEqual);
    WriteOnEmpty(a0, s, x, GreaterEqual, y);
  }

  /** The test's first state is a fresh root. */
  lemma FreshRoot()
    ensures var a0 := AddState(Empty, None);
      |a0.parent| == 1 && a0.parent[0].None? && a0.relations[0] == map[]
  {
  }

  /** A self pair is never stored. */
  lemma SelfPairIgnored(a: Arena, s: nat, x: Value, rel: Relation)
    requires Valid(a) && s < |a.parent|
    ensures SetRelation(a, s, x, rel, x) == a
  {
  }

  /** A write into an empty store leaves exactly the pair and its mirror. */
  lemma WriteOnEmpty(a: Arena, s: nat, x: Value, rel: Relation, y: Value)
    requires Valid(a) && s < |a.parent| && x != y && a.relations[s] == map[]
    ensures var b := SetRelation(a, s, x, rel, y);
      |b.relations[s]| == 2 && GetRelation(b, s, x, y) == rel && GetRelation(b, s, y, x) == Swap(rel)
  {
  }

  /** `test_get_set_relation`, continued on a child of a root that relates the
      two values: the child inherits the relation with an empty store of its
      own, and shadows it with its own write while the root keeps the old
      relation. */
  lemma ShadowScenario(a: Arena, x: Value, y: Value)
    requires Valid(a) && |a.parent| == 1 && x != y
    requires GetRelation(a, 0, x, y) == GreaterEqual && GetRelation(a, 0, y, x) == LessEqual
    ensures
      var a3 := AddState(a, Some(0));
      var a4 := SetRelation(a3, 1, x, GreaterThan, y);
      && |a3.relations[1]| == 0
      && GetRelation(a3, 1, x, y) == GreaterEqual && GetRelation(a3, 1, y, x) == LessEqual
      && |a4.relations[1]| == 2
      && GetRelation(a4, 1, x, y) == GreaterThan && GetRelation(a4, 1, y, x) == LessThan
      && GetRelation(a4, 0, x, y) == GreaterEqual
  {
    var a3 := AddState(a, Some(0));
    FreshStateAnswers(a, Some(0), x, y);
    FreshStateAnswers(a, Some(0), y, x);
    AddStateKeepsAnswers(a, Some(0), 0, x, y);
    assert !Descends(a3.parent, 0, 1);
    SetRelationShadows(a3, 1, x, GreaterThan, y, 0, (x, y));
  }

  /** `test_get_set_boolean_constraint`: UNKNOWN by default, FALSE once set,
      inherited by a child, shadowed by the child's TRUE while the parent
      keeps FALSE. */
  lemma BooleanScenario(v: VariableValue)
    ensures
      var a0 := AddState(Empty, None);
      var a1 := SetBooleanConstraint(a0, 0, v, False);
      var a2 := AddState(a1, Some(0));
      var a3 := SetBooleanConstraint(a2, 1, v, True);
      && GetBooleanConstraint(a0, 0, v) == BooleanConstraint.Unknown
      && GetBooleanConstraint(a1, 0, v) == False
      && GetBooleanConstraint(a2, 1, v) == False
      && GetBooleanConstraint(a3, 0, v) == False
      && GetBooleanConstraint(a3, 1, v) == True
  {
    var a0 := AddState(Empty, None);
    FreshStateAnswers(Empty, None, v, BooleanTrue);
    var a1 := SetBooleanConstraint(a0, 0, v, False);
    var a2 := AddState(a1, Some(0));
    FreshStateAnswers(a1, Some(0), v, BooleanTrue);
    AddStateKeepsAnswers(a1, Some(0), 0, v, BooleanTrue);
    var a3 := SetBooleanConstraint(a2, 1, v, True);
    assert !Descends(a2.parent, 0, 1);
    OnlyStoreChangedIsLocal(a2, a3, 1, 0, (v, BooleanTrue));
  }

  /** The tree of `test_merge_relations`: 0 is the parent state, 1 the
      receiver, 2 the first child, 3 → 4 → 5 the second branch and
      6 → 7 → 8 the third. */
  const TreeParents: seq<Option<nat>> := [None, Some(0), Some(1), Some(1), Some(3), Some(4), Some(1), Some(6), Some(7)]

  /** `st` holds `rel` for the pair and its swap for the mirror. */
  predicate Holds(st: Store, x: Value, rel: Relation, y: Value) {
    (x, y) in st && st[(x, y)] == rel && (y, x) in st && st[(y, x)] == Swap(rel)
  }

  /** `st` holds nothing for the pair in either direction. */
  predicate Lacks(st: Store, x: Value, y: Value) {
    (x, y) !in st && (y, x) !in st
  }

  /** First half of `test_merge_relations`: the parent and the three
      branches all hold GREATER_THAN, so the merge folds GREATER_THAN, which
      the receiver already inherits: nothing is written locally and the
      receiver still answers GREATER_THAN and its swap. */
  lemma MergeScenarioInherited(a: Arena, x: Value, y: Value)
    requires Valid(a) && a.parent == TreeParents && x != y
    requires Holds(a.relations[0], x, GreaterThan, y) && Lacks(a.relations[1], x, y)
    requires Holds(a.relations[2], x, GreaterThan, y) && Holds(a.relations[3], x, GreaterThan, y)
    requires Lacks(a.relations[4], x, y) && Lacks(a.relations[5], x, y)
    requires Holds(a.relations[8], x, GreaterThan, y)
    ensures SiblingsBelow(a, 1, [2, 5, 8])
    ensures
      var b := MergeRelations(WideningUnion, a, 1, [2, 5, 8]);
      && Lacks(b.relations[1], x, y)
      && GetRelation(b, 1, x, y) == GreaterThan && GetRelation(b, 1, y, x) == LessThan
  {
    InheritedFromRoot(a, (x, y), GreaterThan);
    InheritedFromRoot(a, (y, x), LessThan);
    MergedScenarioPair(a, x, y, GreaterThan, GreaterThan, GreaterThan, GreaterThan);
    MergedScenarioPair(a, y, x, LessThan, LessThan, LessThan, LessThan);
  }

  /** Second half: the parent now holds UNKNOWN and the branches LESS_THAN,
      LESS_EQUAL and LESS_EQUAL, which widen to LESS_EQUAL; the receiver
      answers that and its swap. */
  lemma MergeScenarioWidened(a: Arena, x: Value, y: Value)
    requires Valid(a) && a.parent == TreeParents && x != y
    requires Holds(a.relations[2], x, LessThan, y) && Holds(a.relations[3], x, LessEqual, y)
    requires Lacks(a.relations[4], x, y) && Lacks(a.relations[5], x, y)
    requires Holds(a.relations[8], x, LessEqual, y)
    ensures SiblingsBelow(a, 1, [2, 5, 8])
    ensures
      var b := MergeRelations(WideningUnion, a, 1, [2, 5, 8]);
      GetRelation(b, 1, x, y) == LessEqual && GetRelation(b, 1, y, x) == GreaterEqual
  {
    assert WideningUnion(LessEqual, Some(LessThan)) == LessEqual;
    assert WideningUnion(GreaterEqual, Some(GreaterThan)) == GreaterEqual;
    MergedScenarioPair(a, x, y, LessThan, LessEqual, LessEqual, LessEqual);
    MergedScenarioPair(a, y, x, GreaterThan, GreaterEqual, GreaterEqual, GreaterEqual);
  }

  /** One pair of the scenario: the siblings answer `r2`, `r5`, `r8`, whose
      widening fold `m` the receiver answers after the merge, keeping its own
      store unchanged at the pair when it already answered `m`. */
  lemma MergedScenarioPair(a: Arena, x: Value, y: Value, r2: Relation, r5: Relation, r8: Relation, m: Relation)
    requires Valid(a) && a.parent == TreeParents
    requires (x, y) in a.relations[2] && a.relations[2][(x, y)] == r2
    requires (x, y) !in a.relations[5] && (x, y) !in a.relations[4]
    requires (x, y) in a.relations[3] && a.relations[3][(x, y)] == r5
    requires (x, y) in a.relations[8] && a.relations[8][(x, y)] == r8
    requires m == WideningUnion(r8, Some(WideningUnion(r5, Some(WideningUnion(r2, None)))))
    ensures SiblingsBelow(a, 1, [2, 5, 8])
    ensures GetRelation(MergeRelations(WideningUnion, a, 1, [2, 5, 8]), 1, x, y) == m
    ensures GetRelation(a, 1, x, y) == m ==>
      SameAt(a.relations[1], MergeRelations(WideningUnion, a, 1, [2, 5, 8]).relations[1], (x, y))
  {
    ScenarioAnswers(a, x, y, r2, r5, r8);
    FoldThree(r2, r5, r8, m);
    MergedFromAnswers(a, (x, y), [r2, r5, r8], m);
  }

  /** The widening fold of three answers, in sibling order. */
  lemma FoldThree(r2: Relation, r5: Relation, r8: Relation, m: Relation)
    requires m == WideningUnion(r8, Some(WideningUnion(r5, Some(WideningUnion(r2, None)))))
    ensures FoldUnion(WideningUnion, [r2, r5, r8]) == Some(m)
  {
    assert [r2, r5, r8][..2] == [r2, r5];
    assert [r2, r5][..1] == [r2];
    assert [r2][..0] == [];
    assert FoldUnion(WideningUnion, []) == None;
    assert FoldUnion(WideningUnion, [r2]) == Some(WideningUnion(r2, None));
    assert FoldUnion(WideningUnion, [r2, r5]) == Some(WideningUnion(r5, Some(WideningUnion(r2, None))));
  }

  /** The receiver answers what the root stores when it stores nothing itself. */
  lemma InheritedFromRoot(a: Arena, p: Pair, r: Relation)
    requires Valid(a) && a.parent == TreeParents
    requires p in a.relations[0] && a.relations[0][p] == r && p !in a.relations[1]
    ensures GetRelation(a, 1, p.0, p.1) == r
  {
    LookupStep(a, 0, p.0, p.1);
    LookupStep(a, 1, p.0, p.1);
  }

  /** A discovered pair whose siblings' answers fold to `m` is answered `m`
      by the receiver after the merge, and stays unwritten when the receiver
      already answered `m`. */
  lemma MergedFromAnswers(a: Arena, p: Pair, xs: seq<Relation>, m: Relation)
    requires Valid(a) && SiblingsBelow(a, 1, [2, 5, 8]) && p in Discovered(a, 1, [2, 5, 8])
    requires Answers(a, [2, 5, 8], p) == xs && FoldUnion(WideningUnion, xs) == Some(m)
    ensures GetRelation(MergeRelations(WideningUnion, a, 1, [2, 5, 8]), 1, p.0, p.1) == m
    ensures GetRelation(a, 1, p.0, p.1) == m ==>
      SameAt(a.relations[1], MergeRelations(WideningUnion, a, 1, [2, 5, 8]).relations[1], p)
  {
    assert Merged(WideningUnion, a, [2, 5, 8], p) == m;
  }

  lemma TreeSiblings(a: Arena)
    requires Valid(a) && a.parent == TreeParents
    ensures SiblingsBelow(a, 1, [2, 5, 8])
  {
    var sibs := [2, 5, 8];
    assert Descends(a.parent, 2, 1);
    assert Descends(a.parent, 4, 1);
    assert Descends(a.parent, 5, 1);
    assert Descends(a.parent, 7, 1);
    assert Descends(a.parent, 8, 1);
    forall k | 0 <= k < 3 ensures Descends(a.parent, sibs[k], 1) {
    }
  }

  /** The pair is discovered below the receiver, and the siblings answer `r2`, `r5`, `r8`. */
  lemma ScenarioAnswers(a: Arena, x: Value, y: Value, r2: Relation, r5: Relation, r8: Relation)
    requires Valid(a) && a.parent == TreeParents
    requires (x, y) in a.relations[2] && a.relations[2][(x, y)] == r2
    requires (x, y) !in a.relations[5] && (x, y) !in a.relations[4]
    requires (x, y) in a.relations[3] && a.relations[3][(x, y)] == r5
    requires (x, y) in a.relations[8] && a.relations[8][(x, y)] == r8
    ensures SiblingsBelow(a, 1, [2, 5, 8])
    ensures (x, y) in Discovered(a, 1, [2, 5, 8])
    ensures Answers(a, [2, 5, 8], (x, y)) == [r2, r5, r8]
  {
    TreeSiblings(a);
    TreeDiscovered(a, (x, y));
    TreeGets(a, x, y, r2, r5, r8);
    AnswersOfThree(a, [2, 5, 8], (x, y));
  }

  lemma TreeDiscovered(a: Arena, p: Pair)
    requires Valid(a) && a.parent == TreeParents && p in a.relations[2]
    ensures SiblingsBelow(a, 1, [2, 5, 8]) && p in Discovered(a, 1, [2, 5, 8])
  {
    TreeSiblings(a);
    assert Descends(a.parent, 2, 1);
    assert Between(a, 2, 1, 2);
    var sibs := [2, 5, 8];
    assert p in PairsBelow(a, sibs[0], 1);
  }

  lemma TreeGets(a: Arena, x: Value, y: Value, r2: Relation, r5: Relation, r8: Relation)
    requires Valid(a) && a.parent == TreeParents
    requires (x, y) in a.relations[2] && a.relations[2][(x, y)] == r2
    requires (x, y) !in a.relations[5] && (x, y) !in a.relations[4]
    requires (x, y) in a.relations[3] && a.relations[3][(x, y)] == r5
    requires (x, y) in a.relations[8] && a.relations[8][(x, y)] == r8
    ensures GetRelation(a, 2, x, y) == r2 && GetRelation(a, 5, x, y) == r5 && GetRelation(a, 8, x, y) == r8
  {
    LookupStep(a, 2, x, y);
    LookupStep(a, 3, x, y);
    LookupStep(a, 4, x, y);
    LookupStep(a, 5, x, y);
    LookupStep(a, 8, x, y);
  }

  lemma AnswersOfThree(a: Arena, sibs: seq<nat>, p: Pair)
    requires Valid(a) && |sibs| == 3 && AllStates(a, sibs)
    ensures Answers(a, sibs, p)
         == [GetRelation(a, sibs[0], p.0, p.1), GetRelation(a, sibs[1], p.0, p.1), GetRelation(a, sibs[2], p.0, p.1)]
  {
    var xs := Answers(a, sibs, p);
    assert xs[0] == GetRelation(a, sibs[0], p.0, p.1);
    assert xs[1] == GetRelation(a, sibs[1], p.0, p.1);
    assert xs[2] == GetRelation(a, sibs[2], p.0, p.1);
  }
}
