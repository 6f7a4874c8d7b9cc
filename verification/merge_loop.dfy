/**
 * The loop of `mergeRelations` as written: the discovered pairs are visited
 * one at a time in the multimap's iteration order, and each fold reads the
 * arena as the earlier iterations left it (a sibling that inherits the pair
 * from the receiver sees the receiver's new entry). This module shows that,
 * for a union that is a join commuting with swap, the loop computes the
 * order-free `MergeRelations` whatever the iteration order.
 */
module MergeOrder {
  import opened Wrappers
  import opened Symbolic
  import opened States
  import opened Merge

  /** One iteration for pair `q`: fold the siblings' current answers and, if
      the receiver currently answers something else, write the fold and its
      swap. */
  function Step(union: UnionOp, a: Arena, r: nat, sibs: seq<nat>, q: Pair): (b: Arena)
    requires Valid(a) && SiblingsBelow(a, r, sibs)
    ensures Valid(b) && OnlyStoreChanged(a, b, r)
    ensures forall p | p != q && p != Mirror(q) :: SameAt(a.relations[r], b.relations[r], p)
    ensures q.0 != q.1 ==> GetRelation(b, r, q.0, q.1) == Merged(union, a, sibs, q)
    ensures Consistent(a) ==> GetRelation(b, r, q.1, q.0) == Swap(Merged(union, a, sibs, q))
  {
    var rel := Merged(union, a, sibs, q);
    if GetRelation(a, r, q.0, q.1) != rel then
      StepWrites(a, r, q, rel);
      Arena(a.parent, a.relations[r := PutMirrored(a.relations[r], q.0, rel, q.1)])
    else
      StepKeepsMirror(a, r, q);
      a
  }

  /** Writing the fold and its swap makes the receiver answer them. */
  lemma StepWrites(a: Arena, r: nat, q: Pair, rel: Relation)
    requires Valid(a) && r < |a.parent|
    ensures var b := Arena(a.parent, a.relations[r := PutMirrored(a.relations[r], q.0, rel, q.1)]);
      && Valid(b)
      && (q.0 != q.1 ==> GetRelation(b, r, q.0, q.1) == rel)
      && GetRelation(b, r, q.1, q.0) == Swap(rel)
  {
    var b := Arena(a.parent, a.relations[r := PutMirrored(a.relations[r], q.0, rel, q.1)]);
    LookupStep(b, r, q.0, q.1);
    LookupStep(b, r, q.1, q.0);
  }

  /** When nothing is written, a consistent receiver already answers the swap
      for the mirror pair. */
  lemma StepKeepsMirror(a: Arena, r: nat, q: Pair)
    requires Valid(a) && r < |a.parent|
    ensures Consistent(a) ==> GetRelation(a, r, q.1, q.0) == Swap(GetRelation(a, r, q.0, q.1))
  {
    if Consistent(a) {
      GetMirror(a, r, q.0, q.1);
    }
  }

  /** The loop over `order`, the pairs in iteration order. Only the receiver's
      store changes, and only at pairs in `order` or their mirrors. */
  function MergeLoop(union: UnionOp, a: Arena, r: nat, sibs: seq<nat>, order: seq<Pair>): (b: Arena)
    requires Valid(a) && SiblingsBelow(a, r, sibs)
    ensures Valid(b) && OnlyStoreChanged(a, b, r)
    ensures forall p | p !in order && Mirror(p) !in order :: SameAt(a.relations[r], b.relations[r], p)
    decreases |order|
  {
    if |order| == 0 then a
    else
      var a' := Step(union, a, r, sibs, order[0]);
      var b := MergeLoop(union, a', r, sibs, order[1..]);
      assert forall p | p !in order && Mirror(p) !in order :: p !in order[1..] && Mirror(p) !in order[1..];
      b
  }

  /** `x` lies below `y` in the order the join induces. */
  predicate Below(union: UnionOp, x: Relation, y: Relation) {
    Join(union, x, y) == y
  }

  lemma JoinLaws(union: UnionOp, x: Relation, y: Relation, z: Relation)
    requires IsJoin(union)
    ensures Join(union, x, y) == Join(union, y, x)
    ensures Join(union, x, Join(union, y, z)) == Join(union, Join(union, x, y), z)
    ensures Join(union, x, x) == x
  {
  }

  lemma BelowTransitive(union: UnionOp, x: Relation, y: Relation, z: Relation)
    requires IsJoin(union) && Below(union, x, y) && Below(union, y, z)
    ensures Below(union, x, z)
  {
    JoinLaws(union, x, y, z);
  }

  lemma BelowAntisymmetric(union: UnionOp, x: Relation, y: Relation)
    requires IsJoin(union) && Below(union, x, y) && Below(union, y, x)
    ensures x == y
  {
    JoinLaws(union, x, y, y);
  }

  /** Every folded answer lies below the fold. */
  lemma {:induction false} ElementBelowFold(union: UnionOp, xs: seq<Relation>, i: nat)
    requires IsJoin(union) && i < |xs|
    ensures Below(union, xs[i], FoldUnion(union, xs).value)
    decreases |xs|
  {
    var n := |xs| - 1;
    if n == 0 {
      assert FoldUnion(union, xs).value == union(xs[0], None) == xs[0];
      JoinLaws(union, xs[0], xs[0], xs[0]);
    } else {
      var v := FoldUnion(union, xs[..n]).value;
      var top := Join(union, xs[n], v);
      assert FoldUnion(union, xs).value == top;
      JoinLaws(union, xs[n], xs[n], v);
      if i < n {
        ElementBelowFold(union, xs[..n], i);
        assert xs[..n][i] == xs[i];
        JoinLaws(union, v, v, xs[n]);
        JoinLaws(union, xs[n], v, v);
        assert Below(union, v, top);
        BelowTransitive(union, xs[i], v, top);
      } else {
        assert Join(union, xs[n], top) == Join(union, Join(union, xs[n], xs[n]), v);
      }
    }
  }

  /** The fold lies below every common upper bound of the folded answers. */
  lemma {:induction false} FoldBelowBound(union: UnionOp, ys: seq<Relation>, m: Relation)
    requires IsJoin(union) && |ys| > 0
    requires forall i | 0 <= i < |ys| :: Below(union, ys[i], m)
    ensures Below(union, FoldUnion(union, ys).value, m)
    decreases |ys|
  {
    var n := |ys| - 1;
    if n > 0 {
      FoldBelowBound(union, ys[..n], m) by {
        assert forall i | 0 <= i < n :: ys[..n][i] == ys[i];
      }
      var v := FoldUnion(union, ys[..n]).value;
      assert FoldUnion(union, ys).value == Join(union, ys[n], v);
      assert Join(union, v, m) == m && Join(union, ys[n], m) == m;
      JoinLaws(union, ys[n], v, m);
    } else {
      assert FoldUnion(union, ys).value == union(ys[0], None) == ys[0];
    }
  }

  /** Replacing each folded answer by one between it and the fold leaves the
      fold unchanged. */
  lemma FoldSandwich(union: UnionOp, xs: seq<Relation>, ys: seq<Relation>)
    requires IsJoin(union) && |xs| == |ys| > 0
    requires forall i | 0 <= i < |xs| ::
      Below(union, xs[i], ys[i]) && Below(union, ys[i], FoldUnion(union, xs).value)
    ensures FoldUnion(union, ys) == FoldUnion(union, xs)
  {
    var m := FoldUnion(union, xs).value;
    var m' := FoldUnion(union, ys).value;
    FoldBelowBound(union, ys, m);
    forall i | 0 <= i < |xs| ensures Below(union, xs[i], m') {
      ElementBelowFold(union, ys, i);
      BelowTransitive(union, xs[i], ys[i], m');
    }
    FoldBelowBound(union, xs, m');
    BelowAntisymmetric(union, m, m');
  }

  /** Changing only the receiver's store changes no pair found below it. */
  lemma {:induction false} PairsBelowFrame(a: Arena, b: Arena, s: nat, r: nat)
    requires Valid(a) && s < |a.parent| && Descends(a.parent, s, r) && OnlyStoreChanged(a, b, r)
    ensures Valid(b) && PairsBelow(b, s, r) == PairsBelow(a, s, r)
    decreases s
  {
    if s != r {
      assert b.relations[s] == a.relations[s];
      PairsBelowFrame(a, b, a.parent[s].value, r);
    }
  }

  /** A pair stored strictly below the receiver is answered from below it, so
      changing only the receiver's store does not change the answer. */
  lemma {:induction false} GetBelowFrame(a: Arena, b: Arena, s: nat, r: nat, q: Pair)
    requires Valid(a) && s < |a.parent| && Descends(a.parent, s, r) && OnlyStoreChanged(a, b, r)
    requires q in PairsBelow(a, s, r)
    ensures Valid(b) && GetRelation(b, s, q.0, q.1) == GetRelation(a, s, q.0, q.1)
    decreases s
  {
    assert s != r;
    assert b.relations[s] == a.relations[s];
    if q !in a.relations[s] {
      GetBelowFrame(a, b, a.parent[s].value, r, q);
    }
  }

  /** The pairs of `c` that are in `done` or whose mirror is. */
  function SettledOf(c: set<Pair>, done: set<Pair>): (w: set<Pair>)
    ensures w <= c
    ensures forall p :: p in w <==> p in c && (p in done || Mirror(p) in done)
  {
    set p | p in c && (p in done || Mirror(p) in done)
  }

  lemma SettledOfGrows(c: set<Pair>, done: set<Pair>, q: Pair)
    ensures SettledOf(c, done + {q}) == SettledOf(c, done) + ({q, Mirror(q)} * c)
  {
    forall p ensures p in SettledOf(c, done + {q}) <==> p in SettledOf(c, done) + ({q, Mirror(q)} * c) {
      assert Mirror(p) == q <==> p == Mirror(q);
    }
  }

  lemma SettledOfEnds(c: set<Pair>, d: set<Pair>)
    requires c <= d
    ensures SettledOf(c, {}) == {}
    ensures SettledOf(c, d) == c
  {
  }

  lemma OverlayEmpty(st: Store, vals: map<Pair, Relation>)
    ensures Overlay(st, {}, vals) == st
  {
  }

  lemma OverlayPut(st: Store, w: set<Pair>, vals: map<Pair, Relation>, q: Pair, q': Pair)
    requires w <= vals.Keys && q in vals && q' in vals && q != q'
    ensures Overlay(st, w + {q, q'}, vals) == Overlay(st, w, vals)[q := vals[q]][q' := vals[q']]
  {
  }

  /** The receiver's store once the pairs in `done` have been visited. */
  function StoreAfter(union: UnionOp, a: Arena, r: nat, sibs: seq<nat>, done: set<Pair>): Store
    requires Valid(a) && SiblingsBelow(a, r, sibs)
  {
    var vals := MergedValues(union, a, r, sibs);
    Overlay(a.relations[r], SettledOf(vals.Keys, done), vals)
  }

  function ArenaAfter(union: UnionOp, a: Arena, r: nat, sibs: seq<nat>, done: set<Pair>): (b: Arena)
    requires Valid(a) && SiblingsBelow(a, r, sibs)
    ensures Valid(b) && OnlyStoreChanged(a, b, r)
  {
    Arena(a.parent, a.relations[r := StoreAfter(union, a, r, sibs, done)])
  }

  /** Before the first iteration nothing is written; once every discovered
      pair is visited the store is the order-free merge's. */
  lemma ArenaAfterEnds(union: UnionOp, a: Arena, r: nat, sibs: seq<nat>)
    requires Valid(a) && SiblingsBelow(a, r, sibs)
    ensures ArenaAfter(union, a, r, sibs, {}) == a
    ensures ArenaAfter(union, a, r, sibs, Discovered(a, r, sibs)) == MergeRelations(union, a, r, sibs)
  {
    var vals := MergedValues(union, a, r, sibs);
    SettledOfEnds(vals.Keys, Discovered(a, r, sibs));
    OverlayEmpty(a.relations[r], vals);
    assert a.relations[r := a.relations[r]] == a.relations;
  }

  /** Siblings' answers about `q` survive a change of the receiver's store
      that leaves `q` alone. */
  lemma {:induction false} AnswersAgree(a: Arena, b: Arena, r: nat, sibs: seq<nat>, q: Pair)
    requires Valid(a) && AllStates(a, sibs) && r < |a.parent| && OnlyStoreChanged(a, b, r)
    requires SameAt(a.relations[r], b.relations[r], q)
    ensures Valid(b) && Answers(b, sibs, q) == Answers(a, sibs, q)
    decreases |sibs|
  {
    if |sibs| > 0 {
      var n := |sibs| - 1;
      AnswersAgree(a, b, r, sibs[..n], q);
      OtherPairsChangedKeepAnswer(a, b, r, sibs[n], q);
    }
  }

  /** Visiting a pair whose mirror is still unvisited: nothing it reads has
      changed yet, so it writes exactly what the order-free merge writes. */
  lemma StepFresh(union: UnionOp, a: Arena, r: nat, sibs: seq<nat>, done: set<Pair>, q: Pair)
    requires Consistent(a) && SiblingsBelow(a, r, sibs) && CommutesWithSwap(union)
    requires q in Discovered(a, r, sibs) && q !in done && Mirror(q) !in done
    ensures Step(union, ArenaAfter(union, a, r, sibs, done), r, sibs, q)
         == ArenaAfter(union, a, r, sibs, done + {q})
  {
    var ak := ArenaAfter(union, a, r, sibs, done);
    var c := MergedValues(union, a, r, sibs).Keys;
    assert q !in SettledOf(c, done);
    assert SameAt(a.relations[r], ak.relations[r], q);
    AnswersAgree(a, ak, r, sibs, q);
    OtherPairsChangedKeepAnswer(a, ak, r, r, q);
    SettledOfGrows(c, done, q);
    if q in c {
      StepFreshWrites(union, a, r, sibs, done, q);
    } else {
      if Mirror(q) in c {
        ChangedMirrored(union, a, r, sibs, Mirror(q));
        assert false;
      }
      SettledOfSkips(c, done, q);
    }
  }

  /** The write of a fresh changed pair is the overlay of the pair and its mirror. */
  lemma StepFreshWrites(union: UnionOp, a: Arena, r: nat, sibs: seq<nat>, done: set<Pair>, q: Pair)
    requires Consistent(a) && SiblingsBelow(a, r, sibs) && CommutesWithSwap(union)
    requires q in Changed(union, a, r, sibs) && q !in done && Mirror(q) !in done
    ensures
      var ak := ArenaAfter(union, a, r, sibs, done);
      Arena(ak.parent, ak.relations[r := PutMirrored(ak.relations[r], q.0, Merged(union, a, sibs, q), q.1)])
        == ArenaAfter(union, a, r, sibs, done + {q})
  {
    var vals := MergedValues(union, a, r, sibs);
    var c := vals.Keys;
    var w := SettledOf(c, done);
    var m := Merged(union, a, sibs, q);
    ChangedMirrored(union, a, r, sibs, q);
    MergedMirror(union, a, sibs, q);
    assert vals[q] == m && vals[Mirror(q)] == Swap(m);
    SettledOfGrowsBoth(c, done, q);
    OverlayPut(a.relations[r], w, vals, q, Mirror(q));
    var ak := ArenaAfter(union, a, r, sibs, done);
    var st' := StoreAfter(union, a, r, sibs, done + {q});
    assert PutMirrored(ak.relations[r], q.0, m, q.1) == st';
    UpdateOverwrite(a.relations, r, StoreAfter(union, a, r, sibs, done), st');
  }

  /** Visiting a pair whose mirror was already visited writes nothing: the
      receiver already answers the fold, and a sibling that inherits the pair
      from the receiver now reads the fold itself, which a join absorbs. */
  lemma StepSettled(union: UnionOp, a: Arena, r: nat, sibs: seq<nat>, done: set<Pair>, q: Pair)
    requires Consistent(a) && SiblingsBelow(a, r, sibs) && IsJoin(union)
    requires q in Discovered(a, r, sibs) && Mirror(q) in done
    ensures Step(union, ArenaAfter(union, a, r, sibs, done), r, sibs, q)
         == ArenaAfter(union, a, r, sibs, done + {q})
  {
    var ak := ArenaAfter(union, a, r, sibs, done);
    SettledOfAbsorbs(MergedValues(union, a, r, sibs).Keys, done, q);
    ReceiverSettled(union, a, r, sibs, done, q);
    FoldAbsorbs(union, a, ak, r, sibs, q);
  }

  lemma SettledOfGrowsBoth(c: set<Pair>, done: set<Pair>, q: Pair)
    requires q in c && Mirror(q) in c
    ensures SettledOf(c, done + {q}) == SettledOf(c, done) + {q, Mirror(q)}
  {
    SettledOfGrows(c, done, q);
  }

  lemma SettledOfSkips(c: set<Pair>, done: set<Pair>, q: Pair)
    requires q !in c && Mirror(q) !in c
    ensures SettledOf(c, done + {q}) == SettledOf(c, done)
  {
    SettledOfGrows(c, done, q);
  }

  lemma UpdateOverwrite(xs: seq<Store>, r: nat, x: Store, y: Store)
    requires r < |xs|
    ensures xs[r := x][r := y] == xs[r := y]
  {
  }

  lemma SettledOfAbsorbs(c: set<Pair>, done: set<Pair>, q: Pair)
    requires Mirror(q) in done
    ensures SettledOf(c, done + {q}) == SettledOf(c, done)
  {
    assert Mirror(Mirror(q)) == q;
  }

  /** Once the receiver answers the fold for `q`, folding again gives the same. */
  lemma FoldAbsorbs(union: UnionOp, a: Arena, ak: Arena, r: nat, sibs: seq<nat>, q: Pair)
    requires Valid(a) && SiblingsBelow(a, r, sibs) && IsJoin(union) && |sibs| > 0
    requires OnlyStoreChanged(a, ak, r)
    requires GetRelation(ak, r, q.0, q.1) == Merged(union, a, sibs, q)
    ensures Merged(union, ak, sibs, q) == Merged(union, a, sibs, q)
  {
    var m := Merged(union, a, sibs, q);
    var xs := Answers(a, sibs, q);
    var ys := Answers(ak, sibs, q);
    forall i | 0 <= i < |sibs|
      ensures Below(union, xs[i], ys[i]) && Below(union, ys[i], m)
    {
      var s := sibs[i];
      ElementBelowFold(union, xs, i);
      JoinLaws(union, xs[i], xs[i], xs[i]);
      JoinLaws(union, m, m, m);
      if q in PairsBelow(a, s, r) {
        GetBelowFrame(a, ak, s, r, q);
      } else {
        PairsBelowFrame(a, ak, s, r);
        InheritsFromReceiver(a, s, r, q);
        InheritsFromReceiver(ak, s, r, q);
      }
    }
    FoldSandwich(union, xs, ys);
  }

  /** Once `q` or its mirror has been visited, the receiver answers the fold for `q`. */
  lemma ReceiverSettled(union: UnionOp, a: Arena, r: nat, sibs: seq<nat>, done: set<Pair>, q: Pair)
    requires Valid(a) && SiblingsBelow(a, r, sibs)
    requires q in Discovered(a, r, sibs) && Mirror(q) in done
    ensures GetRelation(ArenaAfter(union, a, r, sibs, done), r, q.0, q.1) == Merged(union, a, sibs, q)
  {
    var ak := ArenaAfter(union, a, r, sibs, done);
    if q !in Changed(union, a, r, sibs) {
      assert SameAt(a.relations[r], ak.relations[r], q);
      OtherPairsChangedKeepAnswer(a, ak, r, r, q);
    }
  }

  /** The pairs visited in the first `k` iterations. */
  function Prefix(order: seq<Pair>, k: nat): (done: set<Pair>)
    requires k <= |order|
    ensures forall p :: p in done <==> p in order[..k]
  {
    set p | p in order[..k]
  }

  lemma PrefixGrows(order: seq<Pair>, k: nat)
    requires k < |order|
    ensures Prefix(order, k + 1) == Prefix(order, k) + {order[k]}
  {
    assert order[..k + 1] == order[..k] + [order[k]];
  }

  lemma PrefixEnds(order: seq<Pair>, d: set<Pair>)
    requires forall p :: p in order <==> p in d
    ensures Prefix(order, 0) == {}
    ensures Prefix(order, |order|) == d
  {
    assert order[..|order|] == order;
  }

  /** No pair is visited twice. */
  predicate Distinct(order: seq<Pair>) {
    forall i, j | 0 <= i < j < |order| :: order[i] != order[j]
  }

  /** The iterations from `k` on finish the order-free merge, given that the
      first `k` left the arena as `ArenaAfter` of their pairs. */
  lemma {:induction false} LoopFrom(union: UnionOp, a: Arena, r: nat, sibs: seq<nat>, order: seq<Pair>, k: nat)
    requires Consistent(a) && SiblingsBelow(a, r, sibs) && IsJoin(union) && CommutesWithSwap(union)
    requires forall p | p in order :: p in Discovered(a, r, sibs)
    requires Distinct(order) && k <= |order|
    ensures MergeLoop(union, ArenaAfter(union, a, r, sibs, Prefix(order, k)), r, sibs, order[k..])
         == ArenaAfter(union, a, r, sibs, Prefix(order, |order|))
    decreases |order| - k
  {
    if k < |order| {
      var done := Prefix(order, k);
      var q := order[k];
      assert q !in done;
      if Mirror(q) in done {
        StepSettled(union, a, r, sibs, done, q);
      } else {
        StepFresh(union, a, r, sibs, done, q);
      }
      PrefixGrows(order, k);
      assert order[k..][1..] == order[k + 1..];
      LoopFrom(union, a, r, sibs, order, k + 1);
    }
  }

  /** The loop as written computes the order-free merge, whatever order the
      multimap hands out the discovered pairs in, provided the union is a join
      that commutes with swap and the arena keeps its stores mirrored. */
  lemma MergeLoopAgrees(union: UnionOp, a: Arena, r: nat, sibs: seq<nat>, order: seq<Pair>)
    requires Consistent(a) && SiblingsBelow(a, r, sibs) && IsJoin(union) && CommutesWithSwap(union)
    requires forall p :: p in order <==> p in Discovered(a, r, sibs)
    requires Distinct(order)
    ensures MergeLoop(union, a, r, sibs, order) == MergeRelations(union, a, r, sibs)
  {
    LoopFrom(union, a, r, sibs, order, 0);
    ArenaAfterEnds(union, a, r, sibs);
    PrefixEnds(order, Discovered(a, r, sibs));
    assert order[0..] == order;
  }
}
