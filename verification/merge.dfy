/**
 * `mergeRelations`: the join of execution states at a control-flow merge
 * point. The receiver is the common ancestor of the sibling states; for every
 * pair that some state strictly between a sibling and the receiver stores,
 * the receiver takes the union of what the siblings answer for that pair.
 */
module Merge {
  import opened Wrappers
  import opened Symbolic
  import opened States

  /** Every sibling is the receiver or one of its descendants; the source's
      walk up from a sibling only stops on reaching the receiver. */
  predicate SiblingsBelow(a: Arena, r: nat, sibs: seq<nat>)
    requires Valid(a)
  {
    r < |a.parent| && AllStates(a, sibs) && forall k | 0 <= k < |sibs| :: Descends(a.parent, sibs[k], r)
  }

  predicate AllStates(a: Arena, sibs: seq<nat>) {
    forall k | 0 <= k < |sibs| :: sibs[k] < |a.parent|
  }

  /** State `i` lies on the chain of `s` strictly below `r`. */
  ghost predicate Between(a: Arena, s: nat, r: nat, i: nat)
    requires Valid(a) && s < |a.parent|
  {
    i < |a.parent| && Descends(a.parent, s, i) && Descends(a.parent, i, r) && i != r
  }

  /** The pairs stored by the states from `s` up to, but excluding, `r`: the
      walk of `findRelatedValues(states)` for one sibling. */
  function PairsBelow(a: Arena, s: nat, r: nat): (ps: set<Pair>)
    requires Valid(a) && s < |a.parent| && Descends(a.parent, s, r)
    ensures forall p | p in ps :: exists i: nat :: Between(a, s, r, i) && p in a.relations[i]
    ensures forall i: nat, p | Between(a, s, r, i) && p in a.relations[i] :: p in ps
    decreases s
  {
    if s == r then
      assert forall i: nat | Between(a, s, r, i) :: false by {
        forall i: nat | Between(a, s, r, i) ensures false {
          DescendsBelow(a.parent, s, i);
          DescendsBelow(a.parent, i, r);
        }
      }
      {}
    else
      var q := a.parent[s].value;
      var rest := PairsBelow(a, q, r);
      assert forall i: nat | Between(a, q, r, i) :: Between(a, s, r, i);
      assert forall i: nat | Between(a, s, r, i) && i != s :: Between(a, q, r, i);
      a.relations[s].Keys + rest
  }

  /** The pairs `findRelatedValues(states)` collects over all siblings. */
  function Discovered(a: Arena, r: nat, sibs: seq<nat>): set<Pair>
    requires Valid(a) && SiblingsBelow(a, r, sibs)
  {
    set k, p | 0 <= k < |sibs| && p in PairsBelow(a, sibs[k], r) :: p
  }

  /** What each sibling answers for `p`, in the order the siblings are given. */
  function Answers(a: Arena, sibs: seq<nat>, p: Pair): (xs: seq<Relation>)
    requires Valid(a) && AllStates(a, sibs)
    ensures |xs| == |sibs|
    ensures forall k | 0 <= k < |sibs| :: xs[k] == GetRelation(a, sibs[k], p.0, p.1)
  {
    if |sibs| == 0 then []
    else
      var init := sibs[..|sibs| - 1];
      assert AllStates(a, init) by {
        forall k | 0 <= k < |init| ensures init[k] < |a.parent| {
          assert init[k] == sibs[k];
        }
      }
      var xs := Answers(a, init, p) + [GetRelation(a, sibs[|sibs| - 1], p.0, p.1)];
      assert forall k | 0 <= k < |sibs| :: xs[k] == GetRelation(a, sibs[k], p.0, p.1) by {
        forall k | 0 <= k < |sibs| ensures xs[k] == GetRelation(a, sibs[k], p.0, p.1) {
          if k < |init| {
            assert init[k] == sibs[k];
          }
        }
      }
      xs
  }

  /** The inner loop of `mergeRelations`: starting from null, each sibling's
      answer is unioned with the accumulator, in order. */
  function FoldUnion(union: UnionOp, xs: seq<Relation>): (acc: Option<Relation>)
    ensures acc.None? <==> |xs| == 0
  {
    if |xs| == 0 then None
    else Some(union(xs[|xs| - 1], FoldUnion(union, xs[..|xs| - 1])))
  }

  /** The relation the merge computes for `p`; UNKNOWN when there are no siblings. */
  function Merged(union: UnionOp, a: Arena, sibs: seq<nat>, p: Pair): Relation
    requires Valid(a) && AllStates(a, sibs)
  {
    FoldUnion(union, Answers(a, sibs, p)).GetOr(Relation.Unknown)
  }

  /** The discovered pairs whose merged relation differs from what the receiver
      answers before the merge: the only ones written. */
  function Changed(union: UnionOp, a: Arena, r: nat, sibs: seq<nat>): set<Pair>
    requires Valid(a) && SiblingsBelow(a, r, sibs)
  {
    set p | p in Discovered(a, r, sibs) && GetRelation(a, r, p.0, p.1) != Merged(union, a, sibs, p)
  }

  /** The merged relation of every written pair. */
  function MergedValues(union: UnionOp, a: Arena, r: nat, sibs: seq<nat>): (vals: map<Pair, Relation>)
    requires Valid(a) && SiblingsBelow(a, r, sibs)
    ensures vals.Keys == Changed(union, a, r, sibs)
  {
    map p | p in Changed(union, a, r, sibs) :: Merged(union, a, sibs, p)
  }

  /** `st` with the pairs of `w` set to their values in `vals`. */
  function Overlay(st: Store, w: set<Pair>, vals: map<Pair, Relation>): Store
    requires w <= vals.Keys
  {
    map p | p in st.Keys + w :: if p in w then vals[p] else st[p]
  }

  /** The receiver's store after the merge: the written pairs hold their fold. */
  function MergedStore(union: UnionOp, a: Arena, r: nat, sibs: seq<nat>): Store
    requires Valid(a) && SiblingsBelow(a, r, sibs)
  {
    var vals := MergedValues(union, a, r, sibs);
    Overlay(a.relations[r], vals.Keys, vals)
  }

  /** `mergeRelations(states)` on receiver `r`. Every fold reads the states as
      they were before the merge; `MergeLoop` below is the loop as written and
      `MergeLoopAgrees` shows when the two coincide. */
  function MergeRelations(union: UnionOp, a: Arena, r: nat, sibs: seq<nat>): (b: Arena)
    requires Valid(a) && SiblingsBelow(a, r, sibs)
    ensures Valid(b) && OnlyStoreChanged(a, b, r)
    ensures forall p | p in Discovered(a, r, sibs) ::
      GetRelation(b, r, p.0, p.1) == Merged(union, a, sibs, p)
    ensures forall p | p !in Discovered(a, r, sibs) :: SameAt(a.relations[r], b.relations[r], p)
    ensures forall p: Pair | GetRelation(a, r, p.0, p.1) == Merged(union, a, sibs, p) ::
      SameAt(a.relations[r], b.relations[r], p)
    ensures b.relations[r].Keys == a.relations[r].Keys + Changed(union, a, r, sibs)
    ensures forall p | p in Changed(union, a, r, sibs) :: b.relations[r][p] == Merged(union, a, sibs, p)
  {
    var b := Arena(a.parent, a.relations[r := MergedStore(union, a, r, sibs)]);
    MergeAnswers(union, a, r, sibs, b);
    MergedStoreEntries(union, a, r, sibs);
    b
  }

  /** The receiver's merged store records every changed pair, with its merged
      relation, on top of the entries it already had. */
  lemma MergedStoreEntries(union: UnionOp, a: Arena, r: nat, sibs: seq<nat>)
    requires Valid(a) && SiblingsBelow(a, r, sibs)
    ensures MergedStore(union, a, r, sibs).Keys == a.relations[r].Keys + Changed(union, a, r, sibs)
    ensures forall p | p in Changed(union, a, r, sibs) ::
      MergedStore(union, a, r, sibs)[p] == Merged(union, a, sibs, p)
  {
  }

  lemma MergeAnswers(union: UnionOp, a: Arena, r: nat, sibs: seq<nat>, b: Arena)
    requires Valid(a) && SiblingsBelow(a, r, sibs)
    requires b == Arena(a.parent, a.relations[r := MergedStore(union, a, r, sibs)])
    ensures forall p | p in Discovered(a, r, sibs) ::
      GetRelation(b, r, p.0, p.1) == Merged(union, a, sibs, p)
  {
    forall p | p in Discovered(a, r, sibs)
      ensures GetRelation(b, r, p.0, p.1) == Merged(union, a, sibs, p)
    {
      MergeAnswerAt(union, a, r, sibs, b, p);
    }
  }

  lemma MergeAnswerAt(union: UnionOp, a: Arena, r: nat, sibs: seq<nat>, b: Arena, p: Pair)
    requires Valid(a) && SiblingsBelow(a, r, sibs) && p in Discovered(a, r, sibs)
    requires b == Arena(a.parent, a.relations[r := MergedStore(union, a, r, sibs)])
    ensures GetRelation(b, r, p.0, p.1) == Merged(union, a, sibs, p)
  {
    var vals := MergedValues(union, a, r, sibs);
    if p in vals.Keys {
      assert b.relations[r][p] == vals[p];
      LookupStep(b, r, p.0, p.1);
    } else {
      assert p !in Changed(union, a, r, sibs);
      OtherPairsChangedKeepAnswer(a, b, r, r, p);
    }
  }

  /** When no state strictly between a sibling and the receiver stores `p`,
      the sibling answers what the receiver answers. */
  lemma {:induction false} InheritsFromReceiver(a: Arena, s: nat, r: nat, p: Pair)
    requires Valid(a) && s < |a.parent| && r < |a.parent| && Descends(a.parent, s, r)
    requires p !in PairsBelow(a, s, r)
    ensures GetRelation(a, s, p.0, p.1) == GetRelation(a, r, p.0, p.1)
    decreases s
  {
    if s != r {
      InheritsFromReceiver(a, a.parent[s].value, r, p);
    }
  }

  /** A widening union keeps every ordering any folded answer allows. */
  lemma {:induction false} FoldWidens(union: UnionOp, xs: seq<Relation>, k: nat, o: Ordering)
    requires Widens(union) && k < |xs| && Admits(xs[k], o)
    ensures Admits(FoldUnion(union, xs).value, o)
    decreases |xs|
  {
    var n := |xs| - 1;
    if k < n {
      FoldWidens(union, xs[..n], k, o);
    }
  }

  /** Soundness of the join: after the merge the receiver allows, for every
      pair, every ordering that any sibling allowed before it. */
  lemma MergeIsSound(union: UnionOp, a: Arena, r: nat, sibs: seq<nat>, k: nat, p: Pair, o: Ordering)
    requires Widens(union) && Valid(a) && SiblingsBelow(a, r, sibs) && k < |sibs|
    requires Admits(GetRelation(a, sibs[k], p.0, p.1), o)
    ensures Admits(GetRelation(MergeRelations(union, a, r, sibs), r, p.0, p.1), o)
  {
    var b := MergeRelations(union, a, r, sibs);
    if p in Discovered(a, r, sibs) {
      FoldWidens(union, Answers(a, sibs, p), k, o);
    } else {
      assert p !in PairsBelow(a, sibs[k], r);
      InheritsFromReceiver(a, sibs[k], r, p);
      OtherPairsChangedKeepAnswer(a, b, r, r, p);
    }
  }

  lemma {:induction false} FoldOfEqual(union: UnionOp, xs: seq<Relation>, x: Relation)
    requires union(x, None) == x && Join(union, x, x) == x
    requires |xs| > 0 && forall k | 0 <= k < |xs| :: xs[k] == x
    ensures FoldUnion(union, xs) == Some(x)
    decreases |xs|
  {
    if |xs| > 1 {
      FoldOfEqual(union, xs[..|xs| - 1], x);
    }
  }

  /** When every sibling answers the same relation for a pair, the receiver
      answers it after the merge (given that a lone relation and a relation
      unioned with itself are unchanged). */
  lemma MergeAgreement(union: UnionOp, a: Arena, r: nat, sibs: seq<nat>, p: Pair, x: Relation)
    requires Valid(a) && SiblingsBelow(a, r, sibs) && |sibs| > 0
    requires forall k | 0 <= k < |sibs| :: GetRelation(a, sibs[k], p.0, p.1) == x
    requires union(x, None) == x && Join(union, x, x) == x
    ensures GetRelation(MergeRelations(union, a, r, sibs), r, p.0, p.1) == x
  {
    var b := MergeRelations(union, a, r, sibs);
    if p in Discovered(a, r, sibs) {
      FoldOfEqual(union, Answers(a, sibs, p), x);
    } else {
      assert p !in PairsBelow(a, sibs[0], r);
      InheritsFromReceiver(a, sibs[0], r, p);
      OtherPairsChangedKeepAnswer(a, b, r, r, p);
    }
  }

  function SwapAll(xs: seq<Relation>): (ys: seq<Relation>)
    ensures |ys| == |xs| && forall k | 0 <= k < |xs| :: ys[k] == Swap(xs[k])
  {
    if |xs| == 0 then [] else SwapAll(xs[..|xs| - 1]) + [Swap(xs[|xs| - 1])]
  }

  lemma {:induction false} FoldSwap(union: UnionOp, xs: seq<Relation>)
    requires CommutesWithSwap(union)
    ensures FoldUnion(union, SwapAll(xs)) == SwapOption(FoldUnion(union, xs))
    decreases |xs|
  {
    if |xs| > 0 {
      var n := |xs| - 1;
      FoldSwap(union, xs[..n]);
      SwapStep(union, xs[n], FoldUnion(union, xs[..n]));
    }
  }

  lemma SwapStep(union: UnionOp, x: Relation, acc: Option<Relation>)
    requires CommutesWithSwap(union)
    ensures union(Swap(x), SwapOption(acc)) == Swap(union(x, acc))
  {
  }

  lemma {:induction false} AnswersMirror(a: Arena, sibs: seq<nat>, p: Pair)
    requires Consistent(a) && AllStates(a, sibs)
    ensures Answers(a, sibs, Mirror(p)) == SwapAll(Answers(a, sibs, p))
    decreases |sibs|
  {
    if |sibs| > 0 {
      var n := |sibs| - 1;
      AnswersMirror(a, sibs[..n], p);
      GetMirror(a, sibs[n], p.0, p.1);
    }
  }

  /** With a union that commutes with swapping, the merged relation of the
      exchanged pair is the swapped merged relation. */
  lemma MergedMirror(union: UnionOp, a: Arena, sibs: seq<nat>, p: Pair)
    requires Consistent(a) && AllStates(a, sibs) && CommutesWithSwap(union)
    ensures Merged(union, a, sibs, Mirror(p)) == Swap(Merged(union, a, sibs, p))
  {
    AnswersMirror(a, sibs, p);
    FoldSwap(union, Answers(a, sibs, p));
  }

  /** In a consistent arena the discovered pairs are closed under mirroring and
      contain no self pair. */
  lemma DiscoveredMirrored(a: Arena, r: nat, sibs: seq<nat>, p: Pair)
    requires Consistent(a) && SiblingsBelow(a, r, sibs) && p in Discovered(a, r, sibs)
    ensures p.0 != p.1 && Mirror(p) in Discovered(a, r, sibs)
  {
    var k :| 0 <= k < |sibs| && p in PairsBelow(a, sibs[k], r);
    var i: nat :| Between(a, sibs[k], r, i) && p in a.relations[i];
    assert Mirrored(a.relations[i]);
    assert Mirror(p) in PairsBelow(a, sibs[k], r);
  }

  /** The written pairs are closed under mirroring and contain no self pair. */
  lemma ChangedMirrored(union: UnionOp, a: Arena, r: nat, sibs: seq<nat>, p: Pair)
    requires Consistent(a) && SiblingsBelow(a, r, sibs) && CommutesWithSwap(union)
    requires p in Changed(union, a, r, sibs)
    ensures p.0 != p.1 && Mirror(p) in Changed(union, a, r, sibs)
  {
    DiscoveredMirrored(a, r, sibs, p);
    MergedMirror(union, a, sibs, p);
    GetMirror(a, r, p.0, p.1);
    SwapInvolution(GetRelation(a, r, p.0, p.1));
  }

  lemma MergedStoreEntryMirrored(union: UnionOp, a: Arena, r: nat, sibs: seq<nat>, p: Pair)
    requires Consistent(a) && SiblingsBelow(a, r, sibs) && CommutesWithSwap(union)
    requires p in MergedStore(union, a, r, sibs)
    ensures var st' := MergedStore(union, a, r, sibs);
      p.0 != p.1 && Mirror(p) in st' && st'[Mirror(p)] == Swap(st'[p])
  {
    var w := Changed(union, a, r, sibs);
    var st := a.relations[r];
    assert Mirrored(st);
    if p in w {
      ChangedMirrored(union, a, r, sibs, p);
      MergedMirror(union, a, sibs, p);
    } else {
      assert p in st;
      if Mirror(p) in w {
        ChangedMirrored(union, a, r, sibs, Mirror(p));
        assert false;
      }
    }
  }

  lemma MergedStoreMirrored(union: UnionOp, a: Arena, r: nat, sibs: seq<nat>)
    requires Consistent(a) && SiblingsBelow(a, r, sibs) && CommutesWithSwap(union)
    ensures Mirrored(MergedStore(union, a, r, sibs))
  {
    var st' := MergedStore(union, a, r, sibs);
    forall p | p in st' ensures p.0 != p.1 && Mirror(p) in st' && st'[Mirror(p)] == Swap(st'[p]) {
      MergedStoreEntryMirrored(union, a, r, sibs, p);
    }
  }

  /** Merging keeps the store invariants: no self pairs, mirrored entries. */
  lemma MergeKeepsConsistent(union: UnionOp, a: Arena, r: nat, sibs: seq<nat>)
    requires Consistent(a) && SiblingsBelow(a, r, sibs) && CommutesWithSwap(union)
    ensures Consistent(MergeRelations(union, a, r, sibs))
  {
    MergedStoreMirrored(union, a, r, sibs);
    ReplaceStoreConsistent(a, r, MergedStore(union, a, r, sibs));
  }
}
