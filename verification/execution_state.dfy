/**
 * The path-sensitive relation store: a tree of execution states, each holding
 * a local map from ordered pairs of symbolic values to relations and an
 * optional parent. Lookups read up the parent chain; every write stays in the
 * state that receives it.
 *
 * States live in an arena and are named by their index; a parent always has a
 * smaller index than its children, so every walk up the chain terminates.
 */
module States {
  import opened Wrappers
  import opened Symbolic

  type Pair = (Value, Value)

  /** The local store of one state (the source's `relations` table). */
  type Store = map<Pair, Relation>

  /** State i has parent `parent[i]` and local store `relations[i]`. */
  datatype Arena = Arena(parent: seq<Option<nat>>, relations: seq<Store>)

  /** Every parent comes before its children. */
  predicate ParentsBefore(parent: seq<Option<nat>>) {
    forall i | 0 <= i < |parent| :: parent[i].Some? ==> parent[i].value < i
  }

  predicate Valid(a: Arena) {
    |a.parent| == |a.relations| && ParentsBefore(a.parent)
  }

  function Mirror(p: Pair): Pair {
    (p.1, p.0)
  }

  /** The store invariants: no pair relates a value to itself, and every entry
      is stored together with its mirror holding the swapped relation. */
  predicate Mirrored(st: Store) {
    forall p | p in st :: p.0 != p.1 && Mirror(p) in st && st[Mirror(p)] == Swap(st[p])
  }

  predicate Consistent(a: Arena) {
    Valid(a) && forall i | 0 <= i < |a.relations| :: Mirrored(a.relations[i])
  }

  /** `s` is `r` or one of its descendants: `r` lies on the parent chain of `s`. */
  predicate Descends(parent: seq<Option<nat>>, s: nat, r: nat)
    requires ParentsBefore(parent) && s < |parent|
    decreases s
  {
    s == r || (parent[s].Some? && Descends(parent, parent[s].value, r))
  }

  lemma {:induction false} DescendsBelow(parent: seq<Option<nat>>, s: nat, r: nat)
    requires ParentsBefore(parent) && s < |parent|
    ensures Descends(parent, s, r) ==> r <= s
    decreases s
  {
    if s != r && parent[s].Some? {
      DescendsBelow(parent, parent[s].value, r);
    }
  }

  lemma {:induction false} DescendsTransitive(parent: seq<Option<nat>>, s: nat, m: nat, r: nat)
    requires ParentsBefore(parent) && s < |parent| && m < |parent|
    requires Descends(parent, s, m) && Descends(parent, m, r)
    ensures Descends(parent, s, r)
    decreases s
  {
    if s != m {
      DescendsTransitive(parent, parent[s].value, m, r);
    }
  }

  /** Both stores agree on whether `p` is present and on its relation. */
  predicate SameAt(st: Store, st': Store, p: Pair) {
    (p in st <==> p in st') && (p in st ==> st[p] == st'[p])
  }

  /** Some state on the chain of `s` (itself included) stores `p` locally. */
  ghost predicate RecordedOnChain(a: Arena, s: nat, p: Pair)
    requires Valid(a) && s < |a.parent|
  {
    exists i | 0 <= i < |a.parent| && Descends(a.parent, s, i) :: p in a.relations[i]
  }

  /** State `i` is the closest state on the chain of `s` that stores `p`. */
  ghost predicate NearestRecord(a: Arena, s: nat, p: Pair, i: nat)
    requires Valid(a) && s < |a.parent|
  {
    && i < |a.parent|
    && Descends(a.parent, s, i)
    && p in a.relations[i]
    && forall j | 0 <= j < |a.parent| && Descends(a.parent, s, j) && Descends(a.parent, j, i) && j != i ::
         p !in a.relations[j]
  }

  /** `getRelation`: the local entry if there is one, else the parent's
      answer, else UNKNOWN at a root. */
  function GetRelation(a: Arena, s: nat, x: Value, y: Value): Relation
    requires Valid(a) && s < |a.parent|
    decreases s
  {
    if (x, y) in a.relations[s] then a.relations[s][(x, y)]
    else if a.parent[s].Some? then GetRelation(a, a.parent[s].value, x, y)
    else Relation.Unknown
  }

  /** The lookup walk agrees with the declarative reading: UNKNOWN when no
      state on the chain stores the pair, otherwise what the nearest one stores. */
  lemma {:induction false} GetRelationNearest(a: Arena, s: nat, x: Value, y: Value)
    requires Valid(a) && s < |a.parent|
    ensures !RecordedOnChain(a, s, (x, y)) ==> GetRelation(a, s, x, y) == Relation.Unknown
    ensures RecordedOnChain(a, s, (x, y)) ==>
      exists i: nat :: NearestRecord(a, s, (x, y), i) && GetRelation(a, s, x, y) == a.relations[i][(x, y)]
    decreases s
  {
    if (x, y) in a.relations[s] {
      DescendsBelow(a.parent, s, s);
      assert NearestRecord(a, s, (x, y), s) by {
        forall j | 0 <= j < |a.parent| && Descends(a.parent, s, j) && Descends(a.parent, j, s)
          ensures j == s
        {
          DescendsBelow(a.parent, s, j);
          DescendsBelow(a.parent, j, s);
        }
      }
    } else if a.parent[s].Some? {
      var q := a.parent[s].value;
      GetRelationNearest(a, q, x, y);
      assert RecordedOnChain(a, s, (x, y)) ==> RecordedOnChain(a, q, (x, y));
      assert forall i | 0 <= i < |a.parent| && NearestRecord(a, q, (x, y), i) :: NearestRecord(a, s, (x, y), i) by {
        forall i | 0 <= i < |a.parent| && NearestRecord(a, q, (x, y), i)
          ensures NearestRecord(a, s, (x, y), i)
        {
          forall j | 0 <= j < |a.parent| && Descends(a.parent, s, j) && Descends(a.parent, j, i) && j != i
            ensures (x, y) !in a.relations[j]
          {
            if j != s {
              assert Descends(a.parent, q, j);
            }
          }
        }
      }
    }
  }

  /** One step of the lookup: the local entry, else the parent's answer, else UNKNOWN. */
  lemma LookupStep(a: Arena, s: nat, x: Value, y: Value)
    requires Valid(a) && s < |a.parent|
    ensures (x, y) in a.relations[s] ==> GetRelation(a, s, x, y) == a.relations[s][(x, y)]
    ensures (x, y) !in a.relations[s] && a.parent[s].Some? ==>
      GetRelation(a, s, x, y) == GetRelation(a, a.parent[s].value, x, y)
    ensures (x, y) !in a.relations[s] && a.parent[s].None? ==> GetRelation(a, s, x, y) == Relation.Unknown
  {
  }

  /** Two arenas of the same shape whose stores agree on `p` at every state
      on the chain of `s`. */
  ghost predicate AgreeOnChain(a: Arena, b: Arena, s: nat, p: Pair)
    requires Valid(a) && s < |a.parent|
  {
    && b.parent == a.parent
    && |b.relations| == |a.relations|
    && forall j | 0 <= j < |a.parent| && Descends(a.parent, s, j) :: SameAt(a.relations[j], b.relations[j], p)
  }

  /** A lookup reads nothing but the stores on the chain, at the pair asked about. */
  lemma {:induction false} GetFrame(a: Arena, b: Arena, s: nat, p: Pair)
    requires Valid(a) && s < |a.parent| && AgreeOnChain(a, b, s, p)
    ensures Valid(b) && GetRelation(b, s, p.0, p.1) == GetRelation(a, s, p.0, p.1)
    decreases s
  {
    assert SameAt(a.relations[s], b.relations[s], p);
    if p !in a.relations[s] && a.parent[s].Some? {
      var q := a.parent[s].value;
      forall j | 0 <= j < |a.parent| && Descends(a.parent, q, j)
        ensures SameAt(a.relations[j], b.relations[j], p)
      {
        assert Descends(a.parent, s, j);
      }
      GetFrame(a, b, q, p);
    }
  }

  /** `b` differs from `a` at most in the local store of state `s`. */
  predicate OnlyStoreChanged(a: Arena, b: Arena, s: nat) {
    && b.parent == a.parent
    && |b.relations| == |a.relations|
    && forall i | 0 <= i < |a.relations| && i != s :: b.relations[i] == a.relations[i]
  }

  /** A change confined to the store of `s` is invisible from every state that
      does not descend from `s`: its ancestors and its siblings' branches. */
  lemma OnlyStoreChangedIsLocal(a: Arena, b: Arena, s: nat, t: nat, p: Pair)
    requires Valid(a) && t < |a.parent| && OnlyStoreChanged(a, b, s)
    requires !Descends(a.parent, t, s)
    ensures Valid(b) && GetRelation(b, t, p.0, p.1) == GetRelation(a, t, p.0, p.1)
  {
    GetFrame(a, b, t, p);
  }

  /** A change confined to pairs other than `p` does not change any answer about `p`. */
  lemma OtherPairsChangedKeepAnswer(a: Arena, b: Arena, s: nat, t: nat, p: Pair)
    requires Valid(a) && t < |a.parent| && OnlyStoreChanged(a, b, s)
    requires s < |a.relations| ==> SameAt(a.relations[s], b.relations[s], p)
    ensures Valid(b) && GetRelation(b, t, p.0, p.1) == GetRelation(a, t, p.0, p.1)
  {
    GetFrame(a, b, t, p);
  }

  /** The constructors `ExecutionState()` and `ExecutionState(parent)`: a new
      state with an empty store, at index `|a.parent|`. */
  function AddState(a: Arena, parent: Option<nat>): (b: Arena)
    requires Valid(a) && (parent.Some? ==> parent.value < |a.parent|)
    ensures Valid(b) && |b.parent| == |a.parent| + 1
    ensures b.parent[..|a.parent|] == a.parent && b.relations[..|a.relations|] == a.relations
    ensures b.parent[|a.parent|] == parent && b.relations[|a.relations|] == map[]
  {
    Arena(a.parent + [parent], a.relations + [map[]])
  }

  /** Adding a state changes no answer of the states already there. */
  lemma {:induction false} AddStateKeepsAnswers(a: Arena, parent: Option<nat>, s: nat, x: Value, y: Value)
    requires Valid(a) && (parent.Some? ==> parent.value < |a.parent|) && s < |a.parent|
    ensures GetRelation(AddState(a, parent), s, x, y) == GetRelation(a, s, x, y)
    decreases s
  {
    var b := AddState(a, parent);
    assert b.parent[s] == a.parent[s] && b.relations[s] == a.relations[s];
    if (x, y) !in a.relations[s] && a.parent[s].Some? {
      AddStateKeepsAnswers(a, parent, a.parent[s].value, x, y);
    }
  }

  /** A fresh root answers UNKNOWN for every pair; a fresh child answers
      exactly what its parent answers. */
  lemma FreshStateAnswers(a: Arena, parent: Option<nat>, x: Value, y: Value)
    requires Valid(a) && (parent.Some? ==> parent.value < |a.parent|)
    ensures parent.None? ==> GetRelation(AddState(a, parent), |a.parent|, x, y) == Relation.Unknown
    ensures parent.Some? ==>
      GetRelation(AddState(a, parent), |a.parent|, x, y) == GetRelation(a, parent.value, x, y)
  {
    if parent.Some? {
      AddStateKeepsAnswers(a, parent, parent.value, x, y);
    }
  }

  /** Writes a relation and its swapped mirror, overwriting any local entry. */
  function PutMirrored(st: Store, x: Value, rel: Relation, y: Value): Store {
    st[(x, y) := rel][(y, x) := Swap(rel)]
  }

  /** `setRelation`: nothing happens for a self pair; otherwise the pair and its
      mirror are written into the local store of `s` and nowhere else. The
      source returns the receiver for chaining; here the receiver stays `s`. */
  function SetRelation(a: Arena, s: nat, x: Value, rel: Relation, y: Value): (b: Arena)
    requires Valid(a) && s < |a.parent|
    ensures Valid(b) && OnlyStoreChanged(a, b, s)
    ensures x == y ==> b == a
    ensures x != y ==> GetRelation(b, s, x, y) == rel && GetRelation(b, s, y, x) == Swap(rel)
    ensures x != y ==> b.relations[s].Keys == a.relations[s].Keys + {(x, y), (y, x)}
    ensures x != y && a.relations[s] == map[] ==> |b.relations[s]| == 2
    ensures forall p | p != (x, y) && p != (y, x) :: SameAt(a.relations[s], b.relations[s], p)
    ensures Mirrored(a.relations[s]) ==> Mirrored(b.relations[s])
  {
    if x == y then a
    else
      PutMirroredStore(a.relations[s], x, rel, y);
      Arena(a.parent, a.relations[s := PutMirrored(a.relations[s], x, rel, y)])
  }

  /** The store-level facts behind `SetRelation`. */
  lemma PutMirroredStore(st: Store, x: Value, rel: Relation, y: Value)
    requires x != y
    ensures var st' := PutMirrored(st, x, rel, y);
      && st'.Keys == st.Keys + {(x, y), (y, x)}
      && (st == map[] ==> |st'| == 2)
      && (forall p | p != (x, y) && p != (y, x) :: SameAt(st, st', p))
      && (Mirrored(st) ==> Mirrored(st'))
  {
    PutMirroredKeys(st, x, rel, y);
    PutMirroredFrame(st, x, rel, y);
    if Mirrored(st) {
      PutMirroredKeepsMirrored(st, x, rel, y);
    }
  }

  lemma PutMirroredFrame(st: Store, x: Value, rel: Relation, y: Value)
    ensures forall p | p != (x, y) && p != (y, x) :: SameAt(st, PutMirrored(st, x, rel, y), p)
  {
  }

  lemma PutMirroredKeys(st: Store, x: Value, rel: Relation, y: Value)
    requires x != y
    ensures PutMirrored(st, x, rel, y).Keys == st.Keys + {(x, y), (y, x)}
    ensures st == map[] ==> |PutMirrored(st, x, rel, y)| == 2
  {
    var st' := PutMirrored(st, x, rel, y);
    if st == map[] {
      assert st'.Keys == {(x, y), (y, x)};
      assert |st'.Keys| == 2;
    }
  }

  lemma PutMirroredKeepsMirrored(st: Store, x: Value, rel: Relation, y: Value)
    requires x != y && Mirrored(st)
    ensures Mirrored(PutMirrored(st, x, rel, y))
  {
    var st' := PutMirrored(st, x, rel, y);
    SwapInvolution(rel);
    forall p | p in st' ensures p.0 != p.1 && Mirror(p) in st' && st'[Mirror(p)] == Swap(st'[p]) {
      if p != (x, y) && p != (y, x) {
        assert p in st && Mirror(p) in st;
        assert Mirror(p) != (x, y) && Mirror(p) != (y, x);
      }
    }
  }

  /** Writes are local: a state that does not descend from the writer keeps
      every answer (so a child's write leaves its parent as it was), and no
      state's answer changes for any pair other than the written one and its
      mirror. */
  lemma SetRelationShadows(a: Arena, s: nat, x: Value, rel: Relation, y: Value, t: nat, p: Pair)
    requires Valid(a) && s < |a.parent| && t < |a.parent|
    ensures var b := SetRelation(a, s, x, rel, y);
      !Descends(a.parent, t, s) ==> GetRelation(b, t, p.0, p.1) == GetRelation(a, t, p.0, p.1)
    ensures var b := SetRelation(a, s, x, rel, y);
      p != (x, y) && p != (y, x) ==> GetRelation(b, t, p.0, p.1) == GetRelation(a, t, p.0, p.1)
  {
    var b := SetRelation(a, s, x, rel, y);
    if !Descends(a.parent, t, s) {
      OnlyStoreChangedIsLocal(a, b, s, t, p);
    }
    if p != (x, y) && p != (y, x) {
      OtherPairsChangedKeepAnswer(a, b, s, t, p);
    }
  }

  /** `evaluateRelation`: the verdict `combine` gives for the stored relation
      and the queried one. */
  function EvaluateRelation(combine: CombineOp, a: Arena, s: nat, x: Value, queried: Relation, y: Value): (k: BooleanConstraint)
    requires Valid(a) && s < |a.parent|
    ensures !RecordedOnChain(a, s, (x, y)) ==> k == combine(Relation.Unknown, queried)
    ensures RecordedOnChain(a, s, (x, y)) ==>
      exists i: nat :: NearestRecord(a, s, (x, y), i) && k == combine(a.relations[i][(x, y)], queried)
  {
    GetRelationNearest(a, s, x, y);
    combine(GetRelation(a, s, x, y), queried)
  }

  /** After `setRelation(x, r, y)` every query about the pair, in either
      direction, is answered from `r`. */
  lemma EvaluateAfterSet(combine: CombineOp, a: Arena, s: nat, x: Value, rel: Relation, y: Value, queried: Relation)
    requires Valid(a) && s < |a.parent| && x != y
    ensures EvaluateRelation(combine, SetRelation(a, s, x, rel, y), s, x, queried, y) == combine(rel, queried)
    ensures EvaluateRelation(combine, SetRelation(a, s, x, rel, y), s, y, queried, x) == combine(Swap(rel), queried)
  {
  }

  /** The relation to `true` that encodes a boolean constraint. */
  function ConstraintRelation(k: BooleanConstraint): Relation {
    match k
    case True => EqualTo
    case False => NotEqual
    case Unknown => Relation.Unknown
  }

  /** `getBooleanConstraint`: TRUE when the variable is known equal to `true`,
      FALSE when known different from it, UNKNOWN otherwise. */
  function GetBooleanConstraint(a: Arena, s: nat, v: VariableValue): (k: BooleanConstraint)
    requires Valid(a) && s < |a.parent|
    ensures ConstraintRelation(k) == GetRelation(a, s, v, BooleanTrue) || k == BooleanConstraint.Unknown
    ensures !RecordedOnChain(a, s, (v, BooleanTrue)) ==> k == BooleanConstraint.Unknown
  {
    GetRelationNearest(a, s, v, BooleanTrue);
    match GetRelation(a, s, v, BooleanTrue)
    case EqualTo => True
    case NotEqual => False
    case _ => BooleanConstraint.Unknown
  }

  /** `setBooleanConstraint`: records the constraint as a relation to `true`
      in the local store of `s`; reading it back gives the constraint. */
  function SetBooleanConstraint(a: Arena, s: nat, v: VariableValue, k: BooleanConstraint): (b: Arena)
    requires Valid(a) && s < |a.parent|
    ensures Valid(b) && OnlyStoreChanged(a, b, s)
    ensures GetBooleanConstraint(b, s, v) == k
    ensures GetRelation(b, s, v, BooleanTrue) == ConstraintRelation(k)
    ensures GetRelation(b, s, BooleanTrue, v) == Swap(ConstraintRelation(k))
    ensures forall p | p != (v, BooleanTrue) && p != (BooleanTrue, v) :: SameAt(a.relations[s], b.relations[s], p)
  {
    var b := SetRelation(a, s, v, ConstraintRelation(k), BooleanTrue);
    ReadBackConstraint(b, s, v, k);
    b
  }

  lemma ReadBackConstraint(b: Arena, s: nat, v: VariableValue, k: BooleanConstraint)
    requires Valid(b) && s < |b.parent|
    requires GetRelation(b, s, v, BooleanTrue) == ConstraintRelation(k)
    ensures GetBooleanConstraint(b, s, v) == k
  {
  }

  /** In a consistent arena every answer is mirrored: asking about the
      exchanged pair gives the swapped relation. */
  lemma {:induction false} GetMirror(a: Arena, s: nat, x: Value, y: Value)
    requires Consistent(a) && s < |a.parent|
    ensures GetRelation(a, s, y, x) == Swap(GetRelation(a, s, x, y))
    decreases s
  {
    var st := a.relations[s];
    assert Mirrored(st);
    if (x, y) in st {
      assert Mirror((x, y)) == (y, x);
    } else if (y, x) in st {
      assert false;
    } else if a.parent[s].Some? {
      GetMirror(a, a.parent[s].value, x, y);
    }
  }

  /** Replacing one store by a mirrored one keeps the arena consistent. */
  lemma ReplaceStoreConsistent(a: Arena, s: nat, st: Store)
    requires Consistent(a) && s < |a.parent| && Mirrored(st)
    ensures Consistent(Arena(a.parent, a.relations[s := st]))
  {
    var b := Arena(a.parent, a.relations[s := st]);
    forall i | 0 <= i < |b.relations| ensures Mirrored(b.relations[i]) {
      if i != s {
        assert b.relations[i] == a.relations[i];
      }
    }
  }
}
