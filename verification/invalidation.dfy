/**
 * `invalidateRelationsOnValue` and `invalidateFields`: after an assignment to
 * a value, or after a call that may change any field, the receiver forgets
 * what the chain knows about the value or the fields by writing UNKNOWN over
 * every recorded pair (and its mirror) into its own store. Ancestors are
 * never written.
 */
module Invalidation {
  import opened Wrappers
  import opened Symbolic
  import opened States

  /** The pairs `setRelation(x, UNKNOWN, y)` writes for each `(x, y)` of `ps`:
      the pair and its mirror, self pairs skipped. */
  function Touched(ps: set<Pair>): (w: set<Pair>)
    ensures forall p :: p in w <==> p.0 != p.1 && (p in ps || Mirror(p) in ps)
  {
    var direct := set p | p in ps && p.0 != p.1;
    var mirrored := set p | p in ps && p.0 != p.1 :: Mirror(p);
    assert forall p :: p in mirrored <==> p.0 != p.1 && Mirror(p) in ps by {
      forall p ensures p in mirrored <==> p.0 != p.1 && Mirror(p) in ps {
        if p.0 != p.1 && Mirror(p) in ps {
          assert Mirror(Mirror(p)) == p;
        }
      }
    }
    direct + mirrored
  }

  /** `st` with every pair of `w` holding UNKNOWN. */
  function Blanked(st: Store, w: set<Pair>): Store {
    map p | p in st.Keys + w :: if p in w then Relation.Unknown else st[p]
  }

  /** The receiver after `setRelation(x, UNKNOWN, y)` for every `(x, y)` of
      `ps`, in whatever order: all writes are UNKNOWN, so the order is immaterial. */
  function Forget(a: Arena, s: nat, ps: set<Pair>): (b: Arena)
    requires Valid(a) && s < |a.parent|
    ensures Valid(b) && OnlyStoreChanged(a, b, s)
  {
    Arena(a.parent, a.relations[s := Blanked(a.relations[s], Touched(ps))])
  }

  lemma BlankNothing(st: Store)
    ensures Blanked(st, Touched({})) == st
  {
  }

  /** One more write extends the blanked set by the pair and its mirror. */
  lemma BlankStep(st: Store, ps: set<Pair>, q: Pair)
    ensures q.0 != q.1 ==>
      PutMirrored(Blanked(st, Touched(ps)), q.0, Relation.Unknown, q.1) == Blanked(st, Touched(ps + {q}))
    ensures q.0 == q.1 ==> Touched(ps + {q}) == Touched(ps)
  {
    if q.0 != q.1 {
      assert Touched(ps + {q}) == Touched(ps) + {q, Mirror(q)};
    }
  }

  lemma BlankTwice(st: Store, ps: set<Pair>, qs: set<Pair>)
    ensures Blanked(Blanked(st, Touched(ps)), Touched(qs)) == Blanked(st, Touched(ps + qs))
  {
    assert Touched(ps + qs) == Touched(ps) + Touched(qs);
  }

  lemma UpdateOverwrite(xs: seq<Store>, s: nat, x: Store, y: Store)
    requires s < |xs|
    ensures xs[s := x][s := y] == xs[s := y]
  {
  }

  /** Blanking whole mirror pairs keeps a store mirrored: UNKNOWN is its own swap. */
  lemma BlankedMirrored(st: Store, ps: set<Pair>)
    requires Mirrored(st)
    ensures Mirrored(Blanked(st, Touched(ps)))
  {
    var w := Touched(ps);
    var st' := Blanked(st, w);
    forall p | p in st' ensures p.0 != p.1 && Mirror(p) in st' && st'[Mirror(p)] == Swap(st'[p]) {
      assert Mirror(Mirror(p)) == p;
      if p !in w {
        assert Mirror(p) !in w;
      }
    }
  }

  /** The call `setRelation(x, UNKNOWN, y)` for each pair of `ps`, one at a
      time in an arbitrary order, as both invalidations do. */
  method ForgetEach(a: Arena, s: nat, ps: set<Pair>) returns (b: Arena)
    requires Valid(a) && s < |a.parent|
    ensures b == Forget(a, s, ps)
  {
    b := a;
    var todo := ps;
    BlankNothing(a.relations[s]);
    assert a.relations[s := a.relations[s]] == a.relations;
    assert ps - todo == {};
    while todo != {}
      invariant todo <= ps
      invariant b == Forget(a, s, ps - todo)
      decreases |todo|
    {
      var q :| q in todo;
      ForgetStep(a, s, ps - todo, q);
      assert (ps - todo) + {q} == ps - (todo - {q});
      b := SetRelation(b, s, q.0, Relation.Unknown, q.1);
      todo := todo - {q};
    }
    assert ps - todo == ps;
  }

  /** One more `setRelation(x, UNKNOWN, y)` forgets one more pair. */
  lemma ForgetStep(a: Arena, s: nat, done: set<Pair>, q: Pair)
    requires Valid(a) && s < |a.parent|
    ensures SetRelation(Forget(a, s, done), s, q.0, Relation.Unknown, q.1) == Forget(a, s, done + {q})
  {
    BlankStep(a.relations[s], done, q);
    if q.0 != q.1 {
      UpdateOverwrite(a.relations, s, Blanked(a.relations[s], Touched(done)),
                      Blanked(a.relations[s], Touched(done + {q})));
    }
  }

  /** A pair the receiver stores answers its local entry. */
  lemma LocalHit(a: Arena, s: nat, p: Pair)
    requires Valid(a) && s < |a.parent| && p in a.relations[s]
    ensures GetRelation(a, s, p.0, p.1) == a.relations[s][p]
  {
  }

  /** After forgetting `ps` the receiver answers UNKNOWN for every pair written. */
  lemma ForgetClears(a: Arena, s: nat, ps: set<Pair>, p: Pair)
    requires Valid(a) && s < |a.parent|
    requires p.0 != p.1 && (p in ps || Mirror(p) in ps)
    ensures GetRelation(Forget(a, s, ps), s, p.0, p.1) == Relation.Unknown
  {
    LocalHit(Forget(a, s, ps), s, p);
  }

  /** Forgetting `ps` changes no answer, from any state, about a pair not written. */
  lemma ForgetKeepsOthers(a: Arena, s: nat, ps: set<Pair>, t: nat, p: Pair)
    requires Valid(a) && s < |a.parent| && t < |a.parent|
    requires p !in ps && Mirror(p) !in ps
    ensures GetRelation(Forget(a, s, ps), t, p.0, p.1) == GetRelation(a, t, p.0, p.1)
  {
    OtherPairsChangedKeepAnswer(a, Forget(a, s, ps), s, t, p);
  }

  lemma ForgetKeepsConsistent(a: Arena, s: nat, ps: set<Pair>)
    requires Consistent(a) && s < |a.parent|
    ensures Consistent(Forget(a, s, ps))
  {
    BlankedMirrored(a.relations[s], ps);
    ReplaceStoreConsistent(a, s, Blanked(a.relations[s], Touched(ps)));
  }

  /** A pair is recorded on the chain of `s` iff `s` stores it or its parent's chain records it. */
  lemma RecordedStep(a: Arena, s: nat, p: Pair)
    requires Valid(a) && s < |a.parent|
    ensures RecordedOnChain(a, s, p) <==>
      p in a.relations[s] || (a.parent[s].Some? && RecordedOnChain(a, a.parent[s].value, p))
  {
    if RecordedOnChain(a, s, p) {
      var i :| 0 <= i < |a.parent| && Descends(a.parent, s, i) && p in a.relations[i];
      if i != s {
        assert a.parent[s].Some? && Descends(a.parent, a.parent[s].value, i);
      }
    }
    if p in a.relations[s] {
      assert Descends(a.parent, s, s);
    } else if a.parent[s].Some? && RecordedOnChain(a, a.parent[s].value, p) {
      var i :| 0 <= i < |a.parent| && Descends(a.parent, a.parent[s].value, i) && p in a.relations[i];
      assert Descends(a.parent, s, i);
    }
  }

  /** In a consistent arena a pair is recorded iff its mirror is, and no self pair is. */
  lemma RecordedMirror(a: Arena, s: nat, p: Pair)
    requires Consistent(a) && s < |a.parent|
    ensures RecordedOnChain(a, s, p) <==> RecordedOnChain(a, s, Mirror(p))
    ensures RecordedOnChain(a, s, p) ==> p.0 != p.1
  {
    if RecordedOnChain(a, s, p) {
      var i :| 0 <= i < |a.parent| && Descends(a.parent, s, i) && p in a.relations[i];
      assert Mirrored(a.relations[i]);
    }
    if RecordedOnChain(a, s, Mirror(p)) {
      var i :| 0 <= i < |a.parent| && Descends(a.parent, s, i) && Mirror(p) in a.relations[i];
      assert Mirrored(a.relations[i]);
      assert Mirror(Mirror(p)) == p;
    }
  }

  /** `findRelatedValues(value)` of one state: the values `v` is paired with in its store. */
  function Row(st: Store, v: Value): (os: set<Value>)
    ensures forall o :: o in os <==> (v, o) in st
  {
    var os := set p | p in st.Keys && p.0 == v :: p.1;
    assert forall o | (v, o) in st :: o in os by {
      forall o | (v, o) in st ensures o in os {
        assert (v, o).1 == o;
      }
    }
    os
  }

  /** The values `v` is paired with anywhere on the chain of `s`: the pairs the
      first loop of `invalidateRelationsOnValue` collects. */
  function RelatedValues(a: Arena, s: nat, v: Value): (os: set<Value>)
    requires Valid(a) && s < |a.parent|
    ensures forall o :: o in os <==> RecordedOnChain(a, s, (v, o))
    decreases s
  {
    var up := if a.parent[s].Some? then RelatedValues(a, a.parent[s].value, v) else {};
    var os := Row(a.relations[s], v) + up;
    assert forall o :: o in os <==> RecordedOnChain(a, s, (v, o)) by {
      forall o ensures o in os <==> RecordedOnChain(a, s, (v, o)) {
        RecordedStep(a, s, (v, o));
      }
    }
    os
  }

  /** The pairs `(v, o)` recorded on the chain of `s`. */
  function ValuePairs(a: Arena, s: nat, v: Value): (ps: set<Pair>)
    requires Valid(a) && s < |a.parent|
    ensures forall p :: p in ps <==> p.0 == v && RecordedOnChain(a, s, p)
  {
    var os := RelatedValues(a, s, v);
    var ps := set o | o in os :: (v, o);
    assert forall p: Pair | p.0 == v && RecordedOnChain(a, s, p) :: p in ps by {
      forall p: Pair | p.0 == v && RecordedOnChain(a, s, p) ensures p in ps {
        assert p == (v, p.1);
      }
    }
    ps
  }

  /** `invalidateRelationsOnValue(value)`: walk the chain collecting every
      value `v` is paired with, then write UNKNOWN for each pair into the
      receiver. Afterwards the receiver knows nothing about `v`, and nothing
      else has changed. */
  method InvalidateRelationsOnValue(a: Arena, s: nat, v: Value) returns (b: Arena)
    requires Valid(a) && s < |a.parent|
    ensures Valid(b) && OnlyStoreChanged(a, b, s)
    ensures b == Forget(a, s, ValuePairs(a, s, v))
    ensures forall o | o != v :: GetRelation(b, s, v, o) == Relation.Unknown
    ensures Consistent(a) ==> forall o :: GetRelation(b, s, o, v) == Relation.Unknown
    ensures Consistent(a) ==> GetRelation(b, s, v, v) == Relation.Unknown
    ensures forall t: nat, p: Pair | t < |a.parent| && p.0 != v && p.1 != v ::
      GetRelation(b, t, p.0, p.1) == GetRelation(a, t, p.0, p.1)
    ensures Consistent(a) ==> Consistent(b)
  {
    var related: set<Value> := {};
    var cur: Option<nat> := Some(s);
    while cur.Some?
      invariant cur.Some? ==> cur.value < |a.parent|
      invariant related + (if cur.Some? then RelatedValues(a, cur.value, v) else {}) == RelatedValues(a, s, v)
      decreases if cur.Some? then cur.value + 1 else 0
    {
      related := related + Row(a.relations[cur.value], v);
      cur := a.parent[cur.value];
    }
    var ps := set o | o in related :: (v, o);
    assert ps == ValuePairs(a, s, v);
    b := ForgetEach(a, s, ps);
    ValueForgetAnswers(a, s, v);
  }

  /** What forgetting every recorded pair of `v` leaves the receiver knowing. */
  lemma ValueForgetAnswers(a: Arena, s: nat, v: Value)
    requires Valid(a) && s < |a.parent|
    ensures var b := Forget(a, s, ValuePairs(a, s, v));
      && (forall o | o != v :: GetRelation(b, s, v, o) == Relation.Unknown)
      && (Consistent(a) ==> forall o :: GetRelation(b, s, o, v) == Relation.Unknown)
      && (forall t: nat, p: Pair | t < |a.parent| && p.0 != v && p.1 != v ::
            GetRelation(b, t, p.0, p.1) == GetRelation(a, t, p.0, p.1))
      && (Consistent(a) ==> Consistent(b))
  {
    var ps := ValuePairs(a, s, v);
    var b := Forget(a, s, ps);
    forall o | o != v ensures GetRelation(b, s, v, o) == Relation.Unknown {
      ValueForgotten(a, s, v, o);
    }
    if Consistent(a) {
      forall o ensures GetRelation(b, s, o, v) == Relation.Unknown {
        MirrorForgotten(a, s, v, o);
      }
      ForgetKeepsConsistent(a, s, ps);
    }
    forall t: nat, p: Pair | t < |a.parent| && p.0 != v && p.1 != v
      ensures GetRelation(b, t, p.0, p.1) == GetRelation(a, t, p.0, p.1)
    {
      ForgetKeepsOthers(a, s, ps, t, p);
    }
  }

  lemma ValueForgotten(a: Arena, s: nat, v: Value, o: Value)
    requires Valid(a) && s < |a.parent| && o != v
    ensures GetRelation(Forget(a, s, ValuePairs(a, s, v)), s, v, o) == Relation.Unknown
  {
    var ps := ValuePairs(a, s, v);
    if (v, o) in ps {
      ForgetClears(a, s, ps, (v, o));
    } else {
      GetRelationNearest(a, s, v, o);
      ForgetKeepsOthers(a, s, ps, s, (v, o));
    }
  }

  lemma MirrorForgotten(a: Arena, s: nat, v: Value, o: Value)
    requires Consistent(a) && s < |a.parent|
    ensures GetRelation(Forget(a, s, ValuePairs(a, s, v)), s, o, v) == Relation.Unknown
  {
    var ps := ValuePairs(a, s, v);
    RecordedMirror(a, s, (v, o));
    if (v, o) in ps {
      ForgetClears(a, s, ps, (o, v));
    } else {
      GetRelationNearest(a, s, o, v);
      ForgetKeepsOthers(a, s, ps, s, (o, v));
    }
  }

  /** The entries of one store whose row key is a field: what the inner loops
      of `invalidateFields` visit in one state. */
  function FieldRows(st: Store): (ps: set<Pair>)
    ensures forall p :: p in ps <==> p in st && IsField(p.0)
  {
    set p | p in st.Keys && IsField(p.0)
  }

  /** The pairs with a field first recorded on the chain of `s`. */
  function FieldPairs(a: Arena, s: nat): (ps: set<Pair>)
    requires Valid(a) && s < |a.parent|
    ensures forall p :: p in ps <==> IsField(p.0) && RecordedOnChain(a, s, p)
    decreases s
  {
    var up := if a.parent[s].Some? then FieldPairs(a, a.parent[s].value) else {};
    var ps := FieldRows(a.relations[s]) + up;
    assert forall p :: p in ps <==> IsField(p.0) && RecordedOnChain(a, s, p) by {
      forall p ensures p in ps <==> IsField(p.0) && RecordedOnChain(a, s, p) {
        RecordedStep(a, s, p);
      }
    }
    ps
  }

  /** `invalidateFields()`: for every state on the chain, every entry whose
      row key is a field is overwritten with UNKNOWN in the receiver.
      Afterwards the receiver knows nothing about any field, and pairs of two
      non-fields keep their answers everywhere. */
  method InvalidateFields(a: Arena, s: nat) returns (b: Arena)
    requires Valid(a) && s < |a.parent|
    ensures Valid(b) && OnlyStoreChanged(a, b, s)
    ensures b == Forget(a, s, FieldPairs(a, s))
    ensures forall k, o | IsField(k) && k != o :: GetRelation(b, s, k, o) == Relation.Unknown
    ensures Consistent(a) ==> forall k, o | IsField(k) :: GetRelation(b, s, o, k) == Relation.Unknown
    ensures Consistent(a) ==> forall k | IsField(k) :: GetRelation(b, s, k, k) == Relation.Unknown
    ensures forall t: nat, p: Pair | t < |a.parent| && !IsField(p.0) && !IsField(p.1) ::
      GetRelation(b, t, p.0, p.1) == GetRelation(a, t, p.0, p.1)
    ensures Consistent(a) ==> Consistent(b)
  {
    b := ForgetFieldChain(a, s);
    FieldForgetAnswers(a, s);
  }

  /** The chain walk of `invalidateFields`: each state's field rows, read
      from the state as the walk reaches it, are forgotten in the receiver. */
  method ForgetFieldChain(a: Arena, s: nat) returns (b: Arena)
    requires Valid(a) && s < |a.parent|
    ensures b == Forget(a, s, FieldPairs(a, s))
  {
    b := a;
    var seen: set<Pair> := {};
    var cur: Option<nat> := Some(s);
    BlankNothing(a.relations[s]);
    assert a.relations[s := a.relations[s]] == a.relations;
    while cur.Some?
      invariant cur.Some? ==> cur.value < |a.parent| && cur.value <= s
      invariant cur == Some(s) ==> seen == {}
      invariant seen + (if cur.Some? then FieldPairs(a, cur.value) else {}) == FieldPairs(a, s)
      invariant b == Forget(a, s, seen)
      decreases if cur.Some? then cur.value + 1 else 0
    {
      var c := cur.value;
      assert b.relations[c] == a.relations[c];
      var rows := FieldRows(b.relations[c]);
      var b' := ForgetEach(b, s, rows);
      ForgetTwice(a, s, seen, rows);
      var up := if a.parent[c].Some? then FieldPairs(a, a.parent[c].value) else {};
      FieldPairsStep(a, c);
      UnionShift(seen, rows, up, FieldPairs(a, s));
      b := b';
      seen := seen + rows;
      cur := a.parent[c];
    }
  }

  /** What forgetting every recorded pair with a field key leaves the
      receiver knowing. */
  lemma FieldForgetAnswers(a: Arena, s: nat)
    requires Valid(a) && s < |a.parent|
    ensures var b := Forget(a, s, FieldPairs(a, s));
      && (forall k, o | IsField(k) && k != o :: GetRelation(b, s, k, o) == Relation.Unknown)
      && (Consistent(a) ==> forall k, o | IsField(k) :: GetRelation(b, s, o, k) == Relation.Unknown)
      && (forall t: nat, p: Pair | t < |a.parent| && !IsField(p.0) && !IsField(p.1) ::
            GetRelation(b, t, p.0, p.1) == GetRelation(a, t, p.0, p.1))
      && (Consistent(a) ==> Consistent(b))
  {
    var ps := FieldPairs(a, s);
    var b := Forget(a, s, ps);
    forall k, o | IsField(k) && k != o ensures GetRelation(b, s, k, o) == Relation.Unknown {
      FieldForgotten(a, s, k, o);
    }
    if Consistent(a) {
      forall k, o | IsField(k) ensures GetRelation(b, s, o, k) == Relation.Unknown {
        FieldMirrorForgotten(a, s, k, o);
      }
      ForgetKeepsConsistent(a, s, ps);
    }
    forall t: nat, p: Pair | t < |a.parent| && !IsField(p.0) && !IsField(p.1)
      ensures GetRelation(b, t, p.0, p.1) == GetRelation(a, t, p.0, p.1)
    {
      ForgetKeepsOthers(a, s, ps, t, p);
    }
  }

  /** Forgetting two sets one after the other forgets their union. */
  lemma ForgetTwice(a: Arena, s: nat, ps: set<Pair>, qs: set<Pair>)
    requires Valid(a) && s < |a.parent|
    ensures Forget(Forget(a, s, ps), s, qs) == Forget(a, s, ps + qs)
  {
    BlankTwice(a.relations[s], ps, qs);
    UpdateOverwrite(a.relations, s, Blanked(a.relations[s], Touched(ps)),
                    Blanked(a.relations[s], Touched(ps + qs)));
  }

  lemma UnionShift<T>(seen: set<T>, rows: set<T>, up: set<T>, whole: set<T>)
    requires seen + (rows + up) == whole
    ensures (seen + rows) + up == whole
  {
  }

  /** The chain's field pairs are the local rows and the parent's chain's. */
  lemma FieldPairsStep(a: Arena, c: nat)
    requires Valid(a) && c < |a.parent|
    ensures FieldPairs(a, c)
         == FieldRows(a.relations[c]) + (if a.parent[c].Some? then FieldPairs(a, a.parent[c].value) else {})
  {
  }

  lemma FieldForgotten(a: Arena, s: nat, k: Value, o: Value)
    requires Valid(a) && s < |a.parent| && IsField(k) && k != o
    ensures GetRelation(Forget(a, s, FieldPairs(a, s)), s, k, o) == Relation.Unknown
  {
    var ps := FieldPairs(a, s);
    if (k, o) in ps {
      ForgetClears(a, s, ps, (k, o));
    } else if (o, k) in ps {
      ForgetClears(a, s, ps, (k, o));
    } else {
      GetRelationNearest(a, s, k, o);
      ForgetKeepsOthers(a, s, ps, s, (k, o));
    }
  }

  lemma FieldMirrorForgotten(a: Arena, s: nat, k: Value, o: Value)
    requires Consistent(a) && s < |a.parent| && IsField(k)
    ensures GetRelation(Forget(a, s, FieldPairs(a, s)), s, o, k) == Relation.Unknown
  {
    var ps := FieldPairs(a, s);
    RecordedMirror(a, s, (k, o));
    RecordedMirror(a, s, (o, k));
    if (k, o) in ps {
      ForgetClears(a, s, ps, (o, k));
    } else if (o, k) in ps {
      ForgetClears(a, s, ps, (o, k));
    } else {
      GetRelationNearest(a, s, o, k);
      ForgetKeepsOthers(a, s, ps, s, (o, k));
    }
  }
}
