/**
 * The JSON diff algebra of hyperschedule/api/diff.py: a diff of two objects
 * lists, per key, the new value, a nested diff, or the delete marker; applying
 * it rebuilds the second object; merging two diffs gives one diff for both steps.
 * Anything that is not an object (on either side) is replaced wholesale.
 */
module Diff {

  import opened Json

  /** `compute_diff(o1, o2)` */
  function ComputeDiff(o1: Value, o2: Value): (d: Value)
    ensures !o1.Obj? || !o2.Obj? ==> d == o2
    ensures o1.Obj? && o2.Obj? ==> d.Obj?
    // a key is in the diff exactly when it was added, changed or removed
    ensures o1.Obj? && o2.Obj? ==> forall k :: k in d.fields <==>
      (k in o2.fields && (k !in o1.fields || o1.fields[k] != o2.fields[k])) || (k in o1.fields && k !in o2.fields)
    ensures o1.Obj? && o2.Obj? ==> forall k :: k in o2.fields && k !in o1.fields ==> d.fields[k] == o2.fields[k]
    ensures o1.Obj? && o2.Obj? ==> forall k :: k in o1.fields && k !in o2.fields ==> IsDelete(d.fields[k])
    ensures o1.Obj? && o2.Obj? ==> forall k :: k in o1.fields && k in o2.fields && o1.fields[k] != o2.fields[k] ==>
      d.fields[k] == ComputeDiff(o1.fields[k], o2.fields[k])
  {
    if !o1.Obj? || !o2.Obj? then o2
    else
      var a, b := o1.fields, o2.fields;
      Obj((map k | k in b && (k !in a || a[k] != b[k]) :: if k in a then ComputeDiff(a[k], b[k]) else b[k])
        + (map k | k in a && k !in b :: Str(DELETE)))
  }

  /** `apply_diff(o, d)` */
  function ApplyDiff(o: Value, d: Value): (r: Value)
    ensures !o.Obj? || !d.Obj? ==> r == d
    ensures o.Obj? && d.Obj? ==> r.Obj?
    // a key survives unless the diff deletes it; the diff adds the keys it names
    ensures o.Obj? && d.Obj? ==> forall k :: k in r.fields <==>
      (k in d.fields && !IsDelete(d.fields[k])) || (k in o.fields && k !in d.fields)
    ensures o.Obj? && d.Obj? ==> forall k :: k in o.fields && k !in d.fields ==> r.fields[k] == o.fields[k]
    ensures o.Obj? && d.Obj? ==> forall k :: k in d.fields && !IsDelete(d.fields[k]) && k !in o.fields ==>
      r.fields[k] == d.fields[k]
    ensures o.Obj? && d.Obj? ==> forall k :: k in d.fields && !IsDelete(d.fields[k]) && k in o.fields ==>
      r.fields[k] == ApplyDiff(o.fields[k], d.fields[k])
  {
    if !o.Obj? || !d.Obj? then d
    else
      var a, e := o.fields, d.fields;
      Obj(map k | k in a.Keys + e.Keys && !(k in e && IsDelete(e[k])) ::
        if k !in e then a[k] else if k in a then ApplyDiff(a[k], e[k]) else e[k])
  }

  /** `merge_diffs(d1, d2)` */
  function MergeDiffs(d1: Value, d2: Value): (m: Value)
    ensures !d1.Obj? || !d2.Obj? ==> m == d2
    ensures d1.Obj? && d2.Obj? ==> m.Obj? && m.fields.Keys == d1.fields.Keys + d2.fields.Keys
    ensures d1.Obj? && d2.Obj? ==> forall k :: k in d1.fields && k !in d2.fields ==> m.fields[k] == d1.fields[k]
    ensures d1.Obj? && d2.Obj? ==> forall k :: k !in d1.fields && k in d2.fields ==> m.fields[k] == d2.fields[k]
    ensures d1.Obj? && d2.Obj? ==> forall k :: k in d1.fields && k in d2.fields ==>
      m.fields[k] == MergeDiffs(d1.fields[k], d2.fields[k])
  {
    if !d1.Obj? || !d2.Obj? then d2
    else
      var a, b := d1.fields, d2.fields;
      Obj(map k | k in a.Keys + b.Keys ::
        if k !in a then b[k] else if k !in b then a[k] else MergeDiffs(a[k], b[k]))
  }

  // ---------------------------------------------------------------- properties

  /** An object's diff against itself is empty. */
  lemma ComputeDiffSelf(o: Value)
    requires o.Obj?
    ensures ComputeDiff(o, o) == EmptyObj
  {
    assert ComputeDiff(o, o).fields == map[];
  }

  /** Applying the empty diff to an object changes nothing. */
  lemma ApplyEmpty(o: Value)
    requires o.Obj?
    ensures ApplyDiff(o, EmptyObj) == o
  {
    assert ApplyDiff(o, EmptyObj).fields == o.fields;
  }

  /** The empty diff is a left and right unit of merging, for object diffs. */
  lemma MergeEmpty(d: Value)
    requires d.Obj?
    ensures MergeDiffs(EmptyObj, d) == d && MergeDiffs(d, EmptyObj) == d
  {
    assert MergeDiffs(EmptyObj, d).fields == d.fields;
    assert MergeDiffs(d, EmptyObj).fields == d.fields;
  }

  /** Merging with the empty object on the left gives back any diff. */
  lemma MergeEmptyLeft(d: Value)
    ensures MergeDiffs(EmptyObj, d) == d
  {
    if d.Obj? {
      MergeEmpty(d);
    }
  }

  /**
   * The round trip promised by compute_diff's docstring: applying the diff from
   * `o1` to `o2` to `o1` gives `o2`, provided `o2` never holds the delete marker
   * as a value (an `o2` that does is rebuilt without that key).
   */
  lemma {:induction false} RoundTrip(o1: Value, o2: Value)
    requires !ContainsDelete(o2)
    ensures ApplyDiff(o1, ComputeDiff(o1, o2)) == o2
  {
    if o1.Obj? && o2.Obj? {
      forall k | k in o1.fields && k in o2.fields && o1.fields[k] != o2.fields[k]
        ensures ApplyDiff(o1.fields[k], ComputeDiff(o1.fields[k], o2.fields[k])) == o2.fields[k]
      {
        FieldNotDelete(o2, k);
        RoundTrip(o1.fields[k], o2.fields[k]);
      }
      RoundTripFields(o1, o2);
    }
  }

  /** One level of the round trip, given the round trip for every changed nested value. */
  lemma RoundTripFields(o1: Value, o2: Value)
    requires o1.Obj? && o2.Obj? && !ContainsDelete(o2)
    requires forall k :: k in o1.fields && k in o2.fields && o1.fields[k] != o2.fields[k] ==>
      ApplyDiff(o1.fields[k], ComputeDiff(o1.fields[k], o2.fields[k])) == o2.fields[k]
    ensures ApplyDiff(o1, ComputeDiff(o1, o2)) == o2
  {
    var r := ApplyDiff(o1, ComputeDiff(o1, o2));
    forall k | k in o2.fields
      ensures k in r.fields && r.fields[k] == o2.fields[k]
    {
      FieldNotDelete(o2, k);
      RoundTripKept(o1, o2, k);
    }
    RoundTripKeys(o1, o2);
  }

  lemma RoundTripKeys(o1: Value, o2: Value)
    requires o1.Obj? && o2.Obj?
    requires var r := ApplyDiff(o1, ComputeDiff(o1, o2));
      forall k :: k in o2.fields ==> k in r.fields && r.fields[k] == o2.fields[k]
    ensures ApplyDiff(o1, ComputeDiff(o1, o2)) == o2
  {
    var r := ApplyDiff(o1, ComputeDiff(o1, o2));
    forall k | k !in o2.fields
      ensures k !in r.fields
    {
      RoundTripGone(o1, o2, k);
    }
    assert r.fields == o2.fields;
  }

  lemma FieldNotDelete(o: Value, k: string)
    requires o.Obj? && k in o.fields && !ContainsDelete(o)
    ensures !ContainsDelete(o.fields[k]) && !IsDelete(o.fields[k])
  {
    assert !ContainsDelete(o.fields[k]);
  }

  lemma RoundTripKept(o1: Value, o2: Value, k: string)
    requires o1.Obj? && o2.Obj? && k in o2.fields && !IsDelete(o2.fields[k])
    requires k in o1.fields && o1.fields[k] != o2.fields[k] ==>
      ApplyDiff(o1.fields[k], ComputeDiff(o1.fields[k], o2.fields[k])) == o2.fields[k]
    ensures var r := ApplyDiff(o1, ComputeDiff(o1, o2)); k in r.fields && r.fields[k] == o2.fields[k]
  {
    var d := ComputeDiff(o1, o2);
    if k in o1.fields && o1.fields[k] != o2.fields[k] {
      assert d.fields[k] == ComputeDiff(o1.fields[k], o2.fields[k]);
      assert !IsDelete(d.fields[k]);
    }
  }

  lemma RoundTripGone(o1: Value, o2: Value, k: string)
    requires o1.Obj? && o2.Obj? && k !in o2.fields
    ensures k !in ApplyDiff(o1, ComputeDiff(o1, o2)).fields
  {
  }

  /** Without the precondition the round trip fails: a stored "$delete" string is lost. */
  lemma RoundTripLosesDeleteString()
    ensures var o2 := Obj(map["k" := Str(DELETE)]);
      ApplyDiff(EmptyObj, ComputeDiff(EmptyObj, o2)) == EmptyObj != o2
  {
    var o2 := Obj(map["k" := Str(DELETE)]);
    assert ComputeDiff(EmptyObj, o2).fields["k"] == Str(DELETE);
    assert ApplyDiff(EmptyObj, ComputeDiff(EmptyObj, o2)).fields == map[];
    assert o2.fields["k"] == Str(DELETE);
  }

  /** A diff value inserted for a missing key is copied verbatim, nested markers included. */
  lemma ApplyInsertsVerbatim()
    ensures var inner := Obj(map["p" := Str(DELETE)]);
      ApplyDiff(EmptyObj, Obj(map["k" := inner])) == Obj(map["k" := inner])
  {
    var inner := Obj(map["p" := Str(DELETE)]);
    assert ApplyDiff(EmptyObj, Obj(map["k" := inner])).fields == map["k" := inner];
  }

  /**
   * The condition under which applying `d1` then `d2` to `x` agrees with applying
   * their merge: wherever `d2` reaches into an object by key, `d1` must have
   * touched that key with an object diff and `x` must hold the key, recursively.
   */
  predicate Composable(x: Value, d1: Value, d2: Value) {
    !d2.Obj? ||
    (x.Obj? && d1.Obj? &&
     forall k :: k in d1.fields && k in d2.fields && d2.fields[k].Obj? ==>
       k in x.fields && d1.fields[k].Obj? && Composable(x.fields[k], d1.fields[k], d2.fields[k]))
  }

  /** merge_diffs's docstring claim, under `Composable`. */
  lemma {:induction false} SequentialLaw(x: Value, d1: Value, d2: Value)
    requires Composable(x, d1, d2)
    ensures ApplyDiff(ApplyDiff(x, d1), d2) == ApplyDiff(x, MergeDiffs(d1, d2))
  {
    if d2.Obj? {
      var y := ApplyDiff(x, d1);
      var m := MergeDiffs(d1, d2);
      var lhs := ApplyDiff(y, d2);
      var rhs := ApplyDiff(x, m);
      forall k | k in d1.fields && k in d2.fields && d2.fields[k].Obj?
        ensures ApplyDiff(ApplyDiff(x.fields[k], d1.fields[k]), d2.fields[k])
             == ApplyDiff(x.fields[k], MergeDiffs(d1.fields[k], d2.fields[k]))
      {
        SequentialLaw(x.fields[k], d1.fields[k], d2.fields[k]);
      }
      forall k
        ensures k in lhs.fields <==> k in rhs.fields
        ensures k in lhs.fields ==> lhs.fields[k] == rhs.fields[k]
      {
        if k in d2.fields && k in d1.fields && !d2.fields[k].Obj? {
          assert m.fields[k] == d2.fields[k];
        }
      }
      assert lhs.fields == rhs.fields;
    }
  }

  /** Without `Composable` the law fails: a key deleted by `d1` comes back partly filled. */
  lemma SequentialLawFailsAfterDelete()
    ensures var x := Obj(map["k" := Obj(map["p" := Int(1), "q" := Int(2)])]);
      var d1 := Obj(map["k" := Str(DELETE)]);
      var d2 := Obj(map["k" := Obj(map["p" := Int(1)])]);
      ApplyDiff(ApplyDiff(x, d1), d2) != ApplyDiff(x, MergeDiffs(d1, d2))
  {
    var x := Obj(map["k" := Obj(map["p" := Int(1), "q" := Int(2)])]);
    var d1 := Obj(map["k" := Str(DELETE)]);
    var d2 := Obj(map["k" := Obj(map["p" := Int(1)])]);
    var inner := Obj(map["p" := Int(1)]);
    var y := ApplyDiff(x, d1);
    assert IsDelete(d1.fields["k"]);
    assert "k" !in y.fields;
    var lhs := ApplyDiff(y, d2);
    assert d2.fields["k"] == inner && !IsDelete(inner);
    assert lhs.fields["k"] == inner && "q" !in inner.fields;
    var m := MergeDiffs(d1, d2);
    assert m.fields["k"] == MergeDiffs(d1.fields["k"], inner) == inner;
    var rhs := ApplyDiff(x, m);
    var xk := x.fields["k"];
    assert rhs.fields["k"] == ApplyDiff(xk, inner);
    assert "q" in xk.fields;
    assert "q" in rhs.fields["k"].fields;
  }

  /** Nor does it hold when `d1` inserts the key that `d2` then edits: the marker is stored. */
  lemma SequentialLawFailsAfterInsert()
    ensures var d1 := Obj(map["k" := Obj(map["p" := Int(1)])]);
      var d2 := Obj(map["k" := Obj(map["p" := Str(DELETE)])]);
      ApplyDiff(ApplyDiff(EmptyObj, d1), d2) != ApplyDiff(EmptyObj, MergeDiffs(d1, d2))
  {
    var d1 := Obj(map["k" := Obj(map["p" := Int(1)])]);
    var d2 := Obj(map["k" := Obj(map["p" := Str(DELETE)])]);
    var y := ApplyDiff(EmptyObj, d1);
    assert y.fields["k"] == d1.fields["k"];
    var lhs := ApplyDiff(y, d2);
    assert lhs.fields["k"] == ApplyDiff(d1.fields["k"], d2.fields["k"]);
    assert "p" !in lhs.fields["k"].fields;
    var m := MergeDiffs(d1, d2);
    assert m.fields["k"] == MergeDiffs(d1.fields["k"], d2.fields["k"]);
    assert m.fields["k"].fields["p"] == Str(DELETE);
    var rhs := ApplyDiff(EmptyObj, m);
    assert rhs.fields["k"] == m.fields["k"];
    assert "p" in rhs.fields["k"].fields;
  }

  /**
   * Chaining two computed diffs through `x`, `y`, `z`: the merged diff rebuilds
   * `z` from `x` whenever the composition condition holds for the computed diffs.
   */
  lemma ChainedDiffs(x: Value, y: Value, z: Value)
    requires !ContainsDelete(y) && !ContainsDelete(z)
    requires Composable(x, ComputeDiff(x, y), ComputeDiff(y, z))
    ensures ApplyDiff(x, MergeDiffs(ComputeDiff(x, y), ComputeDiff(y, z))) == z
  {
    SequentialLaw(x, ComputeDiff(x, y), ComputeDiff(y, z));
    RoundTrip(x, y);
    RoundTrip(y, z);
  }

  /** The value at `k` before a diff: the field of an object, or `Null` where there is none. */
  function Prior(x: Value, k: string): Value {
    if x.Obj? && k in x.fields then x.fields[k] else Null
  }

  /** The entry of a computed diff at a key of its target is the diff of that key's values. */
  lemma DiffAt(x: Value, y: Value, k: string)
    requires y.Obj? && k in y.fields
    ensures k in ComputeDiff(x, y).fields ==> ComputeDiff(x, y).fields[k] == ComputeDiff(Prior(x, k), y.fields[k])
    ensures k !in ComputeDiff(x, y).fields ==> x.Obj? && k in x.fields && x.fields[k] == y.fields[k]
  {
  }

  /** A diff of a value that is not the marker is not the marker either. */
  lemma DiffNotDelete(x: Value, y: Value)
    requires !IsDelete(y)
    ensures !IsDelete(ComputeDiff(x, y))
  {
  }

  /** Applying a computed diff to its own target changes nothing. */
  lemma {:induction false} ReapplyTarget(x: Value, y: Value)
    requires !ContainsDelete(y)
    ensures ApplyDiff(y, ComputeDiff(x, y)) == y
    decreases y
  {
    if y.Obj? {
      var r := ApplyDiff(y, ComputeDiff(x, y));
      forall k | k in y.fields
        ensures k in r.fields && r.fields[k] == y.fields[k]
      {
        FieldNotDelete(y, k);
        ReapplyTarget(Prior(x, k), y.fields[k]);
        ReapplyKey(x, y, k);
      }
      assert r.fields == y.fields;
    }
  }

  lemma ReapplyKey(x: Value, y: Value, k: string)
    requires y.Obj? && k in y.fields && !IsDelete(y.fields[k])
    requires ApplyDiff(y.fields[k], ComputeDiff(Prior(x, k), y.fields[k])) == y.fields[k]
    ensures var r := ApplyDiff(y, ComputeDiff(x, y)); k in r.fields && r.fields[k] == y.fields[k]
  {
    DiffAt(x, y, k);
    DiffNotDelete(Prior(x, k), y.fields[k]);
  }

  /**
   * The other half of the chained-diff test: the merged diff also rebuilds `z`
   * from the middle value `y`, for every `x` and with no composition condition.
   */
  lemma {:induction false} ChainedFromMiddle(x: Value, y: Value, z: Value)
    requires !ContainsDelete(y) && !ContainsDelete(z)
    ensures ApplyDiff(y, MergeDiffs(ComputeDiff(x, y), ComputeDiff(y, z))) == z
    decreases y
  {
    if y.Obj? && z.Obj? {
      var r := ApplyDiff(y, MergeDiffs(ComputeDiff(x, y), ComputeDiff(y, z)));
      forall k
        ensures k in r.fields <==> k in z.fields
        ensures k in z.fields ==> r.fields[k] == z.fields[k]
      {
        if k in y.fields {
          FieldNotDelete(y, k);
          ReapplyTarget(Prior(x, k), y.fields[k]);
          if k in z.fields {
            FieldNotDelete(z, k);
            ChainedFromMiddle(Prior(x, k), y.fields[k], z.fields[k]);
            RoundTrip(y.fields[k], z.fields[k]);
            MiddleBoth(x, y, z, k);
          } else {
            MiddleGone(x, y, z, k);
          }
        } else {
          if k in z.fields {
            FieldNotDelete(z, k);
          }
          MiddleAbsent(x, y, z, k);
        }
      }
      assert r.fields == z.fields;
    }
  }

  /** A key of both `y` and `z`. */
  lemma MiddleBoth(x: Value, y: Value, z: Value, k: string)
    requires y.Obj? && z.Obj? && k in y.fields && k in z.fields
    requires !IsDelete(y.fields[k]) && !IsDelete(z.fields[k])
    requires ApplyDiff(y.fields[k], ComputeDiff(Prior(x, k), y.fields[k])) == y.fields[k]
    requires ApplyDiff(y.fields[k], ComputeDiff(y.fields[k], z.fields[k])) == z.fields[k]
    requires ApplyDiff(y.fields[k], MergeDiffs(ComputeDiff(Prior(x, k), y.fields[k]), ComputeDiff(y.fields[k], z.fields[k])))
      == z.fields[k]
    ensures var r := ApplyDiff(y, MergeDiffs(ComputeDiff(x, y), ComputeDiff(y, z)));
      k in r.fields && r.fields[k] == z.fields[k]
  {
    var d1, d2 := ComputeDiff(x, y), ComputeDiff(y, z);
    var m := MergeDiffs(d1, d2);
    DiffAt(x, y, k);
    DiffNotDelete(Prior(x, k), y.fields[k]);
    DiffNotDelete(y.fields[k], z.fields[k]);
    if k in d2.fields {
      assert d2.fields[k] == ComputeDiff(y.fields[k], z.fields[k]);
      assert !IsDelete(m.fields[k]);
    }
  }

  /** A key `z` no longer has: the merged diff deletes it from `y`. */
  lemma MiddleGone(x: Value, y: Value, z: Value, k: string)
    requires y.Obj? && z.Obj? && k in y.fields && k !in z.fields
    ensures k !in ApplyDiff(y, MergeDiffs(ComputeDiff(x, y), ComputeDiff(y, z))).fields
  {
    var m := MergeDiffs(ComputeDiff(x, y), ComputeDiff(y, z));
    assert IsDelete(m.fields[k]);
  }

  /** A key `y` lacks: the merged diff inserts `z`'s value, or deletes nothing. */
  lemma MiddleAbsent(x: Value, y: Value, z: Value, k: string)
    requires y.Obj? && z.Obj? && k !in y.fields
    requires k in z.fields ==> !IsDelete(z.fields[k])
    ensures var r := ApplyDiff(y, MergeDiffs(ComputeDiff(x, y), ComputeDiff(y, z)));
      (k in r.fields <==> k in z.fields) && (k in z.fields ==> r.fields[k] == z.fields[k])
  {
    var d1, d2 := ComputeDiff(x, y), ComputeDiff(y, z);
    var m := MergeDiffs(d1, d2);
    if k in d1.fields {
      assert IsDelete(d1.fields[k]);
    }
    if k in z.fields {
      assert m.fields[k] == z.fields[k];
    }
  }

  /** The diff from `a` to `c` that the test builds by merging the two computed steps. */
  function ChainedMerge(a: Value, b: Value, c: Value): Value {
    MergeDiffs(ComputeDiff(a, b), ComputeDiff(b, c))
  }

  /** What the test asserts of each triple: the merged diff rebuilds `c` from `a` and from `b`. */
  predicate Rebuilds(a: Value, b: Value, c: Value) {
    ApplyDiff(a, ChainedMerge(a, b, c)) == c && ApplyDiff(b, ChainedMerge(a, b, c)) == c
  }

  function One(k: string, v: Value): Value {
    Obj(map[k := v])
  }

  /** The six triples of the chained-diff test. */
  lemma ChainedTestTriples()
    ensures Rebuilds(One("foo", Str("a")), One("foo", Str("b")), One("foo", Str("c")))
    ensures Rebuilds(EmptyObj, One("foo", Str("b")), One("foo", Str("c")))
    ensures Rebuilds(One("foo", Str("a")), EmptyObj, One("foo", Str("c")))
    ensures Rebuilds(EmptyObj, One("foo", Str("b")), EmptyObj)
    ensures Rebuilds(EmptyObj, One("foo", One("bar", Str("b"))), One("foo", Str("c")))
    ensures Rebuilds(One("foo", One("bar", Str("a"))), One("foo", Str("b")), One("foo", One("bar", Str("b"))))
  {
    TripleFlat("foo", Str("a"), Str("b"), Str("c"));
    TripleAdded("foo", Str("b"), Str("c"));
    TripleAdded("foo", One("bar", Str("b")), Str("c"));
    TripleRemoved("foo", Str("a"), Str("c"));
    TripleDropped("foo", Str("b"));
    TripleReplaced("foo", "bar", Str("a"), Str("b"));
  }

  // One-key objects: each operation works on the single field.

  lemma OneDiff(k: string, a: Value, b: Value)
    ensures ComputeDiff(One(k, a), One(k, b)) == if a == b then EmptyObj else One(k, ComputeDiff(a, b))
  {
    assert ComputeDiff(One(k, a), One(k, b)).fields == (if a == b then map[] else map[k := ComputeDiff(a, b)]);
  }

  lemma AddDiff(k: string, b: Value)
    ensures ComputeDiff(EmptyObj, One(k, b)) == One(k, b)
  {
    assert ComputeDiff(EmptyObj, One(k, b)).fields == map[k := b];
  }

  lemma DropDiff(k: string, a: Value)
    ensures ComputeDiff(One(k, a), EmptyObj) == One(k, Str(DELETE))
  {
    assert ComputeDiff(One(k, a), EmptyObj).fields == map[k := Str(DELETE)];
  }

  lemma OneMerge(k: string, a: Value, b: Value)
    ensures MergeDiffs(One(k, a), One(k, b)) == One(k, MergeDiffs(a, b))
  {
    assert MergeDiffs(One(k, a), One(k, b)).fields == map[k := MergeDiffs(a, b)];
  }

  lemma OneApply(k: string, a: Value, d: Value)
    ensures ApplyDiff(One(k, a), One(k, d)) == if IsDelete(d) then EmptyObj else One(k, ApplyDiff(a, d))
  {
    assert ApplyDiff(One(k, a), One(k, d)).fields == (if IsDelete(d) then map[] else map[k := ApplyDiff(a, d)]);
  }

  lemma EmptyApply(k: string, d: Value)
    ensures ApplyDiff(EmptyObj, One(k, d)) == if IsDelete(d) then EmptyObj else One(k, d)
  {
    assert ApplyDiff(EmptyObj, One(k, d)).fields == (if IsDelete(d) then map[] else map[k := d]);
  }

  /** Triple 1: one string field changed twice. */
  lemma TripleFlat(k: string, a: Value, b: Value, c: Value)
    requires a.Str? && b.Str? && c.Str? && c.s != DELETE && a != b && b != c
    ensures Rebuilds(One(k, a), One(k, b), One(k, c))
  {
    OneDiff(k, a, b);
    OneDiff(k, b, c);
    OneMerge(k, b, c);
    OneApply(k, a, c);
    OneApply(k, b, c);
  }

  /** Triples 2 and 5: a field added, then replaced by a string. */
  lemma TripleAdded(k: string, b: Value, c: Value)
    requires c.Str? && c.s != DELETE && b != c
    ensures Rebuilds(EmptyObj, One(k, b), One(k, c))
  {
    AddDiff(k, b);
    OneDiff(k, b, c);
    OneMerge(k, b, ComputeDiff(b, c));
    EmptyApply(k, c);
    OneApply(k, b, c);
  }

  /** Triple 3: a field removed, then added back with another value. */
  lemma TripleRemoved(k: string, a: Value, c: Value)
    requires c.Str? && c.s != DELETE
    ensures Rebuilds(One(k, a), EmptyObj, One(k, c))
  {
    DropDiff(k, a);
    AddDiff(k, c);
    OneMerge(k, Str(DELETE), c);
    OneApply(k, a, c);
    EmptyApply(k, c);
  }

  /** Triple 4: a field added, then removed again. */
  lemma TripleDropped(k: string, b: Value)
    ensures Rebuilds(EmptyObj, One(k, b), EmptyObj)
  {
    AddDiff(k, b);
    DropDiff(k, b);
    OneMerge(k, b, Str(DELETE));
    EmptyApply(k, Str(DELETE));
    OneApply(k, b, Str(DELETE));
  }

  /** Triple 6: an object replaced by a string, then by an object again. */
  lemma TripleReplaced(k: string, f: string, a: Value, b: Value)
    requires a.Str? && b.Str? && b.s != DELETE && a != b
    ensures Rebuilds(One(k, One(f, a)), One(k, b), One(k, One(f, b)))
  {
    OneDiff(k, One(f, a), b);
    OneDiff(k, b, One(f, b));
    OneMerge(k, b, One(f, b));
    OneApply(k, One(f, a), One(f, b));
    OneApply(f, a, b);
    OneApply(k, b, One(f, b));
  }

  /**
   * The triples pass, but rebuilding from the first value is not general: when
   * `y` replaces an object by a string and `z` brings an object back, the merged
   * diff only patches the old object, whose other fields survive.
   */
  lemma ChainedFromStartFails()
    ensures var x := One("foo", Obj(map["bar" := Str("a"), "q" := Int(1)]));
      var y := One("foo", Str("b"));
      var z := One("foo", One("bar", Str("b")));
      !ContainsDelete(y) && !ContainsDelete(z) && ApplyDiff(x, ChainedMerge(x, y, z)) != z
  {
    FromStartKeepsField("foo", "bar", "q", Str("a"), Str("b"), Int(1));
  }

  lemma FromStartKeepsField(k: string, f: string, g: string, a: Value, b: Value, e: Value)
    requires f != g && b.Str? && b.s != DELETE
    ensures var x := One(k, Obj(map[f := a, g := e]));
      var y := One(k, b);
      var z := One(k, One(f, b));
      !ContainsDelete(y) && !ContainsDelete(z) && ApplyDiff(x, ChainedMerge(x, y, z)) != z
  {
    var xk := Obj(map[f := a, g := e]);
    OneClean(k, b);
    OneClean(f, b);
    OneClean(k, One(f, b));
    OneDiff(k, xk, b);
    OneDiff(k, b, One(f, b));
    OneMerge(k, b, One(f, b));
    OneApply(k, xk, One(f, b));
    var m := ChainedMerge(One(k, xk), One(k, b), One(k, One(f, b)));
    assert m == One(k, One(f, b));
    var r := ApplyDiff(xk, One(f, b));
    assert ApplyDiff(One(k, xk), m) == One(k, r);
    assert g in xk.fields && g in r.fields && g !in One(f, b).fields;
    assert One(k, r).fields[k] != One(k, One(f, b)).fields[k];
  }

  /** An object of one field holds the marker only where that field does. */
  lemma OneClean(k: string, v: Value)
    requires !ContainsDelete(v)
    ensures !ContainsDelete(One(k, v))
  {
    assert One(k, v).fields[k] == v;
  }
}
