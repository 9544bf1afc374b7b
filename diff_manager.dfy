/**
 * hyperschedule/api/diff.py's DiffManager: the current snapshot with its age,
 * plus a pruned list of (age, diff-from-that-age-to-now) entries, oldest first.
 */
module DiffManager {

  import opened Wrappers
  import opened Json
  import Diff

  datatype Entry = Entry(age: int, diff: Value)

  datatype Current = Current(age: int, data: Value)

  /** The manager's `(age, data, diffs)` state; `current == None` is `(Unset, Unset, …)`. */
  datatype ManagerState = ManagerState(current: Option<Current>, entries: seq<Entry>)

  /** `get_diff_to_present`'s `(diff, full, current_age)`; `None` stands for `Unset`. */
  datatype Answer = Answer(data: Option<Value>, full: Option<bool>, age: Option<int>)

  function Pow2(n: nat): (p: nat)
    ensures p >= 1
  {
    if n == 0 then 1 else 2 * Pow2(n - 1)
  }

  // ---------------------------------------------------------------- pruning

  /**
   * The pruning pass, read newest to oldest: `rest` is still to be visited,
   * `kept` are the survivors so far and `threshold` the current
   * `long_enough_to_keep`.
   */
  function PruneFrom(rest: seq<Entry>, newAge: int, threshold: int, kept: seq<Entry>): seq<Entry>
    decreases |rest|
  {
    if rest == [] then kept
    else
      var e := rest[|rest| - 1];
      if newAge - e.age < threshold then PruneFrom(rest[..|rest| - 1], newAge, threshold, kept)
      else PruneFrom(rest[..|rest| - 1], newAge, 2 * threshold, [e] + kept)
  }

  function Pruned(entries: seq<Entry>, newAge: int): seq<Entry> {
    PruneFrom(entries, newAge, 1, [])
  }

  /** The pruning loop of `set_current_data` (diff.py:103-115). */
  method PruneEntries(diffs: seq<Entry>, newAge: int) returns (kept: seq<Entry>)
    ensures kept == Pruned(diffs, newAge)
  {
    kept := diffs;
    var longEnoughToKeep := 1;
    var i := |diffs|;
    assert diffs[..i] == diffs && kept[i..] == [];
    while i > 0
      invariant 0 <= i <= |diffs| && i <= |kept|
      invariant kept[..i] == diffs[..i]
      invariant PruneFrom(diffs[..i], newAge, longEnoughToKeep, kept[i..]) == Pruned(diffs, newAge)
    {
      i := i - 1;
      var e := kept[i];
      assert diffs[..i + 1][..i] == diffs[..i];
      if newAge - e.age < longEnoughToKeep {
        kept := kept[..i] + kept[i + 1..];
        assert kept[..i] == diffs[..i];
      } else {
        longEnoughToKeep := longEnoughToKeep * 2;
        assert kept[i..] == [e] + kept[i + 1..];
      }
    }
    assert diffs[..0] == [];
  }

  /** The k-th kept entry counted from the newest (k = 0) is at least 2^k older than the new age. */
  ghost predicate SpacedOut(kept: seq<Entry>, newAge: int) {
    forall i :: 0 <= i < |kept| ==> newAge - kept[i].age >= Pow2(|kept| - 1 - i)
  }

  lemma {:induction false} PruneFromSpacedOut(rest: seq<Entry>, newAge: int, threshold: int, kept: seq<Entry>)
    requires SpacedOut(kept, newAge) && threshold == Pow2(|kept|)
    ensures SpacedOut(PruneFrom(rest, newAge, threshold, kept), newAge)
    decreases |rest|
  {
    if rest != [] {
      var e := rest[|rest| - 1];
      if newAge - e.age < threshold {
        PruneFromSpacedOut(rest[..|rest| - 1], newAge, threshold, kept);
      } else {
        var more := [e] + kept;
        forall i | 0 <= i < |more| ensures newAge - more[i].age >= Pow2(|more| - 1 - i) {
          if i > 0 { assert more[i] == kept[i - 1]; }
        }
        PruneFromSpacedOut(rest[..|rest| - 1], newAge, 2 * threshold, more);
      }
    }
  }

  /** The survivors of pruning are spaced out by powers of two. */
  lemma PrunedSpacedOut(entries: seq<Entry>, newAge: int)
    ensures SpacedOut(Pruned(entries, newAge), newAge)
  {
    PruneFromSpacedOut(entries, newAge, 1, []);
  }

  /** `a` is `b` with some elements left out, order kept. */
  ghost predicate IsSubsequence(a: seq<Entry>, b: seq<Entry>)
    decreases |b|
  {
    if a == [] then true
    else if b == [] then false
    else ((a[|a| - 1] == b[|b| - 1] && IsSubsequence(a[..|a| - 1], b[..|b| - 1]))
          || IsSubsequence(a, b[..|b| - 1]))
  }

  lemma {:induction false} PruneFromSubsequence(rest: seq<Entry>, newAge: int, threshold: int, kept: seq<Entry>)
    ensures exists s :: IsSubsequence(s, rest) && PruneFrom(rest, newAge, threshold, kept) == s + kept
    decreases |rest|
  {
    if rest == [] {
      assert IsSubsequence([], rest) && PruneFrom(rest, newAge, threshold, kept) == [] + kept;
    } else {
      var e := rest[|rest| - 1];
      var front := rest[..|rest| - 1];
      if newAge - e.age < threshold {
        PruneFromSubsequence(front, newAge, threshold, kept);
        var s :| IsSubsequence(s, front) && PruneFrom(front, newAge, threshold, kept) == s + kept;
        assert IsSubsequence(s, rest) by {
          if s != [] {
            assert IsSubsequence(s, rest[..|rest| - 1]);
          }
        }
      } else {
        PruneFromSubsequence(front, newAge, 2 * threshold, [e] + kept);
        var s :| IsSubsequence(s, front) && PruneFrom(front, newAge, 2 * threshold, [e] + kept) == s + ([e] + kept);
        var s' := s + [e];
        assert s'[..|s'| - 1] == s;
        assert IsSubsequence(s', rest);
        assert s + ([e] + kept) == s' + kept;
      }
    }
  }

  /** Pruning only drops entries: the survivors are a subsequence of the input, in order. */
  lemma PrunedIsSubsequence(entries: seq<Entry>, newAge: int)
    ensures IsSubsequence(Pruned(entries, newAge), entries)
  {
    PruneFromSubsequence(entries, newAge, 1, []);
    var s :| IsSubsequence(s, entries) && Pruned(entries, newAge) == s + [];
    assert s + [] == s;
  }

  function Log2Floor(x: nat): nat
    requires x >= 1
  {
    if x == 1 then 0 else 1 + Log2Floor(x / 2)
  }

  lemma {:induction false} Log2FloorBound(n: nat, x: nat)
    requires x >= 1 && Pow2(n) <= x
    ensures n <= Log2Floor(x)
  {
    if n > 0 {
      Log2FloorBound(n - 1, x / 2);
    }
  }

  /**
   * The logarithmic-memory promise: when every entry is at least as new as `lo`
   * and `lo` is before the new age, at most log2(newAge - lo) + 1 entries survive.
   */
  lemma PrunedLogarithmic(entries: seq<Entry>, newAge: int, lo: int)
    requires lo < newAge
    requires forall i :: 0 <= i < |entries| ==> entries[i].age >= lo
    ensures |Pruned(entries, newAge)| <= Log2Floor(newAge - lo) + 1
  {
    var kept := Pruned(entries, newAge);
    if |kept| > 0 {
      PrunedSpacedOut(entries, newAge);
      PrunedIsSubsequence(entries, newAge);
      SubsequenceMembers(kept, entries);
      assert kept[0] in entries;
      Log2FloorBound(|kept| - 1, newAge - lo);
    }
  }

  lemma {:induction false} SubsequenceMembers(a: seq<Entry>, b: seq<Entry>)
    requires IsSubsequence(a, b)
    ensures forall e :: e in a ==> e in b
    decreases |b|
  {
    if a != [] {
      if a[|a| - 1] == b[|b| - 1] && IsSubsequence(a[..|a| - 1], b[..|b| - 1]) {
        SubsequenceMembers(a[..|a| - 1], b[..|b| - 1]);
        assert a == a[..|a| - 1] + [a[|a| - 1]];
        assert b == b[..|b| - 1] + [b[|b| - 1]];
      } else {
        SubsequenceMembers(a, b[..|b| - 1]);
        assert b == b[..|b| - 1] + [b[|b| - 1]];
      }
    }
  }

  // ---------------------------------------------------------------- updating

  function MergeAll(entries: seq<Entry>, newDiff: Value): (r: seq<Entry>)
    ensures |r| == |entries|
    ensures forall i :: 0 <= i < |r| ==> r[i].age == entries[i].age
  {
    seq(|entries|, i requires 0 <= i < |entries| => Entry(entries[i].age, Diff.MergeDiffs(entries[i].diff, newDiff)))
  }

  /** The state `set_current_data(newAge, newData)` leaves behind. */
  function Advance(s: ManagerState, newAge: int, newData: Value): ManagerState {
    var kept := Pruned(s.entries, newAge);
    match s.current
    case None => ManagerState(Some(Current(newAge, newData)), kept)
    case Some(c) =>
      ManagerState(Some(Current(newAge, newData)),
        MergeAll(kept + [Entry(c.age, EmptyObj)], Diff.ComputeDiff(c.data, newData)))
  }

  /** The entry pushed for the previous snapshot carries exactly the diff from it to the new data. */
  lemma AdvancePushesDiff(s: ManagerState, newAge: int, newData: Value)
    requires s.current.Some?
    ensures var entries := Advance(s, newAge, newData).entries;
      |entries| > 0 && entries[|entries| - 1] == Entry(s.current.value.age, Diff.ComputeDiff(s.current.value.data, newData))
  {
    Diff.MergeEmptyLeft(Diff.ComputeDiff(s.current.value.data, newData));
  }

  /**
   * If an entry's diff rebuilt the current data from the snapshot `x` of its
   * age, its merged diff rebuilds the new data from `x` (given the composition
   * condition of the diff algebra and no stored delete marker).
   */
  lemma MergedEntryRebuilds(x: Value, e: Entry, cur: Value, newData: Value)
    requires Diff.ApplyDiff(x, e.diff) == cur
    requires !ContainsDelete(newData)
    requires Diff.Composable(x, e.diff, Diff.ComputeDiff(cur, newData))
    ensures Diff.ApplyDiff(x, Diff.MergeDiffs(e.diff, Diff.ComputeDiff(cur, newData))) == newData
  {
    Diff.SequentialLaw(x, e.diff, Diff.ComputeDiff(cur, newData));
    Diff.RoundTrip(cur, newData);
  }

  // ---------------------------------------------------------------- querying

  /** The newest entry whose age is at or before `since`. */
  function NewestAtOrBefore(entries: seq<Entry>, since: int): (r: Option<nat>)
    ensures r.Some? ==> r.value < |entries| && since >= entries[r.value].age
    ensures r.Some? ==> forall i :: r.value < i < |entries| ==> since < entries[i].age
    ensures r.None? ==> forall i :: 0 <= i < |entries| ==> since < entries[i].age
  {
    if entries == [] then None
    else if since >= entries[|entries| - 1].age then Some(|entries| - 1)
    else NewestAtOrBefore(entries[..|entries| - 1], since)
  }

  /** What `get_diff_to_present(since)` returns in state `s`; `since == None` asks for everything. */
  function AnswerFor(s: ManagerState, since: Option<int>): Answer {
    match (since, s.current)
    case (None, None) => Answer(None, Some(true), None)
    case (None, Some(c)) => Answer(Some(c.data), Some(true), Some(c.age))
    case (Some(_), None) => Answer(None, None, None)
    case (Some(t), Some(c)) =>
      if t >= c.age then Answer(Some(EmptyObj), Some(false), Some(c.age))
      else match NewestAtOrBefore(s.entries, t)
        case Some(j) => Answer(Some(s.entries[j].diff), Some(false), Some(c.age))
        case None => Answer(Some(c.data), Some(true), Some(c.age))
  }

  class Manager {
    var current: Option<Current>
    var entries: seq<Entry>

    function State(): ManagerState
      reads this
    {
      ManagerState(current, entries)
    }

    /** `DiffManager()` */
    constructor ()
      ensures State() == ManagerState(None, [])
    {
      current := None;
      entries := [];
    }

    /** `DiffManager(from_state=s)` */
    constructor FromState(s: ManagerState)
      ensures State() == s
    {
      current := s.current;
      entries := s.entries;
    }

    /** `get_state()` */
    method GetState() returns (s: ManagerState)
      ensures s == State()
    {
      s := ManagerState(current, entries);
    }

    /** `set_current_data(new_age, new_data)` */
    method SetCurrentData(newAge: int, newData: Value)
      modifies this
      ensures State() == Advance(old(State()), newAge, newData)
    {
      var diffs := entries;
      if |diffs| > 0 {
        diffs := PruneEntries(diffs, newAge);
      }
      if current.Some? {
        var newDiff := Diff.ComputeDiff(current.value.data, newData);
        diffs := diffs + [Entry(current.value.age, EmptyObj)];
        diffs := MergeAll(diffs, newDiff);
      }
      current := Some(Current(newAge, newData));
      entries := diffs;
    }

    /** `get_diff_to_present(since)`: the loop scans the entries newest first. */
    method GetDiffToPresent(since: Option<int>) returns (r: Answer)
      ensures r == AnswerFor(State(), since)
    {
      var cur, es := current, entries;
      if since.Some? {
        if cur.None? {
          return Answer(None, None, None);
        }
        if since.value >= cur.value.age {
          return Answer(Some(EmptyObj), Some(false), Some(cur.value.age));
        }
        var i := |es|;
        while i > 0
          invariant 0 <= i <= |es|
          invariant NewestAtOrBefore(es, since.value) == NewestAtOrBefore(es[..i], since.value)
        {
          i := i - 1;
          assert es[..i + 1][..i] == es[..i];
          if since.value >= es[i].age {
            assert NewestAtOrBefore(es, since.value) == Some(i);
            return Answer(Some(es[i].diff), Some(false), Some(cur.value.age));
          }
        }
        assert es[..i] == [];
      }
      match cur
      case None => r := Answer(None, Some(true), None);
      case Some(c) => r := Answer(Some(c.data), Some(true), Some(c.age));
    }
  }

  /** A request at or after the current age gets the empty diff; one before every entry gets the full data. */
  lemma AnswerCases(s: ManagerState, since: int)
    requires s.current.Some?
    ensures since >= s.current.value.age ==> AnswerFor(s, Some(since)) == Answer(Some(EmptyObj), Some(false), Some(s.current.value.age))
    ensures since < s.current.value.age && (forall i :: 0 <= i < |s.entries| ==> since < s.entries[i].age) ==>
      AnswerFor(s, Some(since)) == Answer(Some(s.current.value.data), Some(true), Some(s.current.value.age))
  {
  }
}
