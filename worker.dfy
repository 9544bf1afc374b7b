/**
 * hyperschedule/worker.py: its own copy of the diff helpers and DiffManager,
 * the rate limiter behind the scraper webhook, and the guard on scraper output.
 * compute_diff and apply_diff there are the same functions as in
 * hyperschedule/api/diff.py (Diff.ComputeDiff and Diff.ApplyDiff); merge_diffs
 * is written as "copy d1, then override with d2" and is proved equal to Diff's.
 */
module Worker {

  import opened Wrappers
  import opened Json
  import Text
  import Diff
  import DiffManager

  /** `list_startswith(lst, prefix)`: pairwise comparison over the common length. */
  function ListStartsWith<T(==)>(lst: seq<T>, prefix: seq<T>): (r: bool)
    ensures r <==> |prefix| <= |lst| && lst[..|prefix|] == prefix
  {
    |prefix| <= |lst| && PairsEqual(lst, prefix)
  }

  /** `all(a == b for a, b in zip(xs, ys))` */
  function PairsEqual<T(==)>(xs: seq<T>, ys: seq<T>): (r: bool)
    ensures r <==> forall i :: 0 <= i < |xs| && i < |ys| ==> xs[i] == ys[i]
  {
    if xs == [] || ys == [] then true
    else xs[0] == ys[0] && PairsEqual(xs[1..], ys[1..])
  }

  /** worker.py's `merge_diffs`: a copy of `d1` overridden key by key from `d2`. */
  function MergeDiffs(d1: Value, d2: Value): (m: Value)
  {
    if !d1.Obj? || !d2.Obj? then d2
    else
      var a, b := d1.fields, d2.fields;
      Obj(a + map k | k in b :: if k in a then MergeDiffs(a[k], b[k]) else b[k])
  }

  /** The worker's merge agrees with the API's merge on every pair of diffs. */
  lemma {:induction false} MergeDiffsAgree(d1: Value, d2: Value)
    ensures MergeDiffs(d1, d2) == Diff.MergeDiffs(d1, d2)
  {
    if d1.Obj? && d2.Obj? {
      var w := MergeDiffs(d1, d2);
      var m := Diff.MergeDiffs(d1, d2);
      forall k | k in d1.fields && k in d2.fields
        ensures MergeDiffs(d1.fields[k], d2.fields[k]) == Diff.MergeDiffs(d1.fields[k], d2.fields[k])
      {
        MergeDiffsAgree(d1.fields[k], d2.fields[k]);
      }
      assert w.fields == m.fields;
    }
  }

  /** The worker's DiffManager, which has no `from_state` and whose `since` is never `Unset`. */
  class Manager {
    var current: Option<DiffManager.Current>
    var entries: seq<DiffManager.Entry>

    function State(): DiffManager.ManagerState
      reads this
    {
      DiffManager.ManagerState(current, entries)
    }

    constructor ()
      ensures State() == DiffManager.ManagerState(None, [])
    {
      current := None;
      entries := [];
    }

    /** `set_current_data(new_age, new_data)`, with the worker's merge. */
    method SetCurrentData(newAge: int, newData: Value)
      modifies this
      ensures State() == DiffManager.Advance(old(State()), newAge, newData)
    {
      var diffs := entries;
      if |diffs| > 0 {
        diffs := DiffManager.PruneEntries(diffs, newAge);
      }
      if current.Some? {
        var newDiff := Diff.ComputeDiff(current.value.data, newData);
        diffs := diffs + [DiffManager.Entry(current.value.age, EmptyObj)];
        var merged := seq(|diffs|, i requires 0 <= i < |diffs| => DiffManager.Entry(diffs[i].age, MergeDiffs(diffs[i].diff, newDiff)));
        forall i | 0 <= i < |diffs| ensures merged[i] == DiffManager.MergeAll(diffs, newDiff)[i] {
          MergeDiffsAgree(diffs[i].diff, newDiff);
        }
        diffs := merged;
      }
      current := Some(DiffManager.Current(newAge, newData));
      entries := diffs;
    }

    /** `get_current_data()`: age and data, both `Unset` before the first update. */
    method GetCurrentData() returns (age: Option<int>, data: Option<Value>)
      ensures current.None? ==> age.None? && data.None?
      ensures current.Some? ==> age == Some(current.value.age) && data == Some(current.value.data)
    {
      match current
      case None => age, data := None, None;
      case Some(c) => age, data := Some(c.age), Some(c.data);
    }

    /** `get_diff_to_present(since)`: the same answer as the API manager gives for a set `since`. */
    method GetDiffToPresent(since: int) returns (r: DiffManager.Answer)
      ensures r == DiffManager.AnswerFor(State(), Some(since))
    {
      var es := entries;
      match current
      case None => r := DiffManager.Answer(None, None, None);
      case Some(c) =>
        if since >= c.age {
          return DiffManager.Answer(Some(EmptyObj), Some(false), Some(c.age));
        }
        var i := |es|;
        while i > 0
          invariant 0 <= i <= |es|
          invariant DiffManager.NewestAtOrBefore(es, since) == DiffManager.NewestAtOrBefore(es[..i], since)
        {
          i := i - 1;
          assert es[..i + 1][..i] == es[..i];
          if since >= es[i].age {
            assert DiffManager.NewestAtOrBefore(es, since) == Some(i);
            return DiffManager.Answer(Some(es[i].diff), Some(false), Some(c.age));
          }
        }
        assert es[..i] == [];
        r := DiffManager.Answer(Some(c.data), Some(true), Some(c.age));
    }
  }

  // ---------------------------------------------------------------- rate limiting

  /**
   * The state behind `rate_limited(rate_limit)`: the time of the last call that
   * went through. Clock readings are parameters (whole units, not float seconds).
   */
  class RateLimiter {
    const rateLimit: int
    var lastTimestamp: Option<int>

    constructor (rateLimit: int)
      ensures this.rateLimit == rateLimit && lastTimestamp.None?
    {
      this.rateLimit := rateLimit;
      lastTimestamp := None;
    }

    /** One call of the decorated function at time `now`; `ran` says whether it went through. */
    method Call(now: int) returns (ran: bool)
      modifies this
      ensures ran == Admits(old(lastTimestamp), rateLimit, now)
      ensures lastTimestamp == if ran then Some(now) else old(lastTimestamp)
    {
      if lastTimestamp.Some? && now - lastTimestamp.value < rateLimit {
        return false;
      }
      lastTimestamp := Some(now);
      ran := true;
    }
  }

  predicate Admits(last: Option<int>, rateLimit: int, now: int) {
    last.None? || now - last.value >= rateLimit
  }

  /** The times, among the calls at `times`, at which the function actually ran. */
  function Executed(last: Option<int>, rateLimit: int, times: seq<int>): seq<int>
    decreases |times|
  {
    if times == [] then []
    else if Admits(last, rateLimit, times[0]) then [times[0]] + Executed(Some(times[0]), rateLimit, times[1..])
    else Executed(last, rateLimit, times[1..])
  }

  /** Two calls that went through, one after the other, are at least `rateLimit` apart. */
  lemma {:induction false} ExecutedSpaced(last: Option<int>, rateLimit: int, times: seq<int>)
    ensures var ex := Executed(last, rateLimit, times);
      (forall i :: 0 <= i < |ex| - 1 ==> ex[i + 1] - ex[i] >= rateLimit)
      && (last.Some? && |ex| > 0 ==> ex[0] - last.value >= rateLimit)
    decreases |times|
  {
    if times != [] {
      if Admits(last, rateLimit, times[0]) {
        ExecutedSpaced(Some(times[0]), rateLimit, times[1..]);
      } else {
        ExecutedSpaced(last, rateLimit, times[1..]);
      }
    }
  }

  /** The first call always goes through. */
  lemma FirstCallRuns(rateLimit: int, times: seq<int>)
    requires |times| > 0
    ensures Executed(None, rateLimit, times)[0] == times[0]
  {
  }

  // ---------------------------------------------------------------- scraper output guard

  datatype ScrapeError = OutputContainsDelete

  /** The text check worker.py applies to the scraper's output before parsing it. */
  function CheckScraperOutput(output: string): (r: Result<string, ScrapeError>)
    ensures r.Ok? <==> !Text.Contains(output, DELETE)
    ensures r.Ok? ==> r.value == output
  {
    if Text.Contains(output, DELETE) then Err(OutputContainsDelete) else Ok(output)
  }

  /**
   * The guard is on the text, not on the decoded value: a JSON escape of the
   * dollar sign passes it, and decodes to the delete marker.
   */
  lemma EscapedMarkerPassesGuard()
    ensures CheckScraperOutput("[\"\\u0024delete\"]").Ok?
  {
    var s := "[\"\\u0024delete\"]";
    assert '$' !in s;
    assert !Text.Contains(s, DELETE) by {
      forall i | 0 <= i <= |s| ensures !Text.StartsWith(s[i..], DELETE) {
        if i < |s| {
          assert s[i] in s;
          assert DELETE[0] == '$';
        }
      }
      NoMatchAnywhere(s, DELETE);
    }
  }

  lemma {:induction false} NoMatchAnywhere(s: string, sub: string)
    requires forall i :: 0 <= i <= |s| ==> !Text.StartsWith(s[i..], sub)
    ensures !Text.Contains(s, sub)
  {
    assert s[0..] == s;
    if s != [] {
      forall i | 0 <= i <= |s[1..]| ensures !Text.StartsWith(s[1..][i..], sub) {
        assert s[1..][i..] == s[i + 1..];
      }
      NoMatchAnywhere(s[1..], sub);
    }
  }
}
