/**
 * The older Portal server (server.py): an index of the current courses, an
 * update log of added / removed / modified course keys capped at
 * `MAX_UPDATES_SAVED` entries, the fold `compute_diff(since)` that collapses
 * the log since a timestamp, and the choice between an incremental and a full
 * answer for `/api/v2/courses-since/<since>`.
 */
module Server {

  import opened Wrappers
  import opened Text
  import opened Json
  import opened CourseKeys

  /** `COURSE_ATTRS` of server.py, in order. */
  const COURSE_ATTRS: seq<string> := [
    "courseCodeSuffix", "courseName", "courseNumber", "courseStatus", "department", "endDate",
    "faculty", "firstHalfSemester", "openSeats", "quarterCredits", "schedule", "school",
    "secondHalfSemester", "section", "startDate", "totalSeats"]

  const MAX_UPDATES_SAVED: nat := 100

  // ---------------------------------------------------------------- index_courses

  predicate AllIndexable(courses: seq<Course>) {
    forall i :: 0 <= i < |courses| ==> HasIndexFields(courses[i])
  }

  predicate DistinctKeys(courses: seq<Course>)
    requires AllIndexable(courses)
  {
    forall i, j :: 0 <= i < j < |courses| ==> IndexKey(courses[i]) != IndexKey(courses[j])
  }

  /** The index key of every course, in order. */
  function Keys(courses: seq<Course>): (keys: seq<string>)
    requires AllIndexable(courses)
    ensures |keys| == |courses| && forall i :: 0 <= i < |courses| ==> keys[i] == IndexKey(courses[i])
  {
    seq(|courses|, i requires 0 <= i < |courses| => IndexKey(courses[i]))
  }

  /**
   * `index_courses`: maps each course's index key to the course; `None` where
   * the source raises "more than one course matching", which happens exactly
   * when two courses share a key.
   */
  method IndexCourses(courses: seq<Course>) returns (r: Option<map<string, Course>>)
    requires AllIndexable(courses)
    ensures r.Some? <==> DistinctKeys(courses)
    ensures r.Some? ==> r.value.Keys == set i | 0 <= i < |courses| :: IndexKey(courses[i])
    ensures r.Some? ==> forall i :: 0 <= i < |courses| ==> r.value[IndexKey(courses[i])] == courses[i]
  {
    var keys := Keys(courses);
    r := IndexBy(courses, keys);
    assert (set i | 0 <= i < |courses| :: keys[i]) == set i | 0 <= i < |courses| :: IndexKey(courses[i]);
  }

  /** The loop of `index_courses`, with `keys[i]` the key of `items[i]`. */
  method IndexBy(items: seq<Course>, keys: seq<string>) returns (r: Option<map<string, Course>>)
    requires |keys| == |items|
    ensures r.Some? <==> forall i, j :: 0 <= i < j < |keys| ==> keys[i] != keys[j]
    ensures r.Some? ==> r.value.Keys == set i | 0 <= i < |keys| :: keys[i]
    ensures r.Some? ==> forall i :: 0 <= i < |keys| ==> r.value[keys[i]] == items[i]
  {
    var index: map<string, Course> := map[];
    var i := 0;
    while i < |items|
      invariant 0 <= i <= |items|
      invariant forall a, b :: 0 <= a < b < i ==> keys[a] != keys[b]
      invariant index.Keys == set j | 0 <= j < i :: keys[j]
      invariant forall j :: 0 <= j < i ==> index[keys[j]] == items[j]
    {
      var key := keys[i];
      if key in index {
        var j :| 0 <= j < i && keys[j] == key;
        return None;
      }
      index := index[key := items[i]];
      i := i + 1;
    }
    r := Some(index);
  }

  // ---------------------------------------------------------------- compute_update

  /** What `compute_update` records for one pair of consecutive indexes. */
  datatype Update = Update(added: set<string>, removed: set<string>, modified: map<string, seq<string>>)

  predicate HasAllAttrs(c: Course) {
    forall k :: 0 <= k < |COURSE_ATTRS| ==> COURSE_ATTRS[k] in c
  }

  predicate AllComplete(index: map<string, Course>) {
    forall k :: k in index ==> HasAllAttrs(index[k])
  }

  /** The attributes among `attrs` on which the two courses differ, in the order of `attrs`. */
  function ChangedAttrs(o: Course, n: Course, attrs: seq<string>): (r: seq<string>)
    requires forall k :: 0 <= k < |attrs| ==> attrs[k] in o && attrs[k] in n
    ensures |r| <= |attrs|
  {
    if attrs == [] then []
    else
      var a := attrs[|attrs| - 1];
      ChangedAttrs(o, n, attrs[..|attrs| - 1]) + (if o[a] != n[a] then [a] else [])
  }

  /** The changed attributes are exactly those of `attrs` whose values differ. */
  lemma {:induction false} ChangedAttrsMembers(o: Course, n: Course, attrs: seq<string>)
    requires forall k :: 0 <= k < |attrs| ==> attrs[k] in o && attrs[k] in n
    ensures forall a :: a in ChangedAttrs(o, n, attrs) <==> a in attrs && o[a] != n[a]
  {
    if attrs != [] {
      ChangedAttrsMembers(o, n, attrs[..|attrs| - 1]);
      assert attrs == attrs[..|attrs| - 1] + [attrs[|attrs| - 1]];
    }
  }

  /**
   * The changed attributes come in the order of `attrs`: the k-th sits at
   * `pos[k]` in `attrs`, with `pos` strictly increasing.
   */
  predicate InOrderOf(r: seq<string>, attrs: seq<string>, pos: seq<nat>) {
    |pos| == |r|
    && (forall k :: 0 <= k < |pos| ==> pos[k] < |attrs| && attrs[pos[k]] == r[k])
    && (forall k, l :: 0 <= k < l < |pos| ==> pos[k] < pos[l])
  }

  lemma {:induction false} ChangedAttrsOrdered(o: Course, n: Course, attrs: seq<string>) returns (pos: seq<nat>)
    requires forall k :: 0 <= k < |attrs| ==> attrs[k] in o && attrs[k] in n
    ensures InOrderOf(ChangedAttrs(o, n, attrs), attrs, pos)
  {
    if attrs == [] {
      pos := [];
    } else {
      var init := attrs[..|attrs| - 1];
      var a := attrs[|attrs| - 1];
      var p := ChangedAttrsOrdered(o, n, init);
      assert forall k :: 0 <= k < |init| ==> attrs[k] == init[k];
      pos := if o[a] != n[a] then p + [|init|] else p;
    }
  }

  /** The differing attributes of the course under key `k` in two indexes. */
  function Changed(prev: map<string, Course>, next: map<string, Course>, k: string): seq<string>
    requires AllComplete(prev) && AllComplete(next) && k in prev && k in next
  {
    ChangedAttrs(prev[k], next[k], COURSE_ATTRS)
  }

  /** `modified` is right for the shared keys in `keys`: exactly the changed ones, with their lists. */
  predicate ModifiedFor(prev: map<string, Course>, next: map<string, Course>, keys: set<string>, modified: map<string, seq<string>>)
    requires AllComplete(prev) && AllComplete(next)
  {
    modified.Keys <= keys
    && (forall k :: k in keys && k in prev && k in next ==> (k in modified <==> Changed(prev, next, k) != []))
    && (forall k :: k in modified && k in prev && k in next ==> modified[k] == Changed(prev, next, k))
  }

  /** The update `compute_update` records between two indexes. */
  function UpdateSpec(prev: map<string, Course>, next: map<string, Course>): Update
    requires AllComplete(prev) && AllComplete(next)
  {
    Update(next.Keys - prev.Keys, prev.Keys - next.Keys,
      map k | k in prev && k in next && Changed(prev, next, k) != [] :: Changed(prev, next, k))
  }

  /** The inner loop of `compute_update`: the differing `COURSE_ATTRS` of one course, in order. */
  method DifferingAttrs(o: Course, n: Course) returns (attrs: seq<string>)
    requires HasAllAttrs(o) && HasAllAttrs(n)
    ensures attrs == ChangedAttrs(o, n, COURSE_ATTRS)
  {
    attrs := [];
    var i := 0;
    while i < |COURSE_ATTRS|
      invariant 0 <= i <= |COURSE_ATTRS|
      invariant attrs == ChangedAttrs(o, n, COURSE_ATTRS[..i])
    {
      var a := COURSE_ATTRS[i];
      assert COURSE_ATTRS[..i + 1][..i] == COURSE_ATTRS[..i];
      if o[a] != n[a] {
        attrs := attrs + [a];
      }
      i := i + 1;
    }
    assert COURSE_ATTRS[..i] == COURSE_ATTRS;
  }

  /**
   * `compute_update`: `added` are the new keys, `removed` the dropped keys, and
   * `modified` maps each shared key whose course changed to its non-empty list
   * of differing attributes.
   */
  method ComputeUpdate(prev: map<string, Course>, next: map<string, Course>) returns (u: Update)
    requires AllComplete(prev) && AllComplete(next)
    ensures u == UpdateSpec(prev, next)
  {
    var keys := next.Keys * prev.Keys;
    ghost var shared := keys;
    var modified: map<string, seq<string>> := map[];
    ghost var done: set<string> := {};
    while keys != {}
      invariant keys !! done && keys + done == shared
      invariant ModifiedFor(prev, next, done, modified)
      decreases |keys|
    {
      var key :| key in keys;
      modified := RecordKey(prev, next, done, modified, key);
      keys := keys - {key};
      done := done + {key};
    }
    u := Update(next.Keys - prev.Keys, prev.Keys - next.Keys, modified);
    SameModified(prev, next, modified);
  }

  /** One turn of the outer loop of `compute_update`: records `key` if its course changed. */
  method RecordKey(prev: map<string, Course>, next: map<string, Course>, ghost done: set<string>,
                   modified: map<string, seq<string>>, key: string) returns (r: map<string, seq<string>>)
    requires AllComplete(prev) && AllComplete(next) && key in prev && key in next
    requires ModifiedFor(prev, next, done, modified)
    ensures ModifiedFor(prev, next, done + {key}, r)
  {
    var attrs := DifferingAttrs(prev[key], next[key]);
    ModifiedStep(prev, next, done, modified, key, attrs);
    r := if attrs != [] then modified[key := attrs] else modified;
  }

  lemma ModifiedStep(prev: map<string, Course>, next: map<string, Course>, done: set<string>,
                     modified: map<string, seq<string>>, key: string, attrs: seq<string>)
    requires AllComplete(prev) && AllComplete(next) && key in prev && key in next
    requires ModifiedFor(prev, next, done, modified) && attrs == Changed(prev, next, key)
    ensures ModifiedFor(prev, next, done + {key}, if attrs != [] then modified[key := attrs] else modified)
  {
  }

  lemma SameModified(prev: map<string, Course>, next: map<string, Course>, modified: map<string, seq<string>>)
    requires AllComplete(prev) && AllComplete(next)
    requires ModifiedFor(prev, next, next.Keys * prev.Keys, modified)
    ensures modified == UpdateSpec(prev, next).modified
  {
  }

  /**
   * What `compute_update` records: `added` are the new keys, `removed` the
   * dropped ones, and `modified` maps each shared key whose course changed
   * (and only those) to the differing attributes, each listed once and in
   * `COURSE_ATTRS` order.
   */
  lemma UpdateSpecMeaning(prev: map<string, Course>, next: map<string, Course>)
    requires AllComplete(prev) && AllComplete(next)
    ensures var u := UpdateSpec(prev, next);
      u.added == next.Keys - prev.Keys && u.removed == prev.Keys - next.Keys
      && (forall k :: k in u.modified <==> k in prev && k in next && exists a :: a in COURSE_ATTRS && prev[k][a] != next[k][a])
      && (forall k, a :: k in u.modified ==> (a in u.modified[k] <==> a in COURSE_ATTRS && prev[k][a] != next[k][a]))
  {
    var u := UpdateSpec(prev, next);
    forall k | k in prev && k in next
      ensures forall a :: a in Changed(prev, next, k) <==> a in COURSE_ATTRS && prev[k][a] != next[k][a]
      ensures k in u.modified <==> exists a :: a in COURSE_ATTRS && prev[k][a] != next[k][a]
    {
      ChangedAttrsMembers(prev[k], next[k], COURSE_ATTRS);
      if Changed(prev, next, k) != [] {
        var a := Changed(prev, next, k)[0];
        assert a in COURSE_ATTRS && prev[k][a] != next[k][a];
      }
    }
  }

  lemma {:induction false} NothingChanged(c: Course, attrs: seq<string>)
    requires forall k :: 0 <= k < |attrs| ==> attrs[k] in c
    ensures ChangedAttrs(c, c, attrs) == []
  {
    if attrs != [] {
      NothingChanged(c, attrs[..|attrs| - 1]);
    }
  }

  /** An index compared with itself records no change. */
  lemma UpdateOfSame(index: map<string, Course>)
    requires AllComplete(index)
    ensures UpdateSpec(index, index) == Update({}, {}, map[])
  {
    forall k | k in index
      ensures ChangedAttrs(index[k], index[k], COURSE_ATTRS) == []
    {
      NothingChanged(index[k], COURSE_ATTRS);
    }
  }

  // ---------------------------------------------------------------- compute_diff(since)

  /** The sets `added`, `removed` and the dict `modified` that `compute_diff` folds the log into. */
  datatype Pending = Pending(added: set<string>, removed: set<string>, modified: map<string, set<string>>)

  const NoPending := Pending({}, {}, map[])

  function AllAttrSet(): set<string> {
    set k | 0 <= k < |COURSE_ATTRS| :: COURSE_ATTRS[k]
  }

  /** The `modified` loop; `None` where `assert key not in removed` fails. */
  function FoldModified(p: Pending, m: map<string, seq<string>>): Option<Pending> {
    if exists k :: k in m && k in p.removed then None
    else Some(p.(modified := map k | k in p.modified.Keys + m.Keys ::
      (if k in p.modified then p.modified[k] else {}) + (if k in m then set a | a in m[k] else {})))
  }

  /** The `added` loop; `None` where `assert key not in modified and key not in added` fails. */
  function FoldAdded(p: Pending, a: set<string>): Option<Pending> {
    if exists k :: k in a && (k in p.modified || k in p.added) then None
    else Some(Pending(
      p.added + (a - p.removed),
      p.removed - a,
      map k | k in p.modified.Keys + (a * p.removed) :: if k in a then AllAttrSet() else p.modified[k]))
  }

  /** The `removed` loop; `None` where `assert key not in removed` fails. */
  function FoldRemoved(p: Pending, r: set<string>): Option<Pending> {
    if exists k :: k in r && k in p.removed then None
    else Some(Pending(p.added - r, p.removed + (r - p.added), p.modified - r))
  }

  /** One update of the log, folded in. */
  function FoldUpdate(p: Pending, u: Update): Option<Pending> {
    match FoldModified(p, u.modified)
    case None => None
    case Some(p1) =>
      match FoldAdded(p1, u.added)
      case None => None
      case Some(p2) => FoldRemoved(p2, u.removed)
  }

  /** The fold over the log, counting only the updates stamped after `since`. */
  function Collapse(updates: seq<(int, Update)>, since: int): Option<Pending> {
    if updates == [] then Some(NoPending)
    else
      match Collapse(updates[..|updates| - 1], since)
      case None => None
      case Some(p) =>
        var (timestamp, u) := updates[|updates| - 1];
        if timestamp > since then FoldUpdate(p, u) else Some(p)
  }

  /** The loop of `compute_diff(since)` over the log; `None` where one of its assertions fails. */
  method CollapseSince(updates: seq<(int, Update)>, since: int) returns (r: Option<Pending>)
    ensures r == Collapse(updates, since)
  {
    var p := NoPending;
    var i := 0;
    while i < |updates|
      invariant 0 <= i <= |updates|
      invariant Collapse(updates[..i], since) == Some(p)
    {
      var (timestamp, u) := updates[i];
      assert updates[..i + 1][..i] == updates[..i];
      if timestamp > since {
        var q := FoldUpdate(p, u);
        if q.None? {
          CollapseNoneStays(updates, since, i + 1);
          return None;
        }
        p := q.value;
      }
      i := i + 1;
    }
    assert updates[..i] == updates;
    r := Some(p);
  }

  /** Once the fold has failed, it stays failed. */
  lemma {:induction false} CollapseNoneStays(updates: seq<(int, Update)>, since: int, i: nat)
    requires i <= |updates| && Collapse(updates[..i], since).None?
    ensures Collapse(updates, since).None?
    decreases |updates| - i
  {
    if i < |updates| {
      assert updates[..i + 1][..i] == updates[..i];
      CollapseNoneStays(updates, since, i + 1);
    } else {
      assert updates[..i] == updates;
    }
  }

  /** `removed` never meets `added` or the keys of `modified` (the assertions of the fold). */
  predicate Disjoint(p: Pending) {
    p.removed * (p.added + p.modified.Keys) == {}
  }

  lemma FoldUpdateDisjoint(p: Pending, u: Update)
    requires Disjoint(p) && FoldUpdate(p, u).Some?
    ensures Disjoint(FoldUpdate(p, u).value)
  {
  }

  lemma {:induction false} CollapseDisjoint(updates: seq<(int, Update)>, since: int)
    requires Collapse(updates, since).Some?
    ensures Disjoint(Collapse(updates, since).value)
  {
    if updates != [] {
      CollapseDisjoint(updates[..|updates| - 1], since);
      var p := Collapse(updates[..|updates| - 1], since).value;
      if updates[|updates| - 1].0 > since {
        FoldUpdateDisjoint(p, updates[|updates| - 1].1);
      }
    }
  }

  /** Updates stamped at or before `since` contribute nothing. */
  lemma {:induction false} CollapseSkipsOld(stale: seq<(int, Update)>, recent: seq<(int, Update)>, since: int)
    requires forall k :: 0 <= k < |stale| ==> stale[k].0 <= since
    ensures Collapse(stale + recent, since) == Collapse(recent, since)
    decreases |recent|
  {
    if recent == [] {
      assert stale + recent == stale;
      CollapseAllOld(stale, since);
    } else {
      assert (stale + recent)[..|stale + recent| - 1] == stale + recent[..|recent| - 1];
      CollapseSkipsOld(stale, recent[..|recent| - 1], since);
    }
  }

  lemma {:induction false} CollapseAllOld(stale: seq<(int, Update)>, since: int)
    requires forall k :: 0 <= k < |stale| ==> stale[k].0 <= since
    ensures Collapse(stale, since) == Some(NoPending)
  {
    if stale != [] {
      CollapseAllOld(stale[..|stale| - 1], since);
    }
  }

  /** A removal cancels a pending add: the key leaves `added` without entering `removed` or `modified`. */
  lemma RemovalCancelsAdd(p: Pending, u: Update, key: string)
    requires FoldUpdate(p, u).Some? && key in p.added && key !in u.added && key in u.removed
    ensures var q := FoldUpdate(p, u).value; key !in q.added && key !in q.removed && key !in q.modified
  {
  }

  /** A key removed earlier and added again comes out as modified in every attribute. */
  lemma ReAddIsModified(p: Pending, u: Update, key: string)
    requires FoldUpdate(p, u).Some? && key in p.removed && key in u.added && key !in u.removed
    ensures var q := FoldUpdate(p, u).value;
      key !in q.removed && key !in q.added && key in q.modified && q.modified[key] == AllAttrSet()
  {
  }

  /**
   * The fold against the key sets of the indexes: starting from index keys
   * `a`, the pending sets after reaching keys `b` say exactly what was added and
   * removed in between, and only keys present now are marked modified.
   */
  predicate Tracks(p: Pending, a: set<string>, b: set<string>) {
    p.added == b - a && p.removed == a - b && p.modified.Keys <= b
  }

  /** An update as `compute_update` records it between indexes with keys `b` and `c`. */
  predicate Recorded(u: Update, b: set<string>, c: set<string>) {
    u.added == c - b && u.removed == b - c && u.modified.Keys <= b * c
  }

  /** Folding a recorded update never trips an assertion and keeps the fold in step with the indexes. */
  lemma FoldRecorded(p: Pending, u: Update, a: set<string>, b: set<string>, c: set<string>)
    requires Tracks(p, a, b) && Recorded(u, b, c)
    ensures FoldUpdate(p, u).Some? && Tracks(FoldUpdate(p, u).value, a, c)
  {
    var p1 := FoldModified(p, u.modified);
    assert p1.Some?;
    assert p1.value.modified.Keys <= b;
    var p2 := FoldAdded(p1.value, u.added);
    assert p2.Some?;
    assert p2.value.added == (b - a) + (c - b - a);
    assert p2.value.removed == a - b - c;
    var p3 := FoldRemoved(p2.value, u.removed);
    assert p3.value.added == c - a;
    assert p3.value.removed == a - c;
  }

  /**
   * A log recorded by `update_course_data` between indexes with key sets
   * `keys[0]`, …, `keys[n]`, every entry stamped after `since`: the fold
   * succeeds and reports exactly the keys added and removed between the first
   * index and the last.
   */
  lemma {:induction false} CollapseRecordedLog(updates: seq<(int, Update)>, keys: seq<set<string>>, since: int)
    requires |keys| == |updates| + 1
    requires forall k :: 0 <= k < |updates| ==> Recorded(updates[k].1, keys[k], keys[k + 1]) && updates[k].0 > since
    ensures Collapse(updates, since).Some? && Tracks(Collapse(updates, since).value, keys[0], keys[|updates|])
  {
    if updates != [] {
      var n := |updates|;
      CollapseRecordedLog(updates[..n - 1], keys[..n], since);
      FoldRecorded(Collapse(updates[..n - 1], since).value, updates[n - 1].1, keys[0], keys[n - 1], keys[n]);
    }
  }

  // ---------------------------------------------------------------- the answer of compute_diff(since)

  /** The three lists `compute_diff` returns. */
  datatype Answer = Answer(added: seq<Course>, removed: seq<Course>, modified: seq<Course>)

  /** How `compute_diff` fails: one of the fold's assertions, `index[key]` or `course[attr]`, or `int()`. */
  datatype DiffError = AssertionFailed | KeyError | ValueError

  /** `ks` lists each key of `keys` once, in some order (the iteration order of a Python set). */
  ghost predicate Enumerates(ks: seq<string>, keys: set<string>) {
    (forall i, j :: 0 <= i < j < |ks| ==> ks[i] != ks[j]) && (forall k :: k in ks <==> k in keys)
  }

  /** The attributes a modified entry copies from the current course are all there. */
  predicate ShowsAll(c: Course, attrs: set<string>) {
    (forall i :: 0 <= i < |INDEX_ATTRS| ==> INDEX_ATTRS[i] in c) && attrs <= c.Keys
  }

  /** The entry for a modified course: its index attributes and its changed attributes, from the current course. */
  function Shown(c: Course, attrs: set<string>): (r: Course)
    requires ShowsAll(c, attrs)
    ensures forall a :: a in r <==> a in INDEX_ATTRS || a in attrs
    ensures forall a :: a in r ==> r[a] == c[a]
  {
    map a | a in attrs + (set i | 0 <= i < |INDEX_ATTRS| :: INDEX_ATTRS[i]) :: c[a]
  }

  /** The loop over `itertools.chain(COURSE_INDEX_ATTRS, attrs)`; `None` where `current_course[attr]` raises. */
  method ShowCourse(current: Course, attrs: set<string>) returns (r: Option<Course>)
    ensures r.Some? <==> ShowsAll(current, attrs)
    ensures r.Some? ==> r.value == Shown(current, attrs)
  {
    var head := CopyIndexAttrs(current);
    if head.None? {
      return None;
    }
    var course := head.value;
    var rest := attrs;
    while rest != {}
      invariant rest <= attrs && attrs - rest <= current.Keys
      invariant forall a :: a in course <==> a in INDEX_ATTRS || a in attrs - rest
      invariant forall a :: a in course ==> a in current && course[a] == current[a]
      decreases |rest|
    {
      var a :| a in rest;
      if a !in current {
        return None;
      }
      course := course[a := current[a]];
      rest := rest - {a};
    }
    r := Some(course);
    assert course == Shown(current, attrs);
  }

  /** The `COURSE_INDEX_ATTRS` half of that loop. */
  method CopyIndexAttrs(current: Course) returns (r: Option<Course>)
    ensures r.Some? <==> forall i :: 0 <= i < |INDEX_ATTRS| ==> INDEX_ATTRS[i] in current
    ensures r.Some? ==> forall a :: a in r.value <==> a in INDEX_ATTRS
    ensures r.Some? ==> forall a :: a in r.value ==> a in current && r.value[a] == current[a]
  {
    var course: Course := map[];
    var i := 0;
    while i < |INDEX_ATTRS|
      invariant 0 <= i <= |INDEX_ATTRS|
      invariant forall j :: 0 <= j < i ==> INDEX_ATTRS[j] in current
      invariant forall a :: a in course <==> a in INDEX_ATTRS[..i]
      invariant forall a :: a in course ==> a in current && course[a] == current[a]
    {
      var a := INDEX_ATTRS[i];
      if a !in current {
        return None;
      }
      assert INDEX_ATTRS[..i + 1] == INDEX_ATTRS[..i] + [a];
      course := course[a := current[a]];
      i := i + 1;
    }
    assert INDEX_ATTRS[..i] == INDEX_ATTRS;
    r := Some(course);
  }

  /** `added_courses`: the current course of every added key; `None` where `index[key]` raises. */
  method AddedCourses(index: map<string, Course>, keys: set<string>) returns (r: Option<seq<Course>>, ghost order: seq<string>)
    ensures r.Some? <==> keys <= index.Keys
    ensures r.Some? ==> Enumerates(order, keys) && LooksUp(index, order, r.value)
  {
    var out := [];
    order := [];
    var rest := keys;
    while rest != {}
      invariant rest <= keys && Enumerates(order, keys - rest) && keys - rest <= index.Keys
      invariant LooksUp(index, order, out)
      decreases |rest|
    {
      var k :| k in rest;
      if k !in index {
        return None, order;
      }
      out, order := out + [index[k]], order + [k];
      rest := rest - {k};
    }
    r := Some(out);
  }

  predicate LooksUp(index: map<string, Course>, ks: seq<string>, cs: seq<Course>) {
    |cs| == |ks| && forall i :: 0 <= i < |ks| ==> ks[i] in index && cs[i] == index[ks[i]]
  }

  /** `removed_courses`: each removed key read back with `course_from_index_key`; `None` where `int()` raises. */
  method RemovedCourses(keys: set<string>) returns (r: Option<seq<Course>>, ghost order: seq<string>)
    ensures r.Some? <==> forall k :: k in keys ==> CourseFromIndexKey(k).Some?
    ensures r.Some? ==> Enumerates(order, keys) && ReadsBack(order, r.value)
  {
    var out := [];
    order := [];
    var rest := keys;
    while rest != {}
      invariant rest <= keys && Enumerates(order, keys - rest)
      invariant forall k :: k in keys - rest ==> CourseFromIndexKey(k).Some?
      invariant ReadsBack(order, out)
      decreases |rest|
    {
      var k :| k in rest;
      var c := CourseFromIndexKey(k);
      if c.None? {
        return None, order;
      }
      out, order := out + [c.value], order + [k];
      rest := rest - {k};
    }
    r := Some(out);
  }

  predicate ReadsBack(ks: seq<string>, cs: seq<Course>) {
    |cs| == |ks| && forall i :: 0 <= i < |ks| ==> CourseFromIndexKey(ks[i]) == Some(cs[i])
  }

  /** Every modified key is in the index, and its course holds the attributes to copy. */
  predicate ModifiedFound(index: map<string, Course>, modified: map<string, set<string>>) {
    forall k :: k in modified ==> k in index && ShowsAll(index[k], modified[k])
  }

  /** `modified_courses`: one entry per modified key; `None` where a lookup raises. */
  method ModifiedCourses(index: map<string, Course>, modified: map<string, set<string>>)
    returns (r: Option<seq<Course>>, ghost order: seq<string>)
    ensures r.Some? <==> ModifiedFound(index, modified)
    ensures r.Some? ==> Enumerates(order, modified.Keys) && ShowsEach(index, modified, order, r.value)
  {
    var out := [];
    order := [];
    var rest := modified.Keys;
    while rest != {}
      invariant rest <= modified.Keys && Enumerates(order, modified.Keys - rest)
      invariant forall k :: k in modified.Keys - rest ==> k in index && ShowsAll(index[k], modified[k])
      invariant ShowsEach(index, modified, order, out)
      decreases |rest|
    {
      var k :| k in rest;
      if k !in index {
        return None, order;
      }
      var c := ShowCourse(index[k], modified[k]);
      if c.None? {
        return None, order;
      }
      out, order := out + [c.value], order + [k];
      rest := rest - {k};
    }
    r := Some(out);
  }

  predicate ShowsEach(index: map<string, Course>, modified: map<string, set<string>>, ks: seq<string>, cs: seq<Course>) {
    |cs| == |ks|
    && forall i :: 0 <= i < |ks| ==>
      ks[i] in index && ks[i] in modified && ShowsAll(index[ks[i]], modified[ks[i]])
      && cs[i] == Shown(index[ks[i]], modified[ks[i]])
  }

  /** The lists answer the pending sets, each in some iteration order of its set. */
  ghost predicate Answers(index: map<string, Course>, p: Pending, ans: Answer) {
    (exists ks :: Enumerates(ks, p.added) && LooksUp(index, ks, ans.added))
    && (exists ks :: Enumerates(ks, p.removed) && ReadsBack(ks, ans.removed))
    && (exists ks :: Enumerates(ks, p.modified.Keys) && ShowsEach(index, p.modified, ks, ans.modified))
  }

  predicate RemovedReadable(p: Pending) {
    forall k :: k in p.removed ==> CourseFromIndexKey(k).Some?
  }

  /**
   * `compute_diff(since)`: the fold over the log, then the three lists built
   * from the current index. The first failure decides the error: an assertion
   * of the fold, a missing added key, an unreadable removed key, then a
   * missing modified key or attribute.
   */
  method DiffSince(updates: seq<(int, Update)>, since: int, index: map<string, Course>) returns (r: Result<Answer, DiffError>)
    ensures r == Err(AssertionFailed) <==> Collapse(updates, since).None?
    ensures r.Ok? <==>
      (Collapse(updates, since).Some? && Collapse(updates, since).value.added <= index.Keys
       && RemovedReadable(Collapse(updates, since).value) && ModifiedFound(index, Collapse(updates, since).value.modified))
    ensures r == Err(ValueError) <==>
      (Collapse(updates, since).Some? && Collapse(updates, since).value.added <= index.Keys
       && !RemovedReadable(Collapse(updates, since).value))
    ensures r.Ok? ==> Answers(index, Collapse(updates, since).value, r.value)
  {
    var pending := CollapseSince(updates, since);
    if pending.None? {
      return Err(AssertionFailed);
    }
    var p := pending.value;
    var added, ka := AddedCourses(index, p.added);
    if added.None? {
      return Err(KeyError);
    }
    var removed, kr := RemovedCourses(p.removed);
    if removed.None? {
      return Err(ValueError);
    }
    var modified, km := ModifiedCourses(index, p.modified);
    if modified.None? {
      return Err(KeyError);
    }
    r := Ok(Answer(added.value, removed.value, modified.value));
    assert Enumerates(ka, p.added) && LooksUp(index, ka, r.value.added);
    assert Enumerates(kr, p.removed) && ReadsBack(kr, r.value.removed);
    assert Enumerates(km, p.modified.Keys) && ShowsEach(index, p.modified, km, r.value.modified);
  }

  /** Every attribute an update lists as modified is one of `COURSE_ATTRS`. */
  predicate AttrsListed(u: Update) {
    forall k, a :: k in u.modified && a in u.modified[k] ==> a in COURSE_ATTRS
  }

  /** The pending modified attributes are all among `COURSE_ATTRS`. */
  predicate AttrsKnown(p: Pending) {
    forall k :: k in p.modified ==> p.modified[k] <= AllAttrSet()
  }

  /** `compute_update` lists only attributes of `COURSE_ATTRS`. */
  lemma UpdateSpecListed(prev: map<string, Course>, next: map<string, Course>)
    requires AllComplete(prev) && AllComplete(next)
    ensures AttrsListed(UpdateSpec(prev, next))
  {
    var u := UpdateSpec(prev, next);
    forall k | k in u.modified
      ensures forall a :: a in u.modified[k] ==> a in COURSE_ATTRS
    {
      ChangedAttrsMembers(prev[k], next[k], COURSE_ATTRS);
    }
  }

  lemma FoldAttrsKnown(p: Pending, u: Update)
    requires AttrsKnown(p) && AttrsListed(u) && FoldUpdate(p, u).Some?
    ensures AttrsKnown(FoldUpdate(p, u).value)
  {
    var p1 := FoldModified(p, u.modified).value;
    forall k | k in p1.modified
      ensures p1.modified[k] <= AllAttrSet()
    {
      forall a | a in p1.modified[k]
        ensures a in AllAttrSet()
      {
        if k in u.modified && a in u.modified[k] {
          assert a in COURSE_ATTRS;
          var j :| 0 <= j < |COURSE_ATTRS| && COURSE_ATTRS[j] == a;
        }
      }
    }
    var p2 := FoldAdded(p1, u.added).value;
    assert AttrsKnown(p2);
  }

  lemma {:induction false} CollapseAttrsKnown(updates: seq<(int, Update)>, since: int)
    requires forall k :: 0 <= k < |updates| ==> AttrsListed(updates[k].1)
    requires Collapse(updates, since).Some?
    ensures AttrsKnown(Collapse(updates, since).value)
  {
    if updates != [] {
      var n := |updates| - 1;
      CollapseAttrsKnown(updates[..n], since);
      if updates[n].0 > since {
        FoldAttrsKnown(Collapse(updates[..n], since).value, updates[n].1);
      }
    }
  }

  /**
   * On a log recorded by `update_course_data`, from a first index built by
   * `index_courses` over key-safe courses to the current index, `compute_diff`
   * raises nothing: every added and modified key is in the current index, every
   * removed key reads back, and each modified entry holds exactly the index
   * attributes plus its changed attributes.
   */
  lemma RecordedAnswer(updates: seq<(int, Update)>, keys: seq<set<string>>, since: int,
                       first: map<string, Course>, index: map<string, Course>)
    requires |keys| == |updates| + 1
    requires forall k :: 0 <= k < |updates| ==>
      Recorded(updates[k].1, keys[k], keys[k + 1]) && AttrsListed(updates[k].1) && updates[k].0 > since
    requires first.Keys == keys[0] && forall k :: k in first ==> KeySafe(first[k]) && IndexKey(first[k]) == k
    requires index.Keys == keys[|updates|] && AllComplete(index)
    ensures Collapse(updates, since).Some?
    ensures var p := Collapse(updates, since).value;
      p.added <= index.Keys && RemovedReadable(p) && ModifiedFound(index, p.modified)
  {
    CollapseRecordedLog(updates, keys, since);
    CollapseAttrsKnown(updates, since);
    var p := Collapse(updates, since).value;
    forall k | k in p.removed
      ensures CourseFromIndexKey(k).Some?
    {
      IndexKeyRoundTrip(first[k]);
    }
    forall k | k in p.modified
      ensures ShowsAll(index[k], p.modified[k])
    {
      IndexAttrsListed();
      forall a | a in p.modified[k]
        ensures a in index[k]
      {
        var j :| 0 <= j < |COURSE_ATTRS| && COURSE_ATTRS[j] == a;
      }
    }
  }

  /** The index attributes are among `COURSE_ATTRS`. */
  lemma IndexAttrsListed()
    ensures forall i :: 0 <= i < |INDEX_ATTRS| ==> exists j :: 0 <= j < |COURSE_ATTRS| && COURSE_ATTRS[j] == INDEX_ATTRS[i]
  {
    assert COURSE_ATTRS[4] == INDEX_ATTRS[0] && COURSE_ATTRS[2] == INDEX_ATTRS[1] && COURSE_ATTRS[0] == INDEX_ATTRS[2];
    assert COURSE_ATTRS[11] == INDEX_ATTRS[3] && COURSE_ATTRS[13] == INDEX_ATTRS[4];
  }

  // ---------------------------------------------------------------- update_course_data and courses-since

  /** `updates[:] = updates[len(updates) - MAX_UPDATES_SAVED:]` when the log is too long. */
  function Trim(log: seq<(int, Update)>): (r: seq<(int, Update)>)
    ensures |r| <= MAX_UPDATES_SAVED || r == log
    ensures |log| <= MAX_UPDATES_SAVED ==> r == log
    ensures |log| > MAX_UPDATES_SAVED ==> |r| == MAX_UPDATES_SAVED && log == log[..|log| - |r|] + r
  {
    if |log| > MAX_UPDATES_SAVED then log[|log| - MAX_UPDATES_SAVED..] else log
  }

  /** The answer to `/api/v2/courses-since/<since>`. */
  datatype SinceAnswer = BadRequest | Incremental(since: int) | Full | Unavailable

  /** The global `course_data` of server.py. */
  class CourseStore {
    var current: Option<seq<Course>>
    var index: Option<map<string, Course>>
    var initialTimestamp: Option<int>
    var updates: seq<(int, Update)>
    var timestamp: Option<int>
    var malformed: Option<seq<string>>

    /** The first update sets everything at once, and the log is never longer than the cap. */
    predicate Valid()
      reads this
    {
      (index.Some? <==> initialTimestamp.Some?) && (index.Some? <==> current.Some?)
      && (index.Some? <==> timestamp.Some?) && (index.Some? <==> malformed.Some?)
      && (index.None? ==> updates == [])
      && |updates| <= MAX_UPDATES_SAVED
      && (index.Some? ==> AllComplete(index.value))
    }

    /** `INITIAL_COURSE_DATA` */
    constructor()
      ensures Valid() && index.None? && current.None? && updates == []
    {
      current := None;
      index := None;
      initialTimestamp := None;
      updates := [];
      timestamp := None;
      malformed := None;
    }

    /**
     * `update_course_data`: the first call records the initial timestamp and
     * leaves the log empty; later calls append one entry for the change from
     * the previous index and keep only the newest `MAX_UPDATES_SAVED`. The
     * initial timestamp is never moved forward when old entries are dropped.
     */
    method UpdateCourseData(ts: int, courses: seq<Course>, newIndex: map<string, Course>, malformedCourses: seq<string>)
      requires Valid() && AllComplete(newIndex)
      modifies this
      ensures Valid()
      ensures old(index).None? ==> initialTimestamp == Some(ts) && updates == old(updates)
      ensures old(index).Some? ==>
        initialTimestamp == old(initialTimestamp) && updates == Trim(old(updates) + [(ts, UpdateSpec(old(index).value, newIndex))])
      ensures current == Some(courses) && index == Some(newIndex) && timestamp == Some(ts)
      ensures malformed == Some(malformedCourses)
    {
      if index.Some? {
        var u := ComputeUpdate(index.value, newIndex);
        updates := Trim(updates + [(ts, u)]);
      } else {
        initialTimestamp := Some(ts);
      }
      current := Some(courses);
      index := Some(newIndex);
      timestamp := Some(ts);
      malformed := Some(malformedCourses);
    }

    /**
     * The choice `do_GET` makes for courses-since: a timestamp `int()` cannot
     * read is a bad request; with no (or an empty) course list the data is
     * unavailable; otherwise the answer is incremental exactly when `since` is
     * not before the initial timestamp.
     */
    function CoursesSince(sinceText: string): (r: SinceAnswer)
      requires Valid()
      reads this
      ensures r == BadRequest <==> ParseInt(sinceText).None?
      ensures r.Incremental? <==>
        ParseInt(sinceText).Some? && current.Some? && |current.value| > 0 && ParseInt(sinceText).value >= initialTimestamp.value
      ensures r.Incremental? ==> r.since == ParseInt(sinceText).value
      ensures r == Unavailable <==> ParseInt(sinceText).Some? && (current.None? || |current.value| == 0)
    {
      match ParseInt(sinceText)
      case None => BadRequest
      case Some(since) =>
        if current.Some? && |current.value| > 0 && since >= initialTimestamp.value then Incremental(since)
        else if current.Some? && |current.value| > 0 then Full
        else Unavailable
    }
  }

  /**
   * After more than `MAX_UPDATES_SAVED` updates the oldest entries are gone,
   * yet `since` equal to the initial timestamp is still answered incrementally:
   * the fold then starts from the index before the oldest kept entry, not from
   * the initial one.
   */
  lemma TrimmedLogStartsLate(log: seq<(int, Update)>, keys: seq<set<string>>, since: int)
    requires |log| > MAX_UPDATES_SAVED && |keys| == |log| + 1
    requires forall k :: 0 <= k < |log| ==> Recorded(log[k].1, keys[k], keys[k + 1]) && log[k].0 > since
    ensures var kept := Trim(log); var first := |log| - MAX_UPDATES_SAVED;
      Collapse(kept, since).Some? && Tracks(Collapse(kept, since).value, keys[first], keys[|log|])
  {
    var first := |log| - MAX_UPDATES_SAVED;
    var kept := Trim(log);
    assert forall k :: 0 <= k < |kept| ==> kept[k] == log[first + k];
    CollapseRecordedLog(kept, keys[first..], since);
  }
}
