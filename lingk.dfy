/**
 * The builders that turn Lingk data into a map from course keys to course
 * descriptions:
 *
 *  - the API builders (`lingk_api_data_to_course_descriptions` in
 *    hyperschedule/scrapers/claremont/lingk.py and hyperschedule/liblingk.py,
 *    `lingk_data_to_course_descriptions` in liblingk.py) walk the entries of
 *    `data["data"]`, skip entries without a description, and raise on a
 *    duplicate key with a different description;
 *  - the CSV builders (`lingk_csv_data_to_course_descriptions`,
 *    `lingk_drive_data_to_course_descriptions`) walk the rows under a header,
 *    skip blank rows and unparseable codes, collapse whitespace in the
 *    description, and resolve a conflict by taking the later row or the
 *    longer description;
 *  - `make_description_dict` of lingk_scraper.py, which logs and skips every
 *    failure and keeps the first description of a key.
 *
 * Each loop looks at one entry at a time and then updates the map. The model
 * separates the two: what an entry contributes (skip, a key and a
 * description, or an error) and how the map takes it in, which is one fold
 * with four rules for a key that is already present.
 */
module Lingk {

  import opened Wrappers
  import opened Text
  import opened Json
  import opened Lists
  import opened CourseCode
  import opened CourseKeys

  /** The `ScrapeError`s (and Python errors) the builders raise. */
  datatype LingkError =
    | NotAMap
    | MissingData
    | DataNotIterable
    | EntryNotIterable(idx: nat)
    | EntryNotSubscriptable(idx: nat)
    | DescriptionNotString(idx: nat)
    | MissingCourseNumber(idx: nat)
    | CodeNotString(idx: nat)
    | BadCode(idx: nat, error: CodeError)
    | DuplicateCourse(idx: nat)
    | NoHeader
    | UnexpectedHeader
    | MalformedRow(row: nat)
    | NotEnough(count: nat)

  /** The one code that is skipped because it never shows up on the portal. */
  const ABROAD: string := "ABROAD   HM"

  /** Fewer descriptions than this means the scrape went wrong. */
  const MIN_DESCRIPTIONS: nat := 100

  /** What one entry or row does to the map being built. */
  datatype Contribution<K> = Skip | Pair(key: K, desc: string) | Fail(error: LingkError)

  // ---------------------------------------------------------------- the fold

  /** What happens when a key arrives that the map already holds. */
  datatype Conflict =
    | RaiseOnMismatch  // the API builders: a different description raises, the same one is accepted
    | LaterWins        // hyperschedule/scrapers/claremont/lingk.py (CSV): the later row overwrites
    | LongerWins       // hyperschedule/liblingk.py (drive): `max(new, old, key=len)`, the new one on a tie
    | FirstWins        // lingk_scraper.py: the later entry is logged and dropped

  /** The loop over the contributions `cs`, in order; the first error ends it. */
  function Fold<K>(cs: seq<Contribution<K>>, rule: Conflict): Result<map<K, string>, LingkError>
  {
    if cs == [] then Ok(map[])
    else
      var n := |cs| - 1;
      match Fold(cs[..n], rule)
      case Err(e) => Err(e)
      case Ok(m) =>
        match cs[n]
        case Skip => Ok(m)
        case Fail(e) => Err(e)
        case Pair(k, d) =>
          if k !in m then Ok(m[k := d])
          else
            match rule
            case RaiseOnMismatch => if m[k] != d then Err(DuplicateCourse(n)) else Ok(m[k := d])
            case LaterWins => Ok(m[k := d])
            case LongerWins => Ok(m[k := if |m[k]| > |d| then m[k] else d])
            case FirstWins => Ok(m)
  }

  /** One more contribution after a successful prefix, under the two rules the CSV readers use. */
  lemma FoldOneMore<K>(cs: seq<Contribution<K>>, idx: nat, keepLonger: bool, m: map<K, string>)
    requires idx < |cs| && Fold(cs[..idx], CsvRule(keepLonger)) == Ok(m)
    ensures cs[idx].Skip? ==> Fold(cs[..idx + 1], CsvRule(keepLonger)) == Ok(m)
    ensures cs[idx].Fail? ==> Fold(cs[..idx + 1], CsvRule(keepLonger)) == Err(cs[idx].error)
    ensures cs[idx].Pair? ==> var k, d := cs[idx].key, cs[idx].desc;
      Fold(cs[..idx + 1], CsvRule(keepLonger)) == Ok(m[k := if keepLonger && k in m && |m[k]| > |d| then m[k] else d])
  {
    assert cs[..idx + 1][..idx] == cs[..idx];
  }

  /** Once a prefix of the contributions raises, so does the whole loop, with the same error. */
  lemma {:induction false} FoldStopsAtError<K>(cs: seq<Contribution<K>>, n: nat, rule: Conflict)
    requires n <= |cs| && Fold(cs[..n], rule).Err?
    ensures Fold(cs, rule) == Fold(cs[..n], rule)
    decreases |cs| - n
  {
    if n < |cs| {
      var m := |cs| - 1;
      assert cs[..m][..n] == cs[..n];
      FoldStopsAtError(cs[..m], n, rule);
    } else {
      assert cs[..n] == cs;
    }
  }

  /** Contribution `i` is a description for key `k`. */
  ghost predicate PairAt<K>(cs: seq<Contribution<K>>, i: int, k: K) {
    0 <= i < |cs| && cs[i].Pair? && cs[i].key == k
  }

  ghost predicate NoFailure<K>(cs: seq<Contribution<K>>) {
    forall i :: 0 <= i < |cs| ==> !cs[i].Fail?
  }

  /** Contributions with the same key carry the same description. */
  ghost predicate Agree<K>(cs: seq<Contribution<K>>) {
    forall i, j :: 0 <= i < |cs| && 0 <= j < |cs| && cs[i].Pair? && cs[j].Pair? && cs[i].key == cs[j].key ==>
      cs[i].desc == cs[j].desc
  }

  /** The keys of `m` are exactly those contributed. */
  ghost predicate KeysOf<K>(cs: seq<Contribution<K>>, m: map<K, string>) {
    (forall k :: k in m ==> exists i :: PairAt(cs, i, k))
    && forall i :: 0 <= i < |cs| && cs[i].Pair? ==> cs[i].key in m
  }

  /** Every contributed pair is in `m`. */
  ghost predicate HoldsAll<K>(cs: seq<Contribution<K>>, m: map<K, string>) {
    forall i :: 0 <= i < |cs| && cs[i].Pair? ==> cs[i].key in m && m[cs[i].key] == cs[i].desc
  }

  /** Each key holds the description of the last pair with that key. */
  ghost predicate LastWins<K>(cs: seq<Contribution<K>>, m: map<K, string>) {
    forall k :: k in m ==> LastAt(cs, k, m[k])
  }

  /** `v` is the description of the last pair for `k`. */
  ghost predicate LastAt<K>(cs: seq<Contribution<K>>, k: K, v: string) {
    exists i :: PairAt(cs, i, k) && cs[i].desc == v && (forall j :: i < j < |cs| ==> !PairAt(cs, j, k))
  }

  /** Each key holds the description of the first pair with that key. */
  ghost predicate FirstKept<K>(cs: seq<Contribution<K>>, m: map<K, string>) {
    forall k :: k in m ==> FirstAt(cs, k, m[k])
  }

  /** `v` is the description of the first pair for `k`. */
  ghost predicate FirstAt<K>(cs: seq<Contribution<K>>, k: K, v: string) {
    exists i :: PairAt(cs, i, k) && cs[i].desc == v && (forall j :: 0 <= j < i ==> !PairAt(cs, j, k))
  }

  /** Each key holds a longest of its descriptions, from the last pair that has one of that length. */
  ghost predicate LongestWins<K>(cs: seq<Contribution<K>>, m: map<K, string>) {
    forall k :: k in m ==> LongestAt(cs, k, m[k])
  }

  /** `v` is the description of a pair for `k` no pair for `k` outgrows, and every later one is shorter. */
  ghost predicate LongestAt<K>(cs: seq<Contribution<K>>, k: K, v: string) {
    exists i :: PairAt(cs, i, k) && cs[i].desc == v
      && (forall j :: PairAt(cs, j, k) ==> |cs[j].desc| <= |v| && (j > i ==> |cs[j].desc| < |v|))
  }

  /** What the fold computes, rule by rule. */
  ghost predicate FoldFacts<K>(cs: seq<Contribution<K>>, rule: Conflict, m: map<K, string>) {
    KeysOf(cs, m)
    && (rule == RaiseOnMismatch ==> HoldsAll(cs, m))
    && (rule == LaterWins ==> LastWins(cs, m))
    && (rule == LongerWins ==> LongestWins(cs, m))
    && (rule == FirstWins ==> FirstKept(cs, m))
  }

  /**
   * The fold succeeds exactly when no contribution is an error and, under
   * `RaiseOnMismatch`, no two pairs give one key different descriptions. Its
   * keys are then exactly the contributed ones, each holding: the one
   * description of its pairs (`RaiseOnMismatch`), the last (`LaterWins`), the
   * first (`FirstWins`), or a longest, the newest on a tie (`LongerWins`).
   */
  lemma {:induction false} FoldContents<K>(cs: seq<Contribution<K>>, rule: Conflict)
    ensures Fold(cs, rule).Ok? <==> NoFailure(cs) && (rule == RaiseOnMismatch ==> Agree(cs))
    ensures Fold(cs, rule).Ok? ==> FoldFacts(cs, rule, Fold(cs, rule).value)
  {
    if cs != [] {
      var n := |cs| - 1;
      var prefix := cs[..n];
      FoldContents(prefix, rule);
      PrefixPairs(cs);
      if Fold(prefix, rule).Err? {
        PrefixProblem(cs, rule);
      } else {
        var m := Fold(prefix, rule).value;
        if rule == RaiseOnMismatch {
          LastAgrees(cs, m);
        }
        if Fold(cs, rule).Ok? {
          FoldStep(cs, rule);
        }
      }
    }
  }

  /** A failure or a disagreement among the first contributions is one among all of them. */
  lemma PrefixProblem<K>(cs: seq<Contribution<K>>, rule: Conflict)
    requires cs != []
    requires !(NoFailure(cs[..|cs| - 1]) && (rule == RaiseOnMismatch ==> Agree(cs[..|cs| - 1])))
    ensures !(NoFailure(cs) && (rule == RaiseOnMismatch ==> Agree(cs)))
  {
    var prefix := cs[..|cs| - 1];
    if !NoFailure(prefix) {
      var i :| 0 <= i < |prefix| && prefix[i].Fail?;
      assert cs[i].Fail?;
    } else {
      var i, j :| 0 <= i < |prefix| && 0 <= j < |prefix| && prefix[i].Pair? && prefix[j].Pair?
        && prefix[i].key == prefix[j].key && prefix[i].desc != prefix[j].desc;
      assert cs[i] == prefix[i] && cs[j] == prefix[j];
    }
  }

  /** When the first contributions agree, all do exactly when the last one matches the map so far. */
  lemma LastAgrees<K>(cs: seq<Contribution<K>>, m: map<K, string>)
    requires cs != []
    requires Agree(cs[..|cs| - 1]) && KeysOf(cs[..|cs| - 1], m) && HoldsAll(cs[..|cs| - 1], m)
    ensures Agree(cs) <==> !(cs[|cs| - 1].Pair? && cs[|cs| - 1].key in m && m[cs[|cs| - 1].key] != cs[|cs| - 1].desc)
  {
    var n := |cs| - 1;
    var prefix := cs[..n];
    PrefixPairs(cs);
    var c := cs[n];
    if c.Pair? && c.key in m {
      var i :| PairAt(prefix, i, c.key);
      assert prefix[i].desc == m[c.key];
      if m[c.key] != c.desc {
        assert cs[i].Pair? && cs[i].key == c.key && cs[i].desc != c.desc;
      }
    }
    if !(c.Pair? && c.key in m && m[c.key] != c.desc) {
      forall i, j | 0 <= i < |cs| && 0 <= j < |cs| && cs[i].Pair? && cs[j].Pair? && cs[i].key == cs[j].key
        ensures cs[i].desc == cs[j].desc
      {
        if i < n && j < n {
          assert prefix[i] == cs[i] && prefix[j] == cs[j];
        } else if i < n {
          assert prefix[i].Pair?;
        } else if j < n {
          assert prefix[j].Pair?;
        }
      }
    }
  }

  /** A pair of the prefix is the same pair of the whole. */
  lemma PrefixPairs<K>(cs: seq<Contribution<K>>)
    requires cs != []
    ensures forall i, k :: PairAt(cs[..|cs| - 1], i, k) <==> i < |cs| - 1 && PairAt(cs, i, k)
    ensures forall i :: 0 <= i < |cs| - 1 ==> cs[..|cs| - 1][i] == cs[i]
  {
    var p := cs[..|cs| - 1];
    assert forall i :: 0 <= i < |p| ==> p[i] == cs[i];
    forall i, k ensures PairAt(p, i, k) <==> i < |cs| - 1 && PairAt(cs, i, k) {
    }
  }

  /** One successful step of the fold keeps `FoldFacts`. */
  lemma FoldStep<K>(cs: seq<Contribution<K>>, rule: Conflict)
    requires cs != [] && Fold(cs, rule).Ok? && Fold(cs[..|cs| - 1], rule).Ok?
    requires FoldFacts(cs[..|cs| - 1], rule, Fold(cs[..|cs| - 1], rule).value)
    ensures FoldFacts(cs, rule, Fold(cs, rule).value)
  {
    PrefixPairs(cs);
    StepKeys(cs, rule);
    match rule
    case RaiseOnMismatch => StepHoldsAll(cs);
    case LaterWins => StepLastWins(cs);
    case LongerWins => StepLongestWins(cs);
    case FirstWins => StepFirstKept(cs);
  }

  lemma StepKeys<K>(cs: seq<Contribution<K>>, rule: Conflict)
    requires cs != [] && Fold(cs, rule).Ok? && Fold(cs[..|cs| - 1], rule).Ok?
    requires KeysOf(cs[..|cs| - 1], Fold(cs[..|cs| - 1], rule).value)
    ensures KeysOf(cs, Fold(cs, rule).value)
  {
    var n := |cs| - 1;
    var prefix := cs[..n];
    PrefixPairs(cs);
    var m' := Fold(cs, rule).value;
    forall k | k in m' ensures exists i :: PairAt(cs, i, k) {
      if cs[n].Pair? && k == cs[n].key {
        assert PairAt(cs, n, k);
      } else {
        var i :| PairAt(prefix, i, k);
        assert PairAt(cs, i, k);
      }
    }
    forall i | 0 <= i < |cs| && cs[i].Pair? ensures cs[i].key in m' {
      if i < n {
        assert PairAt(prefix, i, cs[i].key);
      }
    }
  }

  lemma StepHoldsAll<K>(cs: seq<Contribution<K>>)
    requires cs != [] && Fold(cs, RaiseOnMismatch).Ok? && Fold(cs[..|cs| - 1], RaiseOnMismatch).Ok?
    requires HoldsAll(cs[..|cs| - 1], Fold(cs[..|cs| - 1], RaiseOnMismatch).value)
    ensures HoldsAll(cs, Fold(cs, RaiseOnMismatch).value)
  {
    PrefixPairs(cs);
  }

  lemma StepLastWins<K>(cs: seq<Contribution<K>>)
    requires cs != [] && Fold(cs, LaterWins).Ok? && Fold(cs[..|cs| - 1], LaterWins).Ok?
    requires LastWins(cs[..|cs| - 1], Fold(cs[..|cs| - 1], LaterWins).value)
    ensures LastWins(cs, Fold(cs, LaterWins).value)
  {
    var n := |cs| - 1;
    var m := Fold(cs[..n], LaterWins).value;
    var m' := Fold(cs, LaterWins).value;
    assert m' == if cs[n].Pair? then m[cs[n].key := cs[n].desc] else m;
    PrefixPairs(cs);
    forall k | k in m' ensures LastAt(cs, k, m'[k]) {
      if cs[n].Pair? && k == cs[n].key {
        assert PairAt(cs, n, k);
      } else {
        assert LastAt(cs[..n], k, m[k]);
        LastAtExtends(cs, k, m[k]);
      }
    }
  }

  /** A last pair of the prefix stays the last one when the next contribution is not a pair for its key. */
  lemma LastAtExtends<K>(cs: seq<Contribution<K>>, k: K, v: string)
    requires cs != [] && LastAt(cs[..|cs| - 1], k, v)
    requires !PairAt(cs, |cs| - 1, k)
    ensures LastAt(cs, k, v)
  {
    var n := |cs| - 1;
    var i :| PairAt(cs[..n], i, k) && cs[..n][i].desc == v && (forall j :: i < j < n ==> !PairAt(cs[..n], j, k));
    assert cs[..n][i] == cs[i];
    forall j | i < j < |cs| ensures !PairAt(cs, j, k) {
      if j < n {
        assert cs[..n][j] == cs[j];
        assert !PairAt(cs[..n], j, k);
      }
    }
    assert PairAt(cs, i, k);
  }

  lemma StepFirstKept<K>(cs: seq<Contribution<K>>)
    requires cs != [] && Fold(cs, FirstWins).Ok? && Fold(cs[..|cs| - 1], FirstWins).Ok?
    requires KeysOf(cs[..|cs| - 1], Fold(cs[..|cs| - 1], FirstWins).value)
    requires FirstKept(cs[..|cs| - 1], Fold(cs[..|cs| - 1], FirstWins).value)
    ensures FirstKept(cs, Fold(cs, FirstWins).value)
  {
    var n := |cs| - 1;
    var m := Fold(cs[..n], FirstWins).value;
    assert Fold(cs, FirstWins).value == if cs[n].Pair? && cs[n].key !in m then m[cs[n].key := cs[n].desc] else m;
    FirstKeptNext(cs, m);
  }

  /** Adding a contribution keeps `FirstKept` when only a new key is stored. */
  lemma FirstKeptNext<K>(cs: seq<Contribution<K>>, m: map<K, string>)
    requires cs != [] && KeysOf(cs[..|cs| - 1], m) && FirstKept(cs[..|cs| - 1], m)
    ensures FirstKept(cs, if cs[|cs| - 1].Pair? && cs[|cs| - 1].key !in m then m[cs[|cs| - 1].key := cs[|cs| - 1].desc] else m)
  {
    var n := |cs| - 1;
    var m' := if cs[n].Pair? && cs[n].key !in m then m[cs[n].key := cs[n].desc] else m;
    forall k | k in m' ensures FirstAt(cs, k, m'[k]) {
      if k in m {
        assert FirstAt(cs[..n], k, m[k]);
        FirstAtExtends(cs, k, m[k]);
      } else {
        FirstAtNew(cs, m);
      }
    }
  }

  /** A first pair of the prefix is still the first one of the whole. */
  lemma FirstAtExtends<K>(cs: seq<Contribution<K>>, k: K, v: string)
    requires cs != [] && FirstAt(cs[..|cs| - 1], k, v)
    ensures FirstAt(cs, k, v)
  {
    var n := |cs| - 1;
    var i :| PairAt(cs[..n], i, k) && cs[..n][i].desc == v && (forall j :: 0 <= j < i ==> !PairAt(cs[..n], j, k));
    assert cs[..n][i] == cs[i];
    forall j | 0 <= j < i ensures !PairAt(cs, j, k) {
      assert cs[..n][j] == cs[j];
      assert !PairAt(cs[..n], j, k);
    }
    assert PairAt(cs, i, k);
  }

  /** A pair whose key no earlier pair has is the first pair for that key. */
  lemma FirstAtNew<K>(cs: seq<Contribution<K>>, m: map<K, string>)
    requires cs != [] && cs[|cs| - 1].Pair? && cs[|cs| - 1].key !in m
    requires KeysOf(cs[..|cs| - 1], m)
    ensures FirstAt(cs, cs[|cs| - 1].key, cs[|cs| - 1].desc)
  {
    var n := |cs| - 1;
    var k := cs[n].key;
    forall j | 0 <= j < n ensures !PairAt(cs, j, k) {
      assert cs[..n][j] == cs[j];
      if cs[j].Pair? {
        assert cs[..n][j].key in m;
      }
    }
    assert PairAt(cs, n, k);
  }

  lemma StepLongestWins<K>(cs: seq<Contribution<K>>)
    requires cs != [] && Fold(cs, LongerWins).Ok? && Fold(cs[..|cs| - 1], LongerWins).Ok?
    requires KeysOf(cs[..|cs| - 1], Fold(cs[..|cs| - 1], LongerWins).value)
    requires LongestWins(cs[..|cs| - 1], Fold(cs[..|cs| - 1], LongerWins).value)
    ensures LongestWins(cs, Fold(cs, LongerWins).value)
  {
    var n := |cs| - 1;
    var prefix := cs[..n];
    var m := Fold(prefix, LongerWins).value;
    var m' := Fold(cs, LongerWins).value;
    forall k | k in m' ensures LongestAt(cs, k, m'[k]) {
      if cs[n].Pair? && k == cs[n].key && (k !in m || |cs[n].desc| >= |m[k]|) {
        assert m'[k] == cs[n].desc;
        if k in m {
          assert LongestAt(prefix, k, m[k]);
          LongestNew(cs, k);
        } else {
          LongestFirst(cs, k, m);
        }
      } else {
        assert m'[k] == m[k];
        assert LongestAt(prefix, k, m[k]);
        LongestOld(cs, k, m[k]);
      }
    }
  }

  /** A last pair for a key no earlier pair has is the longest. */
  lemma LongestFirst<K>(cs: seq<Contribution<K>>, k: K, m: map<K, string>)
    requires cs != [] && cs[|cs| - 1].Pair? && cs[|cs| - 1].key == k
    requires KeysOf(cs[..|cs| - 1], m) && k !in m
    ensures LongestAt(cs, k, cs[|cs| - 1].desc)
  {
    PrefixPairs(cs);
    assert PairAt(cs, |cs| - 1, k);
  }

  /** A last pair at least as long as the longest earlier one for its key is the longest, and the last. */
  lemma LongestNew<K>(cs: seq<Contribution<K>>, k: K)
    requires cs != [] && cs[|cs| - 1].Pair? && cs[|cs| - 1].key == k
    requires exists v :: LongestAt(cs[..|cs| - 1], k, v) && |v| <= |cs[|cs| - 1].desc|
    ensures LongestAt(cs, k, cs[|cs| - 1].desc)
  {
    var n := |cs| - 1;
    var v :| LongestAt(cs[..n], k, v) && |v| <= |cs[n].desc|;
    var i :| PairAt(cs[..n], i, k) && cs[..n][i].desc == v
      && (forall j :: PairAt(cs[..n], j, k) ==> |cs[..n][j].desc| <= |v| && (j > i ==> |cs[..n][j].desc| < |v|));
    PrefixPairs(cs);
    assert PairAt(cs, n, k);
  }

  /** An earlier longest pair stays the longest when the last one is strictly shorter or another key. */
  lemma LongestOld<K>(cs: seq<Contribution<K>>, k: K, v: string)
    requires cs != [] && LongestAt(cs[..|cs| - 1], k, v)
    requires cs[|cs| - 1].Pair? && cs[|cs| - 1].key == k ==> |cs[|cs| - 1].desc| < |v|
    ensures LongestAt(cs, k, v)
  {
    var n := |cs| - 1;
    var i :| PairAt(cs[..n], i, k) && cs[..n][i].desc == v
      && (forall j :: PairAt(cs[..n], j, k) ==> |cs[..n][j].desc| <= |v| && (j > i ==> |cs[..n][j].desc| < |v|));
    PrefixPairs(cs);
    assert PairAt(cs, i, k) && cs[i].desc == v;
  }

  // ---------------------------------------------------------------- the API builders

  /**
   * What `for idx, course in enumerate(data["data"])` walks over: the items of
   * a list, or the one-character strings of a string; anything else is not
   * iterable here.
   */
  function DataEntries(data: Value): (r: Option<seq<Value>>)
    ensures data.List? ==> r == Some(data.items)
    ensures r.Some? && data.Str? ==> |r.value| == |data.s|
  {
    match data
    case List(items) => Some(items)
    case Str(s) => Some(seq(|s|, i requires 0 <= i < |s| => Str([s[i]])))
    case _ => None
  }

  /**
   * One entry of the API loop. For a map: no description skips; a description
   * that is not a string, a missing course number, a course number that is
   * not a string, or a code the key function rejects raises; "ABROAD   HM" is
   * skipped. A string or list entry is skipped unless `"description" in course`
   * holds, in which case subscripting it raises; other values are not iterable.
   */
  function ApiEntry<K>(idx: nat, course: Value, keyFor: string -> Result<K, CodeError>): (c: Contribution<K>)
    ensures c.Pair? ==>
      course.Obj? && "description" in course.fields && course.fields["description"] == Str(c.desc)
      && "courseNumber" in course.fields && course.fields["courseNumber"].Str?
      && course.fields["courseNumber"].s != ABROAD && keyFor(course.fields["courseNumber"].s) == Ok(c.key)
    ensures course.Obj? && "description" !in course.fields ==> c.Skip?
    ensures (course.Obj? && "description" in course.fields && course.fields["description"].Str?
             && "courseNumber" in course.fields && course.fields["courseNumber"] == Str(ABROAD)) ==> c.Skip?
    ensures c.Fail? && course.Obj? ==> "description" in course.fields
  {
    match course
    case Obj(fields) =>
      if "description" !in fields then Skip
      else if !fields["description"].Str? then Fail(DescriptionNotString(idx))
      else if "courseNumber" !in fields then Fail(MissingCourseNumber(idx))
      else if fields["courseNumber"] == Str(ABROAD) then Skip
      else if !fields["courseNumber"].Str? then Fail(CodeNotString(idx))
      else
        (match keyFor(fields["courseNumber"].s)
         case Err(e) => Fail(BadCode(idx, e))
         case Ok(k) => Pair(k, fields["description"].s))
    case Str(s) => if Contains(s, "description") then Fail(EntryNotSubscriptable(idx)) else Skip
    case List(items) => if Str("description") in items then Fail(EntryNotSubscriptable(idx)) else Skip
    case _ => Fail(EntryNotIterable(idx))
  }

  function ApiEntries<K>(entries: seq<Value>, keyFor: string -> Result<K, CodeError>): (cs: seq<Contribution<K>>)
    ensures |cs| == |entries| && forall i :: 0 <= i < |entries| ==> cs[i] == ApiEntry(i, entries[i], keyFor)
  {
    seq(|entries|, i requires 0 <= i < |entries| => ApiEntry(i, entries[i], keyFor))
  }

  /** The whole API builder: the checks on `data`, then the loop. */
  function ApiSpec<K>(data: Value, keyFor: string -> Result<K, CodeError>): Result<map<K, string>, LingkError>
  {
    if !data.Obj? then Err(NotAMap)
    else if "data" !in data.fields then Err(MissingData)
    else
      match DataEntries(data.fields["data"])
      case None => Err(DataNotIterable)
      case Some(entries) => Fold(ApiEntries(entries, keyFor), RaiseOnMismatch)
  }

  /**
   * The API builder, parametrised by how a course code becomes a key
   * (`ClaremontKey` in hyperschedule/scrapers/claremont/lingk.py, `DriveKey`
   * in hyperschedule/liblingk.py and liblingk.py).
   */
  method ApiDescriptions<K(==)>(data: Value, keyFor: string -> Result<K, CodeError>)
    returns (r: Result<map<K, string>, LingkError>)
    ensures r == ApiSpec(data, keyFor)
  {
    if !data.Obj? {
      return Err(NotAMap);
    }
    if "data" !in data.fields {
      return Err(MissingData);
    }
    var entries := DataEntries(data.fields["data"]);
    if entries.None? {
      return Err(DataNotIterable);
    }
    var courses := entries.value;
    ghost var cs := ApiEntries(courses, keyFor);
    var descIndex: map<K, string> := map[];
    var idx := 0;
    while idx < |courses|
      invariant idx <= |courses|
      invariant Fold(cs[..idx], RaiseOnMismatch) == Ok(descIndex)
    {
      assert cs[..idx + 1][..idx] == cs[..idx];
      match ApiEntry(idx, courses[idx], keyFor) {
        case Skip =>
        case Fail(e) =>
          FoldStopsAtError(cs, idx + 1, RaiseOnMismatch);
          return Err(e);
        case Pair(k, d) =>
          if k in descIndex && descIndex[k] != d {
            FoldStopsAtError(cs, idx + 1, RaiseOnMismatch);
            return Err(DuplicateCourse(idx));
          }
          descIndex := descIndex[k := d];
      }
      idx := idx + 1;
    }
    assert cs[..idx] == cs;
    r := Ok(descIndex);
  }

  // ---------------------------------------------------------------- keys

  /**
   * The key of hyperschedule/scrapers/claremont/lingk.py:
   * `course_info_as_list(parse_course_code(code, with_section=False), with_section=False)`.
   * Two codes get the same key exactly when they agree on the four fields.
   */
  function ClaremontKey(code: string): (r: Result<seq<Value>, CodeError>)
    ensures r.Ok? <==> ParseCourseCode(code, false).Ok?
    ensures r.Err? ==> r.error == ParseCourseCode(code, false).error
    ensures r.Ok? ==> |r.value| == 4 && r.value[1] == Int(ParseCourseCode(code, false).value.number)
  {
    match ParseCourseCode(code, false)
    case Err(e) => Err(e)
    case Ok(info) => Ok(CourseInfoAsList(info, false).value)
  }

  /** Two accepted codes share a key exactly when they name the same course. */
  lemma ClaremontKeyIdentifies(a: string, b: string)
    requires ClaremontKey(a).Ok? && ClaremontKey(b).Ok?
    ensures var x := ParseCourseCode(a, false).value; var y := ParseCourseCode(b, false).value;
      ClaremontKey(a) == ClaremontKey(b) <==>
        x.department == y.department && x.number == y.number && x.suffix == y.suffix && x.school == y.school
  {
    CourseKeyInjective(ParseCourseCode(a, false).value, ParseCourseCode(b, false).value, false);
  }

  /** `partial_course["section"] = 0` on a parsed code. */
  function ZeroSection(info: CourseInfo): (c: Course)
    requires ValidInfo(info)
    ensures KeySafe(c)
  {
    var c := map["department" := Str(info.department), "courseNumber" := Int(info.number),
                 "courseCodeSuffix" := Str(info.suffix), "school" := Str(info.school), "section" := Int(0)];
    NoSlash(info.department);
    SuffixNoSlash(info.suffix);
    NoSlash(info.school);
    assert forall k :: 0 <= k < |INDEX_ATTRS| ==> INDEX_ATTRS[k] in c;
    c
  }

  /**
   * The key of hyperschedule/liblingk.py and liblingk.py: the index key of the
   * parsed code with the section forced to 0.
   */
  function DriveKey(code: string): (r: Result<string, CodeError>)
    ensures r.Ok? <==> ParseClaremontCourseCode(code).Ok?
    ensures r.Err? ==> r.error == ParseClaremontCourseCode(code).error
  {
    match ParseClaremontCourseCode(code)
    case Err(e) => Err(e)
    case Ok(info) => Ok(IndexKey(ZeroSection(info)))
  }

  /**
   * Every such key ends in "/0", and reading it back gives the parsed code with
   * section 0: so two codes share a key exactly when they name the same course.
   */
  lemma DriveKeyShape(code: string)
    requires DriveKey(code).Ok?
    ensures EndsWith(DriveKey(code).value, "/0")
    ensures CourseFromIndexKey(DriveKey(code).value) == Some(ZeroSection(ParseClaremontCourseCode(code).value))
  {
    var info := ParseClaremontCourseCode(code).value;
    ZeroSectionEnds(info);
    ZeroSectionRoundTrip(info);
  }

  lemma ZeroSectionEnds(info: CourseInfo)
    requires ValidInfo(info)
    ensures EndsWith(IndexKey(ZeroSection(info)), "/0")
  {
    var parts := KeyParts(ZeroSection(info));
    assert parts[4] == IntToString(0) == "0";
    JoinEnds(parts, '/');
  }

  lemma ZeroSectionRoundTrip(info: CourseInfo)
    requires ValidInfo(info)
    ensures CourseFromIndexKey(IndexKey(ZeroSection(info))) == Some(ZeroSection(info))
  {
    var c := ZeroSection(info);
    IndexKeyRoundTrip(c);
    assert IndexPart(c) == c;
  }

  // ---------------------------------------------------------------- whitespace

  /** Length of the run of non-whitespace at the start of `t`. */
  function WordLength(t: string): (n: nat)
    ensures n <= |t| && (n == |t| || IsPySpace(t[n]))
    ensures forall j :: 0 <= j < n ==> !IsPySpace(t[j])
  {
    if t == [] || IsPySpace(t[0]) then 0 else 1 + WordLength(t[1..])
  }

  /** `s.split()`: the maximal runs of non-whitespace. */
  function Words(s: string): (ws: seq<string>)
    ensures forall k :: 0 <= k < |ws| ==> ws[k] != [] && NoSpace(ws[k])
    decreases |s|
  {
    var t := StripLeft(s);
    if t == [] then []
    else
      StripLeftSpec(s);
      var n := WordLength(t);
      [t[..n]] + Words(t[n..])
  }

  /** `" ".join(s.split())` */
  function CollapseSpace(s: string): string {
    Join(Words(s), ' ')
  }

  /** The join of non-empty words that hold no whitespace starts and ends with a word character. */
  lemma {:induction false} JoinWordsEnds(ws: seq<string>)
    requires |ws| > 0 && forall k :: 0 <= k < |ws| ==> ws[k] != []
    ensures var r := Join(ws, ' '); |r| > 0 && r[0] == ws[0][0] && r[|r| - 1] == ws[|ws| - 1][|ws[|ws| - 1]| - 1]
  {
    if |ws| > 1 {
      var rest := Join(ws[1..], ' ');
      JoinWordsEnds(ws[1..]);
      assert Join(ws, ' ') == ws[0] + [' '] + rest;
      assert ws[1..][|ws| - 2] == ws[|ws| - 1];
    }
  }

  /** In such a join the only whitespace is single spaces between word characters. */
  lemma {:induction false} JoinWordsShape(ws: seq<string>)
    requires forall k :: 0 <= k < |ws| ==> ws[k] != [] && NoSpace(ws[k])
    ensures var r := Join(ws, ' ');
      forall i :: 0 <= i < |r| && IsPySpace(r[i]) ==>
        r[i] == ' ' && 0 < i < |r| - 1 && !IsPySpace(r[i - 1]) && !IsPySpace(r[i + 1])
  {
    if |ws| > 1 {
      var w := ws[0];
      var rest := Join(ws[1..], ' ');
      JoinWordsShape(ws[1..]);
      JoinWordsEnds(ws[1..]);
      var r := Join(ws, ' ');
      assert r == w + [' '] + rest;
      forall i | 0 <= i < |r| && IsPySpace(r[i])
        ensures r[i] == ' ' && 0 < i < |r| - 1 && !IsPySpace(r[i - 1]) && !IsPySpace(r[i + 1])
      {
        if i > |w| {
          assert r[i] == rest[i - |w| - 1];
        }
      }
    }
  }

  lemma {:induction false} WordLengthOf(w: string, rest: string)
    requires NoSpace(w) && (rest == [] || IsPySpace(rest[0]))
    ensures WordLength(w + rest) == |w|
  {
    if w != [] {
      assert (w + rest)[1..] == w[1..] + rest;
      WordLengthOf(w[1..], rest);
    } else {
      assert w + rest == rest;
    }
  }

  /** Splitting the join of non-empty whitespace-free words gives the words back. */
  lemma {:induction false} WordsOfJoin(ws: seq<string>)
    requires forall k :: 0 <= k < |ws| ==> ws[k] != [] && NoSpace(ws[k])
    ensures Words(Join(ws, ' ')) == ws
  {
    if |ws| == 1 {
      var w := ws[0];
      WordLengthOf(w, []);
      assert w + [] == w;
      assert w[|w|..] == [];
    } else if |ws| > 1 {
      var w := ws[0];
      var rest := Join(ws[1..], ' ');
      var s := Join(ws, ' ');
      assert s == w + ([' '] + rest);
      WordLengthOf(w, [' '] + rest);
      assert s[..|w|] == w && s[|w|..] == [' '] + rest;
      assert StripLeft(s) == s;
      assert Words(s) == [w] + Words([' '] + rest);
      WordsAfterSpace(rest);
      WordsOfJoin(ws[1..]);
      assert [w] + ws[1..] == ws;
    }
  }

  /** A leading space does not change the words. */
  lemma WordsAfterSpace(rest: string)
    ensures Words([' '] + rest) == Words(rest)
  {
    assert StripLeft([' '] + rest) == StripLeft(rest) by {
      assert ([' '] + rest)[1..] == rest;
    }
  }

  /**
   * What collapsing does: the words survive unchanged (so collapsing twice is
   * collapsing once), the only whitespace left is single spaces between word
   * characters, and the result is empty exactly when `s` is all whitespace.
   */
  lemma CollapseSpaceMeaning(s: string)
    ensures Words(CollapseSpace(s)) == Words(s)
    ensures CollapseSpace(CollapseSpace(s)) == CollapseSpace(s)
    ensures var r := CollapseSpace(s);
      forall i :: 0 <= i < |r| && IsPySpace(r[i]) ==>
        r[i] == ' ' && 0 < i < |r| - 1 && !IsPySpace(r[i - 1]) && !IsPySpace(r[i + 1])
    ensures CollapseSpace(s) == [] <==> forall i :: 0 <= i < |s| ==> IsPySpace(s[i])
  {
    var ws := Words(s);
    WordsOfJoin(ws);
    JoinWordsShape(ws);
    StripLeftSpec(s);
    if ws != [] {
      JoinWordsEnds(ws);
    }
  }

  // ---------------------------------------------------------------- the CSV builders

  /** `"".join(row)` */
  function Concat(row: seq<string>): string {
    if row == [] then "" else row[0] + Concat(row[1..])
  }

  /** `"".join(row).isspace()`: not empty, and whitespace throughout. */
  predicate BlankRow(row: seq<string>) {
    var s := Concat(row);
    |s| > 0 && forall i :: 0 <= i < |s| ==> IsPySpace(s[i])
  }

  /** A header that `header.index` finds both columns in. */
  predicate ValidHeader(header: seq<string>) {
    "courseNumber" in header && "description" in header
  }

  /**
   * One row of the CSV loop: empty and blank rows are skipped; another row of
   * the wrong length raises; a code the key function rejects or an empty
   * description skips; otherwise the row gives its key and the collapsed
   * description.
   */
  function RowEntry<K>(idx: nat, row: seq<string>, header: seq<string>, keyFor: string -> Result<K, CodeError>)
    : (c: Contribution<K>)
    requires ValidHeader(header)
    ensures c.Fail? <==> row != [] && !BlankRow(row) && |row| != |header|
    ensures c.Pair? ==>
      |row| == |header| && keyFor(row[FirstIndex(header, "courseNumber")]) == Ok(c.key)
      && row[FirstIndex(header, "description")] != "" && c.desc == CollapseSpace(row[FirstIndex(header, "description")])
  {
    if row == [] || BlankRow(row) then Skip
    else if |row| != |header| then Fail(MalformedRow(idx))
    else
      match keyFor(row[FirstIndex(header, "courseNumber")])
      case Err(_) => Skip
      case Ok(k) =>
        var description := row[FirstIndex(header, "description")];
        if description == "" then Skip else Pair(k, CollapseSpace(description))
  }

  function RowEntries<K>(rows: seq<seq<string>>, header: seq<string>, keyFor: string -> Result<K, CodeError>)
    : (cs: seq<Contribution<K>>)
    requires ValidHeader(header)
    ensures |cs| == |rows| && forall i :: 0 <= i < |rows| ==> cs[i] == RowEntry(i, rows[i], header, keyFor)
  {
    seq(|rows|, i requires 0 <= i < |rows| => RowEntry(i, rows[i], header, keyFor))
  }

  /** `if len(desc_map) < 100: raise ScrapeError(...)` after a builder. */
  function Enough<K>(r: Result<map<K, string>, LingkError>): (e: Result<map<K, string>, LingkError>)
    ensures e.Ok? <==> r.Ok? && |r.value| >= MIN_DESCRIPTIONS
    ensures e.Ok? || r.Err? ==> e == r
  {
    match r
    case Err(_) => r
    case Ok(m) => if |m| < MIN_DESCRIPTIONS then Err(NotEnough(|m|)) else r
  }

  /** The CSV rule: the longer description for the drive builder, the later row otherwise. */
  function CsvRule(keepLonger: bool): Conflict {
    if keepLonger then LongerWins else LaterWins
  }

  /** The whole CSV builder: `header, *rows = data`, the header lookup, the loop and the final count. */
  function CsvSpec<K>(data: seq<seq<string>>, keyFor: string -> Result<K, CodeError>, keepLonger: bool)
    : (r: Result<map<K, string>, LingkError>)
    ensures r.Ok? ==> |r.value| >= MIN_DESCRIPTIONS
    ensures r.Ok? ==> data != [] && ValidHeader(data[0])
  {
    if data == [] then Err(NoHeader)
    else if !ValidHeader(data[0]) then Err(UnexpectedHeader)
    else Enough(Fold(RowEntries(data[1..], data[0], keyFor), CsvRule(keepLonger)))
  }

  /** The CSV builder, parametrised by the key function and the conflict rule. */
  method CsvDescriptions<K(==)>(data: seq<seq<string>>, keyFor: string -> Result<K, CodeError>, keepLonger: bool)
    returns (r: Result<map<K, string>, LingkError>)
    ensures r == CsvSpec(data, keyFor, keepLonger)
  {
    if data == [] {
      return Err(NoHeader);
    }
    var header := data[0];
    var rows := data[1..];
    if !ValidHeader(header) {
      return Err(UnexpectedHeader);
    }
    ghost var cs := RowEntries(rows, header, keyFor);
    var descMap: map<K, string> := map[];
    var idx := 0;
    while idx < |rows|
      invariant idx <= |rows|
      invariant Fold(cs[..idx], CsvRule(keepLonger)) == Ok(descMap)
    {
      var step := AddRow(cs, idx, keepLonger, descMap, RowEntry(idx, rows[idx], header, keyFor));
      if step.Err? {
        FoldStopsAtError(cs, idx + 1, CsvRule(keepLonger));
        return Err(step.error);
      }
      descMap := step.value;
      idx := idx + 1;
    }
    assert cs[..idx] == cs;
    if |descMap| < MIN_DESCRIPTIONS {
      return Err(NotEnough(|descMap|));
    }
    r := Ok(descMap);
  }

  /** One row of the CSV loop: skipped, raised, or written into the map under the conflict rule. */
  method AddRow<K>(ghost cs: seq<Contribution<K>>, idx: nat, keepLonger: bool, descMap: map<K, string>, entry: Contribution<K>)
    returns (r: Result<map<K, string>, LingkError>)
    requires idx < |cs| && cs[idx] == entry && Fold(cs[..idx], CsvRule(keepLonger)) == Ok(descMap)
    ensures r == Fold(cs[..idx + 1], CsvRule(keepLonger))
  {
    FoldOneMore(cs, idx, keepLonger, descMap);
    match entry
    case Skip => r := Ok(descMap);
    case Fail(e) => r := Err(e);
    case Pair(k, d) =>
      var description := d;
      if keepLonger && k in descMap && |descMap[k]| > |description| {
        description := descMap[k];
      }
      r := Ok(descMap[k := description]);
  }

  // ---------------------------------------------------------------- the claremont entry point

  /** Where `get_course_descriptions` gets its data from. */
  datatype LingkSource =
    | NoCredentials                    // the API is enabled but the key or the secret is unset
    | ApiData(data: Value)             // the decoded API answer
    | CsvData(rows: seq<seq<string>>)  // the rows of the CSV archive

  /**
   * `get_course_descriptions` of hyperschedule/scrapers/claremont/lingk.py:
   * either builder, then the same lower bound on the count. Only missing
   * credentials give a short (empty) map.
   */
  function CourseDescriptions(source: LingkSource): (r: Result<map<seq<Value>, string>, LingkError>)
    ensures source.NoCredentials? ==> r == Ok(map[])
    ensures r.Ok? && !source.NoCredentials? ==> |r.value| >= MIN_DESCRIPTIONS
    ensures source.ApiData? && ApiSpec(source.data, ClaremontKey).Err? ==> r == ApiSpec(source.data, ClaremontKey)
    ensures source.CsvData? ==> r == CsvSpec(source.rows, ClaremontKey, false)
  {
    match source
    case NoCredentials => Ok(map[])
    case ApiData(data) => Enough(ApiSpec(data, ClaremontKey))
    case CsvData(rows) => Enough(CsvSpec(rows, ClaremontKey, false))
  }

  // ---------------------------------------------------------------- lingk_scraper.py

  /** `'/'.join([department, course_number, num_suffix, school])`: the number is the matched digit text. */
  function ScraperKey(m: CodeMatch): string {
    Join([m.department, m.number, m.suffix, m.school], '/')
  }

  /**
   * One entry of `make_description_dict`: skipped when it has no description
   * and whenever its handling raises (a missing or non-string `externalId`, a
   * code that does not match, a non-string description, an entry that is not
   * a map), since the loop logs and drops those; otherwise its key and the
   * stripped description. The id is stripped of whitespace, then of double
   * quotes, before matching.
   */
  function ScraperEntry(course: Value): (c: Contribution<string>)
    ensures !c.Fail?
    ensures c.Pair? ==> course.Obj? && "description" in course.fields && course.fields["description"].Str?
    ensures c.Pair? ==> c.desc == Strip(course.fields["description"].s)
    ensures c.Pair? ==> "externalId" in course.fields && course.fields["externalId"].Str?
    ensures c.Pair? ==> var m := MatchCourseCode(StripChar(Strip(course.fields["externalId"].s), '"'), false);
      m.Some? && c.key == ScraperKey(m.value)
  {
    match course
    case Obj(fields) =>
      if "description" !in fields then Skip
      else if "externalId" !in fields || !fields["externalId"].Str? then Skip
      else
        var rawstr := StripChar(Strip(fields["externalId"].s), '"');
        (match MatchCourseCode(rawstr, false)
         case None => Skip
         case Some(m) =>
           if !fields["description"].Str? then Skip
           else Pair(ScraperKey(m), Strip(fields["description"].s)))
    case _ => Skip
  }

  function ScraperEntries(entries: seq<Value>): (cs: seq<Contribution<string>>)
    ensures |cs| == |entries| && forall i :: 0 <= i < |entries| ==> cs[i] == ScraperEntry(entries[i])
  {
    seq(|entries|, i requires 0 <= i < |entries| => ScraperEntry(entries[i]))
  }

  /**
   * `make_description_dict(lingk_data)`: never raises, keeps the first
   * description of each key (see `FoldContents` with `FirstWins`).
   */
  method MakeDescriptionDict(lingkData: seq<Value>) returns (dict: map<string, string>)
    ensures Fold(ScraperEntries(lingkData), FirstWins) == Ok(dict)
  {
    ghost var cs := ScraperEntries(lingkData);
    dict := map[];
    var i := 0;
    while i < |lingkData|
      invariant i <= |lingkData|
      invariant Fold(cs[..i], FirstWins) == Ok(dict)
    {
      var entry := ScraperEntry(lingkData[i]);
      FirstWinsNext(cs, i, dict);
      if entry.Pair? && entry.key !in dict {
        dict := dict[entry.key := entry.desc];
      }
      i := i + 1;
    }
    assert cs[..i] == cs;
  }

  /** One more step of the keep-the-first fold, over contributions that never fail. */
  lemma FirstWinsNext<K>(cs: seq<Contribution<K>>, i: nat, m: map<K, string>)
    requires i < |cs| && Fold(cs[..i], FirstWins) == Ok(m) && !cs[i].Fail?
    ensures Fold(cs[..i + 1], FirstWins) == Ok(if cs[i].Pair? && cs[i].key !in m then m[cs[i].key := cs[i].desc] else m)
  {
    assert cs[..i + 1][..i] == cs[..i];
  }

  /** The four fields of `course_to_lingk_description_dict_key`, each a string or an int. */
  predicate HasLingkFields(course: Course) {
    "department" in course && (course["department"].Str? || course["department"].Int?)
    && "courseNumber" in course && (course["courseNumber"].Str? || course["courseNumber"].Int?)
    && "courseCodeSuffix" in course && (course["courseCodeSuffix"].Str? || course["courseCodeSuffix"].Int?)
    && "school" in course && (course["school"].Str? || course["school"].Int?)
  }

  /** `course_to_lingk_description_dict_key(course)` */
  function LingkDictKey(course: Course): string
    requires HasLingkFields(course)
  {
    Join([ValueText(course["department"]), ValueText(course["courseNumber"]),
          ValueText(course["courseCodeSuffix"]), ValueText(course["school"])], '/')
  }

  /**
   * A course as the scrapers produce it (slash-free strings and an int number)
   * is found under a scraped key only when the scraped number text is exactly
   * `str(courseNumber)`: a zero-padded number such as "005" is never found for
   * course number 5.
   */
  lemma LookupNeedsPlainNumber(m: CodeMatch, course: Course)
    requires GroupShapes(m)
    requires HasLingkFields(course) && course["courseNumber"].Int?
    requires course["department"].Str? && '/' !in course["department"].s
    requires course["courseCodeSuffix"].Str? && '/' !in course["courseCodeSuffix"].s
    requires course["school"].Str? && '/' !in course["school"].s
    requires LingkDictKey(course) == ScraperKey(m)
    ensures m.number == IntToString(course["courseNumber"].i)
    ensures course["courseNumber"].i > 0 ==> m.number[0] != '0'
  {
    var parts := [ValueText(course["department"]), ValueText(course["courseNumber"]),
                  ValueText(course["courseCodeSuffix"]), ValueText(course["school"])];
    var groups := [m.department, m.number, m.suffix, m.school];
    IntTextSlashFree(course["courseNumber"].i);
    NoSlash(m.department);
    NoSlash(m.school);
    SuffixNoSlash(m.suffix);
    assert forall j :: 0 <= j < |m.number| ==> m.number[j] != '/';
    SplitJoin(parts, '/');
    SplitJoin(groups, '/');
    assert parts[1] == groups[1];
  }
}
