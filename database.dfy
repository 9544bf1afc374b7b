/**
 * hyperschedule/api/database.py: one diff manager per (scraper, term code),
 * the term data each scraper last posted per term, and the most recent term
 * of each scraper, chosen by the largest `termSortKey`.
 *
 * The managers are held as their states (`DiffManager.ManagerState`); the
 * operations on them are `DiffManager.Advance` and `DiffManager.AnswerFor`,
 * which the `DiffManager.Manager` methods are proved to implement.
 */
module Database {

  import opened Wrappers
  import opened Json
  import opened Lists
  import opened Validate
  import DiffManager

  type TermData = map<string, Value>

  // ---------------------------------------------------------------- Python's `>` on sort keys

  /** The number a bool or int stands for in a comparison (`True` is 1). */
  function NumberOf(v: Value): int
    requires v.Int? || v.Bool?
  {
    if v.Int? then v.i else if v.b then 1 else 0
  }

  predicate Numeric(v: Value) {
    v.Int? || v.Bool?
  }

  /** Python `==` on two primitives: numbers by value, strings by text, never a number and a string. */
  predicate ElemEq(a: Value, b: Value)
    requires Primitive(a) && Primitive(b)
  {
    (Numeric(a) && Numeric(b) && NumberOf(a) == NumberOf(b)) || (a.Str? && b.Str? && a.s == b.s)
  }

  /** Python `>` on strings: by code point, a proper prefix being smaller. */
  function StrGreater(a: string, b: string): bool {
    if |a| == 0 || |b| == 0 then |a| > |b|
    else if a[0] == b[0] then StrGreater(a[1..], b[1..])
    else a[0] > b[0]
  }

  /** Python `>` on two primitives; `None` where it raises `TypeError` (a number against a string). */
  function ElemGreater(a: Value, b: Value): Option<bool>
    requires Primitive(a) && Primitive(b)
  {
    if Numeric(a) && Numeric(b) then Some(NumberOf(a) > NumberOf(b))
    else if a.Str? && b.Str? then Some(StrGreater(a.s, b.s))
    else None
  }

  predicate AllPrimitive(k: seq<Value>) {
    forall i :: 0 <= i < |k| ==> Primitive(k[i])
  }

  /**
   * Python `>` on two lists: the first position where the items differ
   * decides, and a proper prefix is smaller; `None` where that decision
   * raises `TypeError`.
   */
  function KeyGreater(a: seq<Value>, b: seq<Value>): Option<bool>
    requires AllPrimitive(a) && AllPrimitive(b)
  {
    if |a| == 0 || |b| == 0 then Some(|a| > |b|)
    else if ElemEq(a[0], b[0]) then KeyGreater(a[1..], b[1..])
    else ElemGreater(a[0], b[0])
  }

  lemma {:induction false} StrGreaterTransitive(a: string, b: string, c: string)
    requires StrGreater(a, b) && StrGreater(b, c)
    ensures StrGreater(a, c)
  {
    if |a| > 0 && |b| > 0 && |c| > 0 && a[0] == b[0] && b[0] == c[0] {
      StrGreaterTransitive(a[1..], b[1..], c[1..]);
    }
  }

  lemma StrGreaterIrreflexive(a: string)
    ensures !StrGreater(a, a)
  {
  }

  /** `>` on sort keys is a strict order wherever it is defined. */
  lemma {:induction false} KeyGreaterTransitive(a: seq<Value>, b: seq<Value>, c: seq<Value>)
    requires AllPrimitive(a) && AllPrimitive(b) && AllPrimitive(c)
    requires KeyGreater(a, b) == Some(true) && KeyGreater(b, c) == Some(true)
    ensures KeyGreater(a, c) == Some(true)
  {
    if |a| > 0 && |b| > 0 && |c| > 0 {
      if ElemEq(a[0], b[0]) && ElemEq(b[0], c[0]) {
        KeyGreaterTransitive(a[1..], b[1..], c[1..]);
      } else if !ElemEq(a[0], b[0]) && !ElemEq(b[0], c[0]) && a[0].Str? {
        StrGreaterTransitive(a[0].s, b[0].s, c[0].s);
        if a[0].s == c[0].s {
          StrGreaterIrreflexive(b[0].s);
          StrGreaterTransitive(b[0].s, c[0].s, b[0].s);
        }
      }
    }
  }

  lemma {:induction false} KeyGreaterIrreflexive(a: seq<Value>)
    requires AllPrimitive(a)
    ensures KeyGreater(a, a) == Some(false)
  {
    if |a| > 0 {
      KeyGreaterIrreflexive(a[1..]);
    }
  }

  /** Comparing a number with a string raises. */
  lemma MixedKeysRaise()
    ensures KeyGreater([Str("FA")], [Int(2020)]).None?
  {
  }

  // ---------------------------------------------------------------- max(term_list, key=termSortKey)

  /**
   * `max` over a non-empty list of keys: the index it returns, or `None`
   * where a comparison raises. A later key replaces the best so far only
   * when it is strictly greater.
   */
  function MaxIndex(keys: seq<seq<Value>>): (r: Option<nat>)
    requires |keys| > 0 && forall i :: 0 <= i < |keys| ==> AllPrimitive(keys[i])
    ensures r.Some? ==> r.value < |keys|
  {
    if |keys| == 1 then Some(0)
    else
      match MaxIndex(keys[..|keys| - 1])
      case None => None
      case Some(best) =>
        match KeyGreater(keys[|keys| - 1], keys[best])
        case None => None
        case Some(greater) => if greater then Some(|keys| - 1) else Some(best)
  }

  /** No key is greater than the one `max` picks. */
  lemma {:induction false} MaxIndexMaximal(keys: seq<seq<Value>>)
    requires |keys| > 0 && forall i :: 0 <= i < |keys| ==> AllPrimitive(keys[i])
    requires MaxIndex(keys).Some?
    ensures forall j :: 0 <= j < |keys| ==> KeyGreater(keys[j], keys[MaxIndex(keys).value]) != Some(true)
  {
    var n := |keys|;
    if n == 1 {
      KeyGreaterIrreflexive(keys[0]);
    } else {
      var init := keys[..n - 1];
      MaxIndexMaximal(init);
      var best := MaxIndex(init).value;
      var r := MaxIndex(keys).value;
      forall j | 0 <= j < n
        ensures KeyGreater(keys[j], keys[r]) != Some(true)
      {
        if j == r {
          KeyGreaterIrreflexive(keys[j]);
        } else if r == n - 1 {
          assert init[j] == keys[j] && init[best] == keys[best];
          if KeyGreater(keys[j], keys[r]) == Some(true) {
            KeyGreaterTransitive(keys[j], keys[r], keys[best]);
          }
        } else {
          assert r == best;
          if j < n - 1 {
            assert init[j] == keys[j] && init[best] == keys[best];
          }
        }
      }
    }
  }

  /** Of several equal greatest keys, `max` returns the first. */
  lemma {:induction false} MaxIndexFirstOfTies(keys: seq<seq<Value>>)
    requires |keys| > 0 && forall i :: 0 <= i < |keys| ==> AllPrimitive(keys[i])
    requires MaxIndex(keys).Some?
    ensures forall j :: 0 <= j < MaxIndex(keys).value ==> keys[j] != keys[MaxIndex(keys).value]
  {
    var n := |keys|;
    if n > 1 {
      var init := keys[..n - 1];
      MaxIndexFirstOfTies(init);
      var best := MaxIndex(init).value;
      if MaxIndex(keys).value == n - 1 {
        MaxIndexMaximal(init);
        forall j | 0 <= j < n - 1
          ensures keys[j] != keys[n - 1]
        {
          assert init[j] == keys[j] && init[best] == keys[best];
        }
      } else {
        forall j | 0 <= j < best
          ensures keys[j] != keys[best]
        {
          assert init[j] == keys[j] && init[best] == keys[best];
        }
      }
    }
  }

  /** The sort keys of the terms listed in `order`. */
  function SortKeys(order: seq<string>, terms: map<string, TermData>): (keys: seq<seq<Value>>)
    requires forall t :: t in order ==> t in terms && WellFormedTerm(terms[t])
    ensures |keys| == |order|
    ensures forall i :: 0 <= i < |order| ==> keys[i] == SortKeyOf(terms[order[i]])
  {
    seq(|order|, i requires 0 <= i < |order| => SortKeyOf(terms[order[i]]))
  }

  /** `t["termSortKey"]` */
  function SortKeyOf(t: TermData): (k: seq<Value>)
    requires WellFormedTerm(t)
    ensures AllPrimitive(k)
  {
    t["termSortKey"].items
  }

  /** The loop inside `max`: keeps the first of the greatest keys; `None` where a comparison raises. */
  method MaxBySortKey(keys: seq<seq<Value>>) returns (r: Option<nat>)
    requires |keys| > 0 && forall i :: 0 <= i < |keys| ==> AllPrimitive(keys[i])
    ensures r == MaxIndex(keys)
  {
    var best := 0;
    var i := 1;
    assert keys[..1] == [keys[0]];
    while i < |keys|
      invariant 1 <= i <= |keys|
      invariant MaxIndex(keys[..i]) == Some(best)
    {
      assert keys[..i + 1][..i] == keys[..i];
      var greater := KeyGreater(keys[i], keys[best]);
      if greater.None? {
        MaxIndexNoneStays(keys, i + 1);
        return None;
      }
      if greater.value {
        best := i;
      }
      i := i + 1;
    }
    assert keys[..i] == keys;
    r := Some(best);
  }

  lemma {:induction false} MaxIndexNoneStays(keys: seq<seq<Value>>, i: nat)
    requires 0 < i <= |keys| && forall k :: 0 <= k < |keys| ==> AllPrimitive(keys[k])
    requires MaxIndex(keys[..i]).None?
    ensures MaxIndex(keys).None?
    decreases |keys| - i
  {
    if i < |keys| {
      assert keys[..i + 1][..i] == keys[..i];
      MaxIndexNoneStays(keys, i + 1);
    } else {
      assert keys[..i] == keys;
    }
  }

  // ---------------------------------------------------------------- the database

  /** The `UserError`s of `get_diff_to_present` and `_get_diff_manager`. */
  datatype DbError = DataNotAvailable | NoSuchScraper(scraper: string) | NoSuchTerm(term: string)

  /** The status code a `UserError` is answered with; only "data not available yet" carries 503. */
  function ErrorCode(e: DbError): Option<int> {
    if e.DataNotAvailable? then Some(503) else None
  }

  const FreshManager := DiffManager.ManagerState(None, [])

  type Managers = map<string, map<string, DiffManager.ManagerState>>

  type Terms = map<string, map<string, TermData>>

  /** `d[scraper]` of a `defaultdict(dict)`: an empty map for a scraper not seen yet. */
  function Inner<V>(d: map<string, map<string, V>>, scraper: string): map<string, V> {
    if scraper in d then d[scraper] else map[]
  }

  /**
   * `diff_managers[scraper][code].set_current_data(now, courses)`, a fresh
   * manager being made on first use: only that one manager changes.
   */
  function AdvanceManager(managers: Managers, scraper: string, code: string, now: int, courses: Value): (r: Managers)
    ensures r.Keys == managers.Keys + {scraper} && r[scraper].Keys == Inner(managers, scraper).Keys + {code}
    ensures r[scraper][code] ==
      DiffManager.Advance(if code in Inner(managers, scraper) then managers[scraper][code] else FreshManager, now, courses)
    ensures forall s :: s in managers && s != scraper ==> r[s] == managers[s]
    ensures forall t :: t in Inner(managers, scraper) && t != code ==> r[scraper][t] == managers[scraper][t]
  {
    var before := Inner(managers, scraper);
    var state := if code in before then before[code] else FreshManager;
    managers[scraper := before[code := DiffManager.Advance(state, now, courses)]]
  }

  /** `terms[scraper][code] = term_data` */
  function RecordTerm(terms: Terms, scraper: string, code: string, termData: TermData): (r: Terms)
    ensures r.Keys == terms.Keys + {scraper} && r[scraper].Keys == Inner(terms, scraper).Keys + {code}
    ensures r[scraper][code] == termData
    ensures forall s :: s in terms && s != scraper ==> r[s] == terms[s]
    ensures forall t :: t in Inner(terms, scraper) && t != code ==> r[scraper][t] == terms[scraper][t]
  {
    terms[scraper := Inner(terms, scraper)[code := termData]]
  }

  /** The insertion order of `terms[scraper]` after the assignment: a new code goes last, a known one stays put. */
  function RecordOrder(order: map<string, seq<string>>, scraper: string, code: string): (r: map<string, seq<string>>)
    ensures r.Keys == order.Keys + {scraper} && code in r[scraper]
    ensures forall s :: s in order && s != scraper ==> r[s] == order[s]
    ensures scraper in order && code in order[scraper] ==> r[scraper] == order[scraper]
    ensures (scraper !in order || code !in order[scraper]) ==>
      r[scraper] == (if scraper in order then order[scraper] else []) + [code]
  {
    var before := if scraper in order then order[scraper] else [];
    order[scraper := if code in before then before else before + [code]]
  }

  /** A manager exists for exactly the (scraper, term) pairs that have term data. */
  ghost predicate SameShape(managers: Managers, terms: Terms) {
    managers.Keys == terms.Keys && forall s :: s in terms ==> managers[s].Keys == terms[s].Keys
  }

  /** Each scraper's term order lists its recorded terms, once each. */
  ghost predicate OrderLists(termOrder: map<string, seq<string>>, terms: Terms) {
    termOrder.Keys == terms.Keys
    && (forall s :: s in terms ==> NoDuplicates(termOrder[s]) && |termOrder[s]| > 0)
    && (forall s :: s in terms ==> (forall t :: t in termOrder[s] ==> t in terms[s]) && (forall t :: t in terms[s] ==> t in termOrder[s]))
  }

  ghost predicate TermsWellFormed(terms: Terms) {
    forall s, t :: s in terms && t in terms[s] ==> WellFormedTerm(terms[s][t])
  }

  /**
   * Managers and terms are recorded together; each scraper's term order
   * lists its terms once each; every stored term is well formed.
   */
  ghost predicate Consistent(managers: Managers, terms: Terms, termOrder: map<string, seq<string>>, mostRecent: map<string, TermData>) {
    SameShape(managers, terms) && OrderLists(termOrder, terms) && TermsWellFormed(terms)
    && mostRecent.Keys <= terms.Keys && (forall s :: s in mostRecent ==> WellFormedTerm(mostRecent[s]))
  }

  lemma RecordSameShape(managers: Managers, terms: Terms, scraper: string, code: string, termData: TermData, now: int, courses: Value)
    requires SameShape(managers, terms)
    ensures SameShape(AdvanceManager(managers, scraper, code, now, courses), RecordTerm(terms, scraper, code, termData))
  {
  }

  lemma RecordOrderLists(termOrder: map<string, seq<string>>, terms: Terms, scraper: string, code: string, termData: TermData)
    requires OrderLists(termOrder, terms)
    ensures OrderLists(RecordOrder(termOrder, scraper, code), RecordTerm(terms, scraper, code, termData))
  {
    var order := RecordOrder(termOrder, scraper, code);
    var t := RecordTerm(terms, scraper, code, termData);
    var before := if scraper in termOrder then termOrder[scraper] else [];
    assert forall x :: x in before <==> x in Inner(terms, scraper);
    if code !in before {
      AppendFresh(before, code);
    }
    assert NoDuplicates(order[scraper]) && |order[scraper]| > 0;
    assert forall x :: x in order[scraper] <==> x in t[scraper];
  }

  lemma AppendFresh(before: seq<string>, code: string)
    requires NoDuplicates(before) && code !in before
    ensures NoDuplicates(before + [code])
  {
  }

  lemma RecordWellFormed(terms: Terms, scraper: string, termData: TermData)
    requires TermsWellFormed(terms) && WellFormedTerm(termData)
    ensures TermsWellFormed(RecordTerm(terms, scraper, termData["termCode"].s, termData))
  {
  }

  /** Recording one scraper's data for one term keeps the database consistent. */
  lemma RecordConsistent(managers: Managers, terms: Terms, termOrder: map<string, seq<string>>, mostRecent: map<string, TermData>,
                         scraper: string, termData: TermData, now: int, courses: Value)
    requires Consistent(managers, terms, termOrder, mostRecent) && WellFormedTerm(termData)
    ensures var code := termData["termCode"].s;
      Consistent(AdvanceManager(managers, scraper, code, now, courses), RecordTerm(terms, scraper, code, termData),
        RecordOrder(termOrder, scraper, code), mostRecent)
  {
    var code := termData["termCode"].s;
    RecordSameShape(managers, terms, scraper, code, termData, now, courses);
    RecordOrderLists(termOrder, terms, scraper, code, termData);
    RecordWellFormed(terms, scraper, termData);
  }

  /** Choosing one of a scraper's recorded terms as its most recent keeps the database consistent. */
  lemma RecentConsistent(managers: Managers, terms: Terms, termOrder: map<string, seq<string>>, mostRecent: map<string, TermData>,
                         scraper: string, code: string)
    requires Consistent(managers, terms, termOrder, mostRecent) && scraper in terms && code in terms[scraper]
    ensures Consistent(managers, terms, termOrder, mostRecent[scraper := terms[scraper][code]])
  {
  }

  lemma ListedTerms(managers: Managers, terms: Terms, termOrder: map<string, seq<string>>, mostRecent: map<string, TermData>,
                    scraper: string)
    requires Consistent(managers, terms, termOrder, mostRecent) && scraper in terms
    ensures scraper in termOrder && |termOrder[scraper]| > 0
    ensures forall t :: t in termOrder[scraper] ==> t in terms[scraper] && WellFormedTerm(terms[scraper][t])
  {
  }

  class Database {
    /** `diff_managers[scraper][term]` */
    var managers: Managers
    /** `terms[scraper][term]` */
    var terms: Terms
    /** The insertion order of `terms[scraper]`, which `values()` follows. */
    var termOrder: map<string, seq<string>>
    /** `most_recent_terms[scraper]` */
    var mostRecent: map<string, TermData>

    ghost predicate Valid()
      reads this
    {
      Consistent(managers, terms, termOrder, mostRecent)
    }

    /** `Database()`: nothing recorded yet (reading from disk is not implemented in the source). */
    constructor ()
      ensures Valid() && managers == map[] && terms == map[] && termOrder == map[] && mostRecent == map[]
    {
      managers := map[];
      terms := map[];
      termOrder := map[];
      mostRecent := map[];
    }

    /**
     * `set_current_data(scraper, term_data, courses)` at time `now`: advances
     * the one manager for (scraper, term code), records the term data, and
     * picks the scraper's most recent term. Returns false where `max` raises
     * `TypeError`; the manager and the term are then already updated and the
     * most recent term is left as it was.
     */
    method SetCurrentData(scraper: string, termData: TermData, courses: Value, now: int) returns (ok: bool)
      requires Valid() && WellFormedTerm(termData)
      modifies this
      ensures Valid()
      ensures managers == AdvanceManager(old(managers), scraper, termData["termCode"].s, now, courses)
      ensures terms == RecordTerm(old(terms), scraper, termData["termCode"].s, termData)
      ensures termOrder == RecordOrder(old(termOrder), scraper, termData["termCode"].s)
      ensures ok <==> MaxIndex(SortKeys(termOrder[scraper], terms[scraper])).Some?
      ensures ok ==>
        mostRecent == old(mostRecent)[scraper := terms[scraper][termOrder[scraper][MaxIndex(SortKeys(termOrder[scraper], terms[scraper])).value]]]
      ensures !ok ==> mostRecent == old(mostRecent)
    {
      Record(scraper, termData, courses, now);
      ok := PickMostRecent(scraper);
    }

    /** The first half of `set_current_data`: the manager advances and the term data is stored. */
    method Record(scraper: string, termData: TermData, courses: Value, now: int)
      requires Valid() && WellFormedTerm(termData)
      modifies this
      ensures Valid() && scraper in terms && mostRecent == old(mostRecent)
      ensures managers == AdvanceManager(old(managers), scraper, termData["termCode"].s, now, courses)
      ensures terms == RecordTerm(old(terms), scraper, termData["termCode"].s, termData)
      ensures termOrder == RecordOrder(old(termOrder), scraper, termData["termCode"].s)
    {
      var code := termData["termCode"].s;
      RecordConsistent(managers, terms, termOrder, mostRecent, scraper, termData, now, courses);
      managers, terms, termOrder :=
        AdvanceManager(managers, scraper, code, now, courses), RecordTerm(terms, scraper, code, termData), RecordOrder(termOrder, scraper, code);
    }

    /** The second half: `max` over the scraper's terms by sort key becomes its most recent term. */
    method PickMostRecent(scraper: string) returns (ok: bool)
      requires Valid() && scraper in terms
      modifies this
      ensures Valid() && managers == old(managers) && terms == old(terms) && termOrder == old(termOrder)
      ensures ok <==> MaxIndex(SortKeys(termOrder[scraper], terms[scraper])).Some?
      ensures ok ==>
        mostRecent == old(mostRecent)[scraper := terms[scraper][termOrder[scraper][MaxIndex(SortKeys(termOrder[scraper], terms[scraper])).value]]]
      ensures !ok ==> mostRecent == old(mostRecent)
    {
      ListedTerms(managers, terms, termOrder, mostRecent, scraper);
      var best := MaxBySortKey(SortKeys(termOrder[scraper], terms[scraper]));
      if best.Some? {
        RecentConsistent(managers, terms, termOrder, mostRecent, scraper, termOrder[scraper][best.value]);
        mostRecent := mostRecent[scraper := terms[scraper][termOrder[scraper][best.value]]];
      }
      ok := best.Some?;
    }

    /** `_get_diff_manager(scraper, term)` */
    function GetDiffManager(scraper: string, term: string): (r: Result<DiffManager.ManagerState, DbError>)
      reads this
      ensures r.Ok? <==> scraper in managers && term in managers[scraper]
      ensures r == Err(NoSuchScraper(scraper)) <==> scraper !in managers
      ensures r.Ok? ==> r.value == managers[scraper][term]
    {
      if scraper !in managers then Err(NoSuchScraper(scraper))
      else if term !in managers[scraper] then Err(NoSuchTerm(term))
      else Ok(managers[scraper][term])
    }

    /** The term `get_diff_to_present` answers for: the requested one, else the scraper's most recent. */
    function RequestedTerm(scraper: string, requested: Option<string>): string
      requires Valid() && scraper in mostRecent
      reads this
    {
      if requested.Some? then requested.value else mostRecent[scraper]["termCode"].s
    }

    /**
     * `get_diff_to_present(scraper, since, current_term, requested_term)`:
     * the manager's answer and the stored term data. `since` is dropped
     * (a full answer) unless the client's current term is the requested one.
     */
    function DiffToPresent(scraper: string, since: Option<int>, currentTerm: Option<string>, requested: Option<string>)
      : (r: Result<(DiffManager.Answer, TermData), DbError>)
      requires Valid()
      reads this
      ensures r == Err(DataNotAvailable) <==> scraper !in mostRecent
      ensures r.Err? ==> r == Err(DataNotAvailable) || r == Err(NoSuchTerm(RequestedTerm(scraper, requested)))
      ensures scraper in mostRecent ==>
        (r.Ok? <==> RequestedTerm(scraper, requested) in terms[scraper])
      ensures r.Ok? ==> r.value.1 == terms[scraper][RequestedTerm(scraper, requested)]
      ensures r.Ok? ==> r.value.0 == DiffManager.AnswerFor(managers[scraper][RequestedTerm(scraper, requested)],
        if currentTerm == Some(RequestedTerm(scraper, requested)) then since else None)
    {
      if scraper !in mostRecent then Err(DataNotAvailable)
      else
        var term := RequestedTerm(scraper, requested);
        var since' := if currentTerm != Some(term) then None else since;
        match GetDiffManager(scraper, term)
        case Err(e) => Err(e)
        case Ok(m) => Ok((DiffManager.AnswerFor(m, since'), terms[scraper][term]))
    }
  }

  /** Without a `since` the manager always answers in full. */
  lemma AnswerWithoutSinceIsFull(s: DiffManager.ManagerState)
    ensures DiffManager.AnswerFor(s, None).full == Some(true)
    ensures s.current.Some? ==> DiffManager.AnswerFor(s, None).data == Some(s.current.value.data)
  {
  }

  /**
   * A client whose current term is not the requested one gets the full
   * data, whatever `since` it sends.
   */
  lemma TermSwitchForcesFull(db: Database, scraper: string, since: Option<int>, currentTerm: Option<string>, requested: Option<string>)
    requires db.Valid() && scraper in db.mostRecent
    requires currentTerm != Some(db.RequestedTerm(scraper, requested))
    requires db.DiffToPresent(scraper, since, currentTerm, requested).Ok?
    ensures db.DiffToPresent(scraper, since, currentTerm, requested).value.0.full == Some(true)
  {
    AnswerWithoutSinceIsFull(db.managers[scraper][db.RequestedTerm(scraper, requested)]);
  }

  /**
   * Asking for a term without `since` returns that term's current data in
   * full, stamped with its age, together with the stored term data; in
   * particular right after `set_current_data` it returns what was just set.
   */
  lemma FullAnswerIsCurrent(db: Database, scraper: string, code: string)
    requires db.Valid() && scraper in db.mostRecent && code in db.terms[scraper]
    requires db.managers[scraper][code].current.Some?
    ensures var c := db.managers[scraper][code].current.value;
      db.DiffToPresent(scraper, None, None, Some(code)) ==
        Ok((DiffManager.Answer(Some(c.data), Some(true), Some(c.age)), db.terms[scraper][code]))
  {
  }

  /** The manager just advanced holds the new data at the new age. */
  lemma AdvanceSetsCurrent(s: DiffManager.ManagerState, now: int, courses: Value)
    ensures DiffManager.Advance(s, now, courses).current == Some(DiffManager.Current(now, courses))
  {
  }
}
