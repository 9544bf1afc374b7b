/**
 * hyperschedule/api/validate.py: the shape check on the data a scraper posts
 * to /api/v4/courses. The check looks at `scraper` and `term` only; `courses`
 * is passed through unchecked.
 */
module Validate {

  import opened Wrappers
  import opened Json

  /**
   * How `check` fails: a `UserError` naming the bad field, or a `KeyError`
   * for a key that is looked up with `[]` and is missing.
   */
  datatype CheckError =
    | NotAMap
    | ScraperNotString
    | TermNotAMap
    | TermFieldNotString(field: string)
    | SortKeyNotList
    | SortKeyItemNotPrimitive
    | MissingKey(key: string)

  predicate IsUserError(e: CheckError) {
    !e.MissingKey?
  }

  /** `isinstance(item, (bool, int, str))` */
  predicate Primitive(v: Value) {
    v.Bool? || v.Int? || v.Str?
  }

  /** A term map as the database relies on it: string code and name, a list of primitives as sort key. */
  predicate WellFormedTerm(t: map<string, Value>) {
    "termCode" in t && t["termCode"].Str?
    && "termName" in t && t["termName"].Str?
    && "termSortKey" in t && t["termSortKey"].List?
    && forall i :: 0 <= i < |t["termSortKey"].items| ==> Primitive(t["termSortKey"].items[i])
  }

  /** A payload `check` accepts. */
  predicate WellFormedPost(data: Value) {
    data.Obj? && "scraper" in data.fields && data.fields["scraper"].Str?
    && "term" in data.fields && data.fields["term"].Obj? && WellFormedTerm(data.fields["term"].fields)
  }

  /** `term_info.get(key)` is a string; a missing key reads as `None`, which is not. */
  predicate StringField(t: map<string, Value>, key: string) {
    key in t && t[key].Str?
  }

  /** The checks on the term map, in the order the source makes them. */
  function CheckTerm(t: map<string, Value>): (r: Option<CheckError>)
    ensures r.None? <==> WellFormedTerm(t)
    ensures r == Some(MissingKey("termSortKey")) <==>
      StringField(t, "termCode") && StringField(t, "termName") && "termSortKey" !in t
  {
    if !StringField(t, "termCode") then Some(TermFieldNotString("termCode"))
    else if !StringField(t, "termName") then Some(TermFieldNotString("termName"))
    else if "termSortKey" !in t then Some(MissingKey("termSortKey"))
    else if !t["termSortKey"].List? then Some(SortKeyNotList)
    else if exists i :: 0 <= i < |t["termSortKey"].items| && !Primitive(t["termSortKey"].items[i]) then
      Some(SortKeyItemNotPrimitive)
    else None
  }

  /** `check(data)`: `None` when the payload is accepted. */
  function Check(data: Value): (r: Option<CheckError>)
    ensures r.None? <==> WellFormedPost(data)
    ensures r == Some(NotAMap) <==> !data.Obj?
    ensures r == Some(MissingKey("scraper")) <==> data.Obj? && "scraper" !in data.fields
    ensures r == Some(MissingKey("term")) <==>
      data.Obj? && "scraper" in data.fields && data.fields["scraper"].Str? && "term" !in data.fields
  {
    if !data.Obj? then Some(NotAMap)
    else if "scraper" !in data.fields then Some(MissingKey("scraper"))
    else if !data.fields["scraper"].Str? then Some(ScraperNotString)
    else if "term" !in data.fields then Some(MissingKey("term"))
    else if !data.fields["term"].Obj? then Some(TermNotAMap)
    else CheckTerm(data.fields["term"].fields)
  }

  /**
   * The only `KeyError`s are the three keys read with `[]`: `scraper`, `term`
   * and `termSortKey`. A missing `termCode` or `termName` is a `UserError`.
   */
  lemma KeyErrorsOnly(data: Value)
    requires Check(data).Some? && Check(data).value.MissingKey?
    ensures Check(data).value.key in {"scraper", "term", "termSortKey"}
  {
  }

  /** A missing term code is reported as a `UserError`, not a `KeyError`. */
  lemma MissingTermCodeIsUserError(data: Value)
    requires data.Obj? && "scraper" in data.fields && data.fields["scraper"].Str?
    requires "term" in data.fields && data.fields["term"].Obj? && "termCode" !in data.fields["term"].fields
    ensures Check(data) == Some(TermFieldNotString("termCode")) && IsUserError(Check(data).value)
  {
  }

  /** `courses` is never inspected: replacing it does not change the verdict. */
  lemma CoursesIgnored(data: Value, courses: Value)
    requires data.Obj?
    ensures Check(Obj(data.fields["courses" := courses])) == Check(data)
  {
    var d2 := Obj(data.fields["courses" := courses]);
    assert "scraper" in d2.fields <==> "scraper" in data.fields;
    assert "term" in d2.fields <==> "term" in data.fields;
  }
}
