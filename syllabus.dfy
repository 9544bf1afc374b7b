/**
 * The syllabus bookkeeping of hyperschedule/database.py: a store of
 * syllabus information keyed by course code (the module-level
 * `syllabus_info` dict), the merge of that information into the course
 * data the API serves, and the 5C email test behind uploads.
 *
 * Firebase (token verification, storage, the initial listing of blobs) is
 * not modelled: the verified user's email is a parameter.
 */
module Syllabus {

  import opened Json
  import opened Text

  /** One course of the served data: its JSON fields. */
  type Course = map<string, Value>

  const SYLLABUS: string := "syllabus"

  // ---------------------------------------------------------------- merge, as a specification

  /**
   * The courses after merging the syllabus information of the codes in
   * `done`: a course whose code is in `done` and has information gets it
   * under "syllabus"; every other course is as it was.
   */
  function MergedOver(courses: map<string, Course>, info: map<string, Value>, done: set<string>): (r: map<string, Course>)
    ensures r.Keys == courses.Keys
  {
    map c | c in courses :: if c in info && c in done then courses[c][SYLLABUS := info[c]] else courses[c]
  }

  /** `merge_syllabus_info_to_courses`: every code of `info` is merged. */
  function Merged(courses: map<string, Course>, info: map<string, Value>): (r: map<string, Course>)
    ensures r.Keys == courses.Keys
  {
    MergedOver(courses, info, info.Keys)
  }

  /** A course with syllabus information carries exactly that information afterwards. */
  lemma MergedSetsSyllabus(courses: map<string, Course>, info: map<string, Value>, c: string)
    requires c in courses && c in info
    ensures SYLLABUS in Merged(courses, info)[c] && Merged(courses, info)[c][SYLLABUS] == info[c]
  {
  }

  /** A course without syllabus information is left as it was. */
  lemma MergedKeepsOthers(courses: map<string, Course>, info: map<string, Value>, c: string)
    requires c in courses && c !in info
    ensures Merged(courses, info)[c] == courses[c]
  {
  }

  /** No field other than "syllabus" appears, disappears or changes on any course. */
  lemma MergedTouchesOnlySyllabus(courses: map<string, Course>, info: map<string, Value>, c: string, field: string)
    requires c in courses && field != SYLLABUS
    ensures field in Merged(courses, info)[c] <==> field in courses[c]
    ensures field in courses[c] ==> Merged(courses, info)[c][field] == courses[c][field]
  {
  }

  /** Merging twice is merging once. */
  lemma MergedIdempotent(courses: map<string, Course>, info: map<string, Value>)
    ensures Merged(Merged(courses, info), info) == Merged(courses, info)
  {
    var once := Merged(courses, info);
    forall c | c in once
      ensures Merged(once, info)[c] == once[c]
    {
      if c in info {
        assert once[c] == courses[c][SYLLABUS := info[c]];
        assert once[c][SYLLABUS := info[c]] == once[c];
      }
    }
  }

  /**
   * Recording one code and then merging is merging the old information
   * and then giving that code's course (when there is one) the new entry:
   * `update_syllabus_info` between two merges affects only its own course.
   */
  lemma MergeAfterUpdate(courses: map<string, Course>, info: map<string, Value>, code: string, v: Value)
    ensures Merged(courses, info[code := v])
         == if code in courses then Merged(courses, info)[code := courses[code][SYLLABUS := v]] else Merged(courses, info)
  {
    var lhs := Merged(courses, info[code := v]);
    var rhs := if code in courses then Merged(courses, info)[code := courses[code][SYLLABUS := v]] else Merged(courses, info);
    assert lhs.Keys == rhs.Keys;
    forall c | c in lhs
      ensures lhs[c] == rhs[c]
    {
    }
  }

  // ---------------------------------------------------------------- state

  /** The course data whose "courses" entry the merge writes into. */
  class CourseData {
    var courses: map<string, Course>

    constructor (courses: map<string, Course>)
      ensures this.courses == courses
    {
      this.courses := courses;
    }
  }

  /** The module-level `syllabus_info` dict: course code to syllabus information. */
  class SyllabusStore {
    var info: map<string, Value>

    constructor ()
      ensures info == map[]
    {
      info := map[];
    }

    /** `update_syllabus_info`: only the entry for `code` changes. */
    method Update(code: string, v: Value)
      modifies this
      ensures info == old(info)[code := v]
      ensures forall c :: c in old(info) && c != code ==> c in info && info[c] == old(info)[c]
    {
      info := info[code := v];
    }

    /**
     * `merge_syllabus_info_to_courses`: walks the codes of the store (in
     * whatever order; the writes are to different courses) and writes the
     * information into every course that has one of those codes.
     */
    method MergeInto(data: CourseData)
      modifies data
      ensures data.courses == Merged(old(data.courses), info)
    {
      var codes := info;
      ghost var start := data.courses;
      ghost var done: set<string> := {};
      var todo := codes.Keys;
      while todo != {}
        invariant todo !! done && todo + done == codes.Keys
        invariant data.courses == MergedOver(start, codes, done)
        decreases |todo|
      {
        var c :| c in todo;
        MergeOneMore(start, codes, done, c);
        if c in data.courses {
          data.courses := data.courses[c := data.courses[c][SYLLABUS := codes[c]]];
        }
        todo := todo - {c};
        done := done + {c};
      }
    }
  }

  /** Adding one code to `done` writes that code's course and no other. */
  lemma MergeOneMore(courses: map<string, Course>, info: map<string, Value>, done: set<string>, c: string)
    requires c in info && c !in done
    ensures MergedOver(courses, info, done + {c})
         == if c in courses then MergedOver(courses, info, done)[c := courses[c][SYLLABUS := info[c]]] else MergedOver(courses, info, done)
  {
    var lhs := MergedOver(courses, info, done + {c});
    var rhs := if c in courses then MergedOver(courses, info, done)[c := courses[c][SYLLABUS := info[c]]] else MergedOver(courses, info, done);
    assert lhs.Keys == rhs.Keys;
    forall d | d in lhs
      ensures lhs[d] == rhs[d]
    {
    }
  }

  // ---------------------------------------------------------------- the 5C email test

  /** The mail domains of the five colleges, Harvey Mudd's two included. */
  const DOMAINS: seq<string> := ["g.hmc.edu", "hmc.edu", "scrippscollege.edu", "pitzer.edu", "pomona.edu", "cmc.edu"]

  /** The suffixes `is_5C_user` tests, each "@" followed by a domain. */
  const SUFFIXES: seq<string> := ["@g.hmc.edu", "@hmc.edu", "@scrippscollege.edu", "@pitzer.edu", "@pomona.edu", "@cmc.edu"]

  predicate HasFiveCSuffix(email: string) {
    exists k :: 0 <= k < |SUFFIXES| && EndsWith(email, SUFFIXES[k])
  }

  /** `is_5C_user` once the token is verified: the suffixes are tried in order. */
  method IsFiveCUser(email: string) returns (r: bool)
    ensures r <==> HasFiveCSuffix(email)
  {
    for k := 0 to |SUFFIXES|
      invariant forall j :: 0 <= j < k ==> !EndsWith(email, SUFFIXES[j])
    {
      if EndsWith(email, SUFFIXES[k]) {
        return true;
      }
    }
    return false;
  }

  /** Each suffix is "@" and the domain at the same place. */
  lemma SuffixesAreDomains()
    ensures |SUFFIXES| == |DOMAINS|
    ensures forall k :: 0 <= k < |SUFFIXES| ==> SUFFIXES[k] == "@" + DOMAINS[k] && '@' !in DOMAINS[k]
  {
  }

  /**
   * For an address `local@domain` (the domain without "@"), the test
   * accepts exactly the listed domains: a longer domain that merely ends
   * in one of them, such as "cs.hmc.edu" or "nothmc.edu", is refused.
   */
  lemma FiveCIffDomain(local: string, domain: string)
    requires '@' !in domain
    ensures HasFiveCSuffix(local + "@" + domain) <==> domain in DOMAINS
  {
    SuffixesAreDomains();
    if domain in DOMAINS {
      ListedDomainAccepted(local, domain);
    }
    if HasFiveCSuffix(local + "@" + domain) {
      var k :| 0 <= k < |SUFFIXES| && EndsWith(local + "@" + domain, SUFFIXES[k]);
      AtSuffixIsDomain(local, domain, DOMAINS[k]);
    }
  }

  lemma ListedDomainAccepted(local: string, domain: string)
    requires domain in DOMAINS
    ensures HasFiveCSuffix(local + "@" + domain)
  {
    SuffixesAreDomains();
    var email := local + "@" + domain;
    var k :| 0 <= k < |DOMAINS| && DOMAINS[k] == domain;
    assert email[|email| - |SUFFIXES[k]|..] == SUFFIXES[k];
  }

  /** An "@d" suffix of `local@domain` with no "@" in `domain` or `d` is the whole domain. */
  lemma AtSuffixIsDomain(local: string, domain: string, d: string)
    requires '@' !in domain && '@' !in d
    requires EndsWith(local + "@" + domain, "@" + d)
    ensures d == domain
  {
    var email := local + "@" + domain;
    var n := |email|;
    var p := n - |d| - 1;
    assert email[p] == ("@" + d)[0] == '@';
    assert forall i :: p < i < n ==> email[i] == d[i - p - 1] && email[i] != '@';
    assert forall i :: |local| < i < n ==> email[i] == domain[i - |local| - 1] && email[i] != '@';
    assert email[|local|] == '@';
    assert p == |local|;
    assert d == email[p + 1..] == domain;
  }
}
