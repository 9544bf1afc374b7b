/**
 * Course index keys and sort keys, shared by server.py, libcourse.py and
 * hyperschedule/libcourse.py (the three copies are the same code).
 *
 * A course object is a JSON object. Its index key is
 * `"/".join(str(course[a]) for a in COURSE_INDEX_ATTRS)`, and
 * `course_from_index_key` splits a key back into a partial course object,
 * turning `courseNumber` and `section` back into ints.
 */
module CourseKeys {

  import opened Wrappers
  import opened Text
  import opened Json

  type Course = map<string, Value>

  /** `COURSE_INDEX_ATTRS`, in order. */
  const INDEX_ATTRS: seq<string> := ["department", "courseNumber", "courseCodeSuffix", "school", "section"]

  /** `COURSE_INDEX_ATTRS_CONVERT_TO_INT` */
  predicate ConvertToInt(attr: string) {
    attr == "courseNumber" || attr == "section"
  }

  /** The five index attributes are present, each a string or an int (the kinds `str()` is modelled for). */
  predicate HasIndexFields(c: Course) {
    forall k :: 0 <= k < |INDEX_ATTRS| ==> INDEX_ATTRS[k] in c && (c[INDEX_ATTRS[k]].Str? || c[INDEX_ATTRS[k]].Int?)
  }

  /** Python's `str()` of a string or an int. */
  function ValueText(v: Value): (s: string)
    requires v.Str? || v.Int?
    ensures v.Int? ==> ParseInt(s) == Some(v.i)
  {
    if v.Str? then v.s else IntToStringParsesHere(v.i); IntToString(v.i)
  }

  lemma IntToStringParsesHere(i: int)
    ensures ParseInt(IntToString(i)) == Some(i)
  {
    IntToStringParses(i);
  }

  /** The texts the key is joined from, in `COURSE_INDEX_ATTRS` order. */
  function KeyParts(c: Course): (parts: seq<string>)
    requires HasIndexFields(c)
    ensures |parts| == |INDEX_ATTRS|
    ensures forall k :: 0 <= k < |INDEX_ATTRS| ==> parts[k] == ValueText(c[INDEX_ATTRS[k]])
  {
    assert INDEX_ATTRS[0] == "department" && INDEX_ATTRS[1] == "courseNumber" && INDEX_ATTRS[2] == "courseCodeSuffix";
    assert INDEX_ATTRS[3] == "school" && INDEX_ATTRS[4] == "section";
    [ValueText(c["department"]), ValueText(c["courseNumber"]), ValueText(c["courseCodeSuffix"]),
     ValueText(c["school"]), ValueText(c["section"])]
  }

  /** `course_to_index_key` */
  function IndexKey(c: Course): (key: string)
    requires HasIndexFields(c)
  {
    Join(KeyParts(c), '/')
  }

  /**
   * `course_from_index_key`: pairs the attributes with the parts of the key
   * (`zip` stops at the shorter), converting the two numeric ones with
   * `int()`; `None` where `int()` raises.
   */
  function CourseFromIndexKey(key: string): (r: Option<Course>)
    ensures r.Some? ==> forall a :: a in r.value ==> a in INDEX_ATTRS && (r.value[a].Int? <==> ConvertToInt(a))
    ensures r.Some? ==> forall a :: a in r.value ==> ConvertToInt(a) || r.value[a].Str?
  {
    FromParts(INDEX_ATTRS, Split(key, '/'))
  }

  /** The loop of `course_from_index_key` over `zip(attrs, parts)`. */
  function FromParts(attrs: seq<string>, parts: seq<string>): (r: Option<Course>)
    ensures r.Some? ==> forall a :: a in r.value ==> a in attrs && (r.value[a].Int? <==> ConvertToInt(a))
    ensures r.Some? ==> forall a :: a in r.value ==> ConvertToInt(a) || r.value[a].Str?
    ensures r.Some? ==> forall k :: 0 <= k < |attrs| && k < |parts| ==> attrs[k] in r.value
  {
    if |attrs| == 0 || |parts| == 0 then Some(map[])
    else
      var value := if ConvertToInt(attrs[0]) then (match ParseInt(parts[0]) case Some(n) => Some(Int(n)) case None => None)
                   else Some(Str(parts[0]));
      match value
      case None => None
      case Some(v) =>
        match FromParts(attrs[1..], parts[1..])
        case None => None
        case Some(rest) => Some(rest[attrs[0] := v])
  }

  /** The part of a course that an index key can hold. */
  function IndexPart(c: Course): (p: Course)
    requires HasIndexFields(c)
    ensures p.Keys <= c.Keys && forall a :: a in p ==> a in INDEX_ATTRS && p[a] == c[a]
  {
    map a | a in c && a in INDEX_ATTRS :: c[a]
  }

  /**
   * A course whose string attributes are slash-free strings and whose numeric
   * attributes are ints: the courses the scrapers produce.
   */
  predicate KeySafe(c: Course) {
    HasIndexFields(c)
    && (forall k :: 0 <= k < |INDEX_ATTRS| ==>
         if ConvertToInt(INDEX_ATTRS[k]) then c[INDEX_ATTRS[k]].Int?
         else c[INDEX_ATTRS[k]].Str? && '/' !in c[INDEX_ATTRS[k]].s)
  }

  lemma {:induction false} FromPartsOf(c: Course, attrs: seq<string>, parts: seq<string>)
    requires |attrs| == |parts|
    requires forall k :: 0 <= k < |attrs| ==> attrs[k] in c
    requires forall k :: 0 <= k < |attrs| ==>
      if ConvertToInt(attrs[k]) then c[attrs[k]].Int? && ParseInt(parts[k]) == Some(c[attrs[k]].i)
      else c[attrs[k]] == Str(parts[k])
    ensures FromParts(attrs, parts) == Some(map a | a in c && a in attrs :: c[a])
  {
    if |attrs| > 0 {
      FromPartsOf(c, attrs[1..], parts[1..]);
      var rest := map a | a in c && a in attrs[1..] :: c[a];
      assert rest[attrs[0] := c[attrs[0]]] == map a | a in c && a in attrs :: c[a];
    } else {
      assert (map a | a in c && a in attrs :: c[a]) == map[];
    }
  }

  /** No separator in the text of a key-safe attribute. */
  lemma PartsSlashFree(c: Course)
    requires KeySafe(c)
    ensures forall k :: 0 <= k < |KeyParts(c)| ==> '/' !in KeyParts(c)[k]
  {
    forall k | 0 <= k < |KeyParts(c)|
      ensures '/' !in KeyParts(c)[k]
    {
      if ConvertToInt(INDEX_ATTRS[k]) {
        IntTextSlashFree(c[INDEX_ATTRS[k]].i);
      }
    }
  }

  lemma IntTextSlashFree(i: int)
    ensures '/' !in IntToString(i)
  {
  }

  /**
   * The round trip: reading back the key of a key-safe course gives exactly its
   * five index attributes, with the numbers as ints.
   */
  lemma IndexKeyRoundTrip(c: Course)
    requires KeySafe(c)
    ensures CourseFromIndexKey(IndexKey(c)) == Some(IndexPart(c))
  {
    var parts := KeyParts(c);
    PartsSlashFree(c);
    SplitJoin(parts, '/');
    FromPartsOf(c, INDEX_ATTRS, parts);
  }

  /** A key-safe course's key holds exactly four separators. */
  lemma KeySeparators(c: Course)
    requires KeySafe(c)
    ensures multiset(IndexKey(c))['/'] == 4
  {
    PartsSlashFree(c);
    JoinSeparatorCount(KeyParts(c), '/');
  }

  /** The course with department "A/B" used below. */
  function SlashedCourse(): Course {
    map["department" := Str("A/B"), "courseNumber" := Int(1), "courseCodeSuffix" := Str(""),
        "school" := Str("HM"), "section" := Int(1)]
  }

  /** A slash inside the department breaks the round trip: "A/B" reads back as department "A" and course number "B". */
  lemma SlashBreaksRoundTrip()
    ensures HasIndexFields(SlashedCourse()) && CourseFromIndexKey(IndexKey(SlashedCourse())).None?
  {
    SlashedKey();
    SlashedKeyUnreadable();
  }

  lemma SlashedKey()
    ensures HasIndexFields(SlashedCourse()) && IndexKey(SlashedCourse()) == "A/B/1//HM/1"
  {
    var c := SlashedCourse();
    assert HasIndexFields(c);
    assert IntToString(1) == "1";
    assert KeyParts(c) == ["A/B", "1", "", "HM", "1"];
    SlashedJoin();
  }

  lemma SlashedJoin()
    ensures Join(["A/B", "1", "", "HM", "1"], '/') == "A/B/1//HM/1"
  {
    var parts: seq<string> := ["A/B", "1", "", "HM", "1"];
    assert Join(parts[3..], '/') == "HM/1" by {
      assert parts[3..][1..] == ["1"];
    }
    assert Join(parts[1..], '/') == "1//HM/1" by {
      assert parts[1..][1..] == parts[2..] && parts[2..][1..] == parts[3..];
    }
  }

  lemma SlashedKeyUnreadable()
    ensures CourseFromIndexKey("A/B/1//HM/1").None?
  {
    var tail := "1//HM/1";
    assert "A/B/1//HM/1" == "A" + "/" + ("B" + "/" + tail);
    NumberNotInt(tail);
  }

  /** A key whose second part is "B" cannot be read back: `int("B")` raises. */
  lemma NumberNotInt(tail: string)
    ensures FromParts(INDEX_ATTRS, Split("A" + "/" + ("B" + "/" + tail), '/')).None?
  {
    SplitAtSep("A", '/', "B" + "/" + tail);
    SplitAtSep("B", '/', tail);
    var parts := Split("A" + "/" + ("B" + "/" + tail), '/');
    assert parts == ["A"] + (["B"] + Split(tail, '/'));
    assert parts[1..] == ["B"] + Split(tail, '/');
    assert ParseInt("B").None? by {
      StripOfNoSpace("B");
    }
    assert INDEX_ATTRS[1..][0] == "courseNumber";
    assert FromParts(INDEX_ATTRS[1..], parts[1..]).None?;
  }

  /** `course_sort_key`: the five index attributes, in order. */
  function CourseSortKey(c: Course): (r: seq<Value>)
    requires forall k :: 0 <= k < |INDEX_ATTRS| ==> INDEX_ATTRS[k] in c
    ensures |r| == |INDEX_ATTRS| && forall k :: 0 <= k < |INDEX_ATTRS| ==> r[k] == c[INDEX_ATTRS[k]]
  {
    seq(|INDEX_ATTRS|, k requires 0 <= k < |INDEX_ATTRS| => c[INDEX_ATTRS[k]])
  }

  /**
   * Sort key and index key identify the same courses: equal sort keys give
   * equal index keys, and for key-safe courses equal index keys give equal sort keys.
   */
  lemma SortKeyMatchesIndexKey(a: Course, b: Course)
    requires KeySafe(a) && KeySafe(b)
    ensures CourseSortKey(a) == CourseSortKey(b) <==> IndexKey(a) == IndexKey(b)
  {
    if CourseSortKey(a) == CourseSortKey(b) {
      assert KeyParts(a) == KeyParts(b);
    }
    if IndexKey(a) == IndexKey(b) {
      IndexKeyRoundTrip(a);
      IndexKeyRoundTrip(b);
      forall k | 0 <= k < |INDEX_ATTRS|
        ensures a[INDEX_ATTRS[k]] == b[INDEX_ATTRS[k]]
      {
        assert IndexPart(a)[INDEX_ATTRS[k]] == a[INDEX_ATTRS[k]];
      }
    }
  }

  /** `schedule_sort_key`: `(days, startTime, endTime)`. */
  function ScheduleSortKey(slot: map<string, Value>): (r: seq<Value>)
    requires "days" in slot && "startTime" in slot && "endTime" in slot
    ensures |r| == 3
  {
    [slot["days"], slot["startTime"], slot["endTime"]]
  }

  /** Two slots share a sort key exactly when they agree on days, start and end. */
  lemma ScheduleKeyEqual(s1: map<string, Value>, s2: map<string, Value>)
    requires "days" in s1 && "startTime" in s1 && "endTime" in s1
    requires "days" in s2 && "startTime" in s2 && "endTime" in s2
    ensures ScheduleSortKey(s1) == ScheduleSortKey(s2) <==>
      s1["days"] == s2["days"] && s1["startTime"] == s2["startTime"] && s1["endTime"] == s2["endTime"]
  {
    if ScheduleSortKey(s1) == ScheduleSortKey(s2) {
      assert ScheduleSortKey(s1)[0] == ScheduleSortKey(s2)[0];
      assert ScheduleSortKey(s1)[1] == ScheduleSortKey(s2)[1];
      assert ScheduleSortKey(s1)[2] == ScheduleSortKey(s2)[2];
    }
  }
}
