/**
 * Claremont course codes ("PHIL 179A HM-01"), from
 * hyperschedule/scrapers/claremont/shared.py and hyperschedule/libcourse.py.
 *
 * The pattern `([A-Z]+) *?([0-9]+) *([A-Z]*[0-9]?) *([A-Z]{2})(?:-([0-9]+))?`
 * is matched by hand, reproducing the choices Python's backtracking matcher
 * makes: the department and number runs are maximal, and the suffix takes the
 * whole letter run (plus one digit) when two school letters follow, and
 * otherwise leaves the last two letters of the run to the school. server.py and
 * libportal.py use the same pattern with a mandatory `-([0-9]+)`, and
 * lingk_scraper.py one without the section.
 */
module CourseCode {

  import opened Wrappers
  import opened Text
  import opened Json

  // ---------------------------------------------------------------- runs of one character class

  datatype CharClass = Letter | Digit | Blank

  /** `[A-Z]`, `[0-9]` and the literal space of the pattern. */
  predicate InClass(c: CharClass, ch: char) {
    match c
    case Letter => IsUpper(ch)
    case Digit => IsDigit(ch)
    case Blank => ch == ' '
  }

  /** The length of the maximal run of class `c` starting at index `i`. */
  function Span(s: string, i: nat, c: CharClass): (n: nat)
    requires i <= |s|
    ensures i + n <= |s|
    decreases |s| - i
  {
    if i < |s| && InClass(c, s[i]) then 1 + Span(s, i + 1, c) else 0
  }

  /** The run `Span` measures is of class `c` and cannot be extended. */
  lemma {:induction false} SpanRun(s: string, i: nat, c: CharClass)
    requires i <= |s|
    ensures Run(s, i, i + Span(s, i, c), c)
    ensures i + Span(s, i, c) == |s| || !InClass(c, s[i + Span(s, i, c)])
    decreases |s| - i
  {
    if i < |s| && InClass(c, s[i]) {
      SpanRun(s, i + 1, c);
    }
  }

  lemma {:induction false} SpanIs(s: string, i: nat, c: CharClass, n: nat)
    requires i + n <= |s|
    requires forall j :: i <= j < i + n ==> InClass(c, s[j])
    requires i + n == |s| || !InClass(c, s[i + n])
    ensures Span(s, i, c) == n
    decreases n
  {
    if n > 0 {
      SpanIs(s, i + 1, c, n - 1);
    }
  }

  function Blanks(n: nat): (r: string)
    ensures |r| == n && forall j :: 0 <= j < n ==> r[j] == ' '
  {
    if n == 0 then "" else " " + Blanks(n - 1)
  }

  predicate AllUpper(s: string) {
    forall j :: 0 <= j < |s| ==> IsUpper(s[j])
  }

  /** `[A-Z]*[0-9]?` */
  predicate SuffixShape(s: string) {
    s == [] || (AllUpper(s[..|s| - 1]) && (IsUpper(s[|s| - 1]) || IsDigit(s[|s| - 1])))
  }

  // ---------------------------------------------------------------- the matcher

  /** The groups of a match, with the lengths of the three runs of spaces between them. */
  datatype CodeMatch = CodeMatch(
    department: string, number: string, suffix: string, school: string, section: Option<string>,
    gap1: nat, gap2: nat, gap3: nat)

  /** The text a match covers: the groups with their gaps, then `-section` if present. */
  function Covered(m: CodeMatch): string {
    GroupsText(m) + SectionText(m.section)
  }

  function GroupsText(m: CodeMatch): string {
    m.department + Blanks(m.gap1) + m.number + Blanks(m.gap2) + m.suffix + Blanks(m.gap3) + m.school
  }

  /** `(?:-([0-9]+))?` at index `i`. */
  function SectionAt(s: string, i: nat): (r: Option<string>)
    requires i <= |s|
    ensures r.Some? ==> |r.value| > 0 && AllDigits(r.value)
  {
    if i < |s| && s[i] == '-' && Span(s, i + 1, Digit) > 0 then
      SpanRun(s, i + 1, Digit);
      RunSlice(s, i + 1, i + 1 + Span(s, i + 1, Digit), Digit);
      Some(s[i + 1..i + 1 + Span(s, i + 1, Digit)])
    else None
  }

  /** The section group is the digit run right after a hyphen at `i`. */
  lemma SectionCovers(s: string, i: nat)
    requires i <= |s|
    ensures var r := SectionAt(s, i);
      r.Some? ==> i + 1 + |r.value| <= |s| && s[i] == '-' && s[i + 1..i + 1 + |r.value|] == r.value
    ensures StartsWith(s[i..], SectionText(SectionAt(s, i)))
  {
    if i < |s| && s[i] == '-' && Span(s, i + 1, Digit) > 0 {
      var t := s[i + 1..i + 1 + Span(s, i + 1, Digit)];
      assert s[i..][..|t| + 1] == "-" + t;
    }
  }

  function SectionText(sec: Option<string>): string {
    match sec
    case None => ""
    case Some(t) => "-" + t
  }

  /** The groups have the shapes of the pattern's sub-expressions. */
  predicate GroupShapes(m: CodeMatch) {
    |m.department| > 0 && AllUpper(m.department)
    && |m.number| > 0 && AllDigits(m.number)
    && SuffixShape(m.suffix)
    && |m.school| == 2 && AllUpper(m.school)
    && (m.section.Some? ==> |m.section.value| > 0 && AllDigits(m.section.value))
  }

  /** Every character of `s[i..j]` is of class `c`. */
  predicate Run(s: string, i: nat, j: nat, c: CharClass)
    requires i <= j <= |s|
  {
    forall k {:trigger InClass(c, s[k])} :: i <= k < j ==> InClass(c, s[k])
  }

  lemma RunSlice(s: string, i: nat, j: nat, c: CharClass)
    requires i <= j <= |s| && Run(s, i, j, c)
    ensures c == Letter ==> AllUpper(s[i..j])
    ensures c == Digit ==> AllDigits(s[i..j])
    ensures c == Blank ==> s[i..j] == Blanks(j - i)
  {
    var x := s[i..j];
    forall k | 0 <= k < |x| ensures InClass(c, x[k]) {
      assert x[k] == s[i + k];
    }
  }

  /** Where the department ends (`a`), the number starts (`b`) and ends (`e`), and the suffix starts (`q`). */
  datatype Head = Head(a: nat, b: nat, e: nat, q: nat)

  predicate HeadOk(s: string, h: Head) {
    0 < h.a <= h.b < h.e <= h.q <= |s|
    && Run(s, 0, h.a, Letter) && Run(s, h.a, h.b, Blank) && Run(s, h.b, h.e, Digit) && Run(s, h.e, h.q, Blank)
  }

  /** `([A-Z]+) *?([0-9]+) *`: maximal runs, as backtracking never does better with shorter ones. */
  function HeadOf(s: string): (r: Option<Head>)
    ensures r.Some? ==> HeadOk(s, r.value)
  {
    var a := Span(s, 0, Letter);
    if a == 0 then None
    else
      var b := a + Span(s, a, Blank);
      var g := Span(s, b, Digit);
      if g == 0 then None
      else
        var e := b + g;
        SpanRun(s, 0, Letter);
        SpanRun(s, a, Blank);
        SpanRun(s, b, Digit);
        SpanRun(s, e, Blank);
        Some(Head(a, b, e, e + Span(s, e, Blank)))
  }

  /** Where the suffix of the whole-run reading ends: after the letter run and one optional digit. */
  function SuffixEnd(s: string, q: nat): (p1: nat)
    requires q <= |s|
    ensures q <= p1 <= |s|
  {
    var p := q + Span(s, q, Letter);
    if p < |s| && IsDigit(s[p]) then p + 1 else p
  }

  /** One reading of `([A-Z]*[0-9]?) *([A-Z]{2})` from `q`: the suffix ends at `p1`, the school spans `p2..end`. */
  datatype Tail = Tail(p1: nat, p2: nat, end: nat)

  /** The positions of `t` split the text after `q` into a suffix, spaces and two school letters. */
  predicate TailOk(s: string, q: nat, t: Tail) {
    q <= t.p1 <= t.p2 && t.p2 + 2 == t.end <= |s|
    && SuffixShape(s[q..t.p1]) && Run(s, t.p1, t.p2, Blank) && Run(s, t.p2, t.end, Letter)
  }

  /** The suffix takes the whole letter run and a following digit; the school comes after the spaces. */
  function WholeRun(s: string, q: nat): (r: Option<Tail>)
    requires q <= |s|
    ensures r.Some? ==> TailOk(s, q, r.value)
  {
    var p1 := SuffixEnd(s, q);
    var p2 := p1 + Span(s, p1, Blank);
    if p2 + 2 <= |s| && IsUpper(s[p2]) && IsUpper(s[p2 + 1]) then
      SuffixEndShape(s, q);
      SpanRun(s, p1, Blank);
      LetterPair(s, p2);
      Some(Tail(p1, p2, p2 + 2))
    else None
  }

  lemma SuffixEndShape(s: string, q: nat)
    requires q <= |s|
    ensures SuffixShape(s[q..SuffixEnd(s, q)])
  {
    SpanRun(s, q, Letter);
    SuffixOfRun(s, q, q + Span(s, q, Letter), SuffixEnd(s, q));
  }

  lemma LetterPair(s: string, i: nat)
    requires i + 2 <= |s| && IsUpper(s[i]) && IsUpper(s[i + 1])
    ensures Run(s, i, i + 2, Letter)
  {
  }

  /** The school is the last two letters of the letter run, the suffix the letters before them. */
  function SplitRun(s: string, q: nat): (r: Option<Tail>)
    requires q <= |s|
    ensures r.Some? ==> TailOk(s, q, r.value)
  {
    var p := q + Span(s, q, Letter);
    if p >= q + 2 then
      SplitTail(s, q, p);
      Some(Tail(p - 2, p - 2, p))
    else None
  }

  lemma SplitTail(s: string, q: nat, p: nat)
    requires q <= |s| && p == q + Span(s, q, Letter) && p >= q + 2
    ensures Run(s, q, p - 2, Letter) && Run(s, p - 2, p, Letter) && SuffixShape(s[q..p - 2])
  {
    SpanRun(s, q, Letter);
    assert Run(s, q, p - 2, Letter) && Run(s, p - 2, p, Letter);
    SuffixOfRun(s, q, p - 2, p - 2);
  }

  /** The groups of the match made of head `h` and tail `t`. */
  function Candidate(s: string, h: Head, t: Tail): CodeMatch
    requires HeadOk(s, h) && h.q <= t.p1 <= t.p2 <= t.end <= |s|
  {
    CodeMatch(s[..h.a], s[h.b..h.e], s[h.q..t.p1], s[t.p2..t.end], SectionAt(s, t.end), h.b - h.a, h.q - h.e, t.p2 - t.p1)
  }

  lemma SuffixOfRun(s: string, q: nat, p: nat, p1: nat)
    requires q <= p <= p1 <= |s|
    requires Run(s, q, p, Letter)
    requires p1 == p || (p1 == p + 1 && IsDigit(s[p]))
    ensures SuffixShape(s[q..p1])
  {
    var x := s[q..p1];
    if x != [] {
      RunSlice(s, q, p, Letter);
      assert x[..|x| - 1] == s[q..p] || x == s[q..p];
    }
  }

  lemma CandidateShapes(s: string, h: Head, t: Tail)
    requires HeadOk(s, h) && TailOk(s, h.q, t)
    ensures GroupShapes(Candidate(s, h, t))
  {
    RunSlice(s, 0, h.a, Letter);
    RunSlice(s, h.b, h.e, Digit);
    RunSlice(s, t.p2, t.end, Letter);
  }

  /** A candidate whose groups are read off consecutive slices of `s` covers a prefix of `s`. */
  lemma CandidateCovers(s: string, h: Head, tl: Tail)
    requires HeadOk(s, h) && TailOk(s, h.q, tl)
    ensures StartsWith(s, Covered(Candidate(s, h, tl)))
  {
    var m := Candidate(s, h, tl);
    var p1, p2, end := tl.p1, tl.p2, tl.end;
    RunSlice(s, h.a, h.b, Blank);
    RunSlice(s, h.e, h.q, Blank);
    RunSlice(s, p1, p2, Blank);
    var t := m.department;
    Extend(s, h.a, h.b, t, Blanks(m.gap1));
    t := t + Blanks(m.gap1);
    Extend(s, h.b, h.e, t, m.number);
    t := t + m.number;
    Extend(s, h.e, h.q, t, Blanks(m.gap2));
    t := t + Blanks(m.gap2);
    Extend(s, h.q, p1, t, m.suffix);
    t := t + m.suffix;
    Extend(s, p1, p2, t, Blanks(m.gap3));
    t := t + Blanks(m.gap3);
    Extend(s, p2, end, t, m.school);
    t := t + m.school;
    assert t == GroupsText(m);
    SectionCovers(s, end);
    PrefixThen(s, end, SectionText(m.section));
  }

  lemma Extend(s: string, i: nat, j: nat, acc: string, piece: string)
    requires i <= j <= |s| && acc == s[..i] && piece == s[i..j]
    ensures acc + piece == s[..j]
  {
  }

  lemma PrefixThen(s: string, end: nat, t: string)
    requires end <= |s| && StartsWith(s[end..], t)
    ensures StartsWith(s, s[..end] + t)
  {
    assert s[..end + |t|] == s[..end] + s[end..][..|t|];
  }

  /**
   * `re.match` of the course-code pattern against `s` (anchored at the start
   * only); `sectionRequired` selects the variant whose `-([0-9]+)` is mandatory.
   */
  function MatchCourseCode(s: string, sectionRequired: bool): (r: Option<CodeMatch>)
    ensures r.Some? ==> GroupShapes(r.value) && StartsWith(s, Covered(r.value))
    ensures r.Some? && sectionRequired ==> r.value.section.Some?
  {
    match HeadOf(s)
    case None => None
    case Some(h) =>
      var whole := WholeRun(s, h.q);
      var split := SplitRun(s, h.q);
      var pick :=
        if sectionRequired then
          if whole.Some? && SectionAt(s, whole.value.end).Some? then whole
          else if split.Some? && SectionAt(s, split.value.end).Some? then split
          else None
        else if whole.Some? then whole
        else split;
      if pick.None? then None
      else
        CandidateShapes(s, h, pick.value);
        CandidateCovers(s, h, pick.value);
        Some(Candidate(s, h, pick.value))
  }

  // ---------------------------------------------------------------- checks after the match

  /** A course code as a partial course object; `section` is `None` when the code has none. */
  datatype CourseInfo = CourseInfo(department: string, number: int, suffix: string, school: string, section: Option<int>)

  /** The reasons the parsers raise `ScrapeError`, in the order they are checked. */
  datatype CodeError =
    | MalformedCode | EmptyDepartment | DepartmentSlash | MalformedNumber | NonPositiveNumber
    | SuffixSlash | EmptySchool | SchoolSlash | SectionMissing | SectionUnexpected
    | MalformedSection | NonPositiveSection

  predicate SectionError(e: CodeError) {
    e.SectionMissing? || e.SectionUnexpected? || e.MalformedSection? || e.NonPositiveSection?
  }

  /** Whether a section must be present, must be absent, or may be either. */
  datatype SectionRule = AnySection | WithSection | WithoutSection

  /** The guard checks that follow a successful match, in the source's order. */
  function CheckGroups(m: CodeMatch, rule: SectionRule): (r: Result<CourseInfo, CodeError>)
    ensures r.Ok? ==> r.value.department == m.department && r.value.suffix == m.suffix && r.value.school == m.school
    ensures r.Ok? ==> r.value.number > 0 && '/' !in m.department + m.suffix + m.school
    ensures r.Ok? ==> (r.value.section.Some? <==> m.section.Some?)
    ensures r.Ok? && r.value.section.Some? ==> r.value.section.value > 0
    ensures r.Err? ==> r.error != MalformedCode
    ensures r.Ok? && rule == WithSection ==> r.value.section.Some?
    ensures r.Ok? && rule == WithoutSection ==> r.value.section.None?
  {
    match CheckNumber(m)
    case Err(e) => Err(e)
    case Ok(n) => CheckSection(m, n, rule)
  }

  /** The checks on the department, number, suffix and school; the result is the course number. */
  function CheckNumber(m: CodeMatch): (r: Result<int, CodeError>)
    ensures r.Ok? ==> r.value > 0 && '/' !in m.department + m.suffix + m.school
    ensures r.Ok? ==> ParseInt(m.number) == Some(r.value)
    ensures r.Err? ==> !r.error.MalformedCode? && !SectionError(r.error)
  {
    if m.department == [] then Err(EmptyDepartment)
    else if '/' in m.department then Err(DepartmentSlash)
    else match ParseInt(m.number)
      case None => Err(MalformedNumber)
      case Some(n) =>
        if n <= 0 then Err(NonPositiveNumber)
        else if '/' in m.suffix then Err(SuffixSlash)
        else if m.school == [] then Err(EmptySchool)
        else if '/' in m.school then Err(SchoolSlash)
        else Ok(n)
  }

  /** The checks on the section: its presence against `rule`, then its value. */
  function CheckSection(m: CodeMatch, n: int, rule: SectionRule): (r: Result<CourseInfo, CodeError>)
    ensures r.Ok? ==> r.value == CourseInfo(m.department, n, m.suffix, m.school, r.value.section)
    ensures r.Ok? ==> (r.value.section.Some? <==> m.section.Some?)
    ensures r.Ok? && r.value.section.Some? ==> r.value.section.value > 0 && ParseInt(m.section.value) == r.value.section
    ensures r.Err? ==> SectionError(r.error)
  {
    if rule == WithSection && m.section.None? then Err(SectionMissing)
    else if rule == WithoutSection && m.section.Some? then Err(SectionUnexpected)
    else match m.section
      case None => Ok(CourseInfo(m.department, n, m.suffix, m.school, None))
      case Some(t) =>
        match ParseInt(t)
        case None => Err(MalformedSection)
        case Some(k) =>
          if k <= 0 then Err(NonPositiveSection)
          else Ok(CourseInfo(m.department, n, m.suffix, m.school, Some(k)))
  }

  /** The match, then the guard checks: a result is either a valid code or the first failed check. */
  function ParseMatched(code: string, sectionRequired: bool, rule: SectionRule): (r: Result<CourseInfo, CodeError>)
    ensures r.Ok? ==> ValidInfo(r.value)
    ensures r.Ok? && sectionRequired ==> r.value.section.Some?
    ensures r == Err(MalformedCode) <==> MatchCourseCode(code, sectionRequired).None?
  {
    match MatchCourseCode(code, sectionRequired)
    case None => Err(MalformedCode)
    case Some(m) =>
      GroupsValid(m, rule);
      CheckGroups(m, rule)
  }

  /** A code accepted by every parser: what the pattern and the guard checks together guarantee. */
  predicate ValidInfo(i: CourseInfo) {
    |i.department| > 0 && AllUpper(i.department) && i.number > 0 && SuffixShape(i.suffix)
    && |i.school| == 2 && AllUpper(i.school) && (i.section.Some? ==> i.section.value > 0)
  }

  /** `parse_claremont_course_code`: the section is optional and `None` when missing. */
  function ParseClaremontCourseCode(code: string): (r: Result<CourseInfo, CodeError>)
    ensures r.Ok? ==> ValidInfo(r.value)
    ensures r == Err(MalformedCode) <==> MatchCourseCode(code, false).None?
  {
    ParseMatched(code, false, AnySection)
  }

  /** `parse_course_code(code, with_section)` */
  function ParseCourseCode(code: string, withSection: bool): (r: Result<CourseInfo, CodeError>)
    ensures r.Ok? ==> ValidInfo(r.value) && (r.value.section.Some? <==> withSection)
    ensures r == Err(MalformedCode) <==> MatchCourseCode(code, false).None?
  {
    ParseMatched(code, false, RuleFor(withSection))
  }

  /**
   * The course-code checks of `process_course` in server.py and libportal.py: the
   * code is stripped, and the pattern there requires `-([0-9]+)`.
   */
  function ParsePortalCourseCode(code: string): (r: Result<CourseInfo, CodeError>)
    ensures r.Ok? ==> ValidInfo(r.value) && r.value.section.Some?
    ensures r == Err(MalformedCode) <==> MatchCourseCode(Strip(code), true).None?
  {
    ParseMatched(Strip(code), true, AnySection)
  }

  lemma GroupsValid(m: CodeMatch, rule: SectionRule)
    requires GroupShapes(m)
    ensures CheckGroups(m, rule).Ok? ==> ValidInfo(CheckGroups(m, rule).value)
  {
  }

  /** After a match only the number and section checks can fail: the other errors are unreachable. */
  lemma ReachableErrors(m: CodeMatch, rule: SectionRule)
    requires GroupShapes(m)
    ensures var r := CheckGroups(m, rule);
      r.Err? ==> (r.error.NonPositiveNumber? || r.error.SectionMissing?
                  || r.error.SectionUnexpected? || r.error.NonPositiveSection?)
  {
    MatchedNumber(m);
    if m.section.Some? {
      ParseIntOfDigits(m.section.value);
    }
  }

  /** On a match, `CheckNumber` fails only on a zero course number. */
  lemma MatchedNumber(m: CodeMatch)
    requires GroupShapes(m)
    ensures var n := DigitsValue(m.number) as int;
      CheckNumber(m) == if n <= 0 then Err(NonPositiveNumber) else Ok(n)
  {
    GuardsPass(m);
  }

  /** The checks on the department, suffix and school never fail on a match, and the number parses. */
  lemma GuardsPass(m: CodeMatch)
    requires GroupShapes(m)
    ensures m.department != [] && '/' !in m.department && '/' !in m.suffix && m.school != [] && '/' !in m.school
    ensures ParseInt(m.number) == Some(DigitsValue(m.number) as int)
  {
    ParseIntOfDigits(m.number);
    NoSlash(m.department);
    NoSlash(m.school);
    SuffixNoSlash(m.suffix);
  }

  lemma NoSlash(s: string)
    requires AllUpper(s)
    ensures '/' !in s
  {
  }

  lemma SuffixNoSlash(x: string)
    requires SuffixShape(x)
    ensures '/' !in x
  {
    if x != [] {
      NoSlash(x[..|x| - 1]);
      assert x == x[..|x| - 1] + [x[|x| - 1]];
    }
  }

  function RuleFor(withSection: bool): SectionRule {
    if withSection then WithSection else WithoutSection
  }

  /**
   * `parse_course_code` raises "section missing" or "section unexpectedly
   * present" for a matched code exactly when its number is positive and the
   * presence of its section differs from `withSection`.
   */
  lemma SectionPresenceErrors(m: CodeMatch, withSection: bool)
    requires GroupShapes(m)
    ensures var r := CheckGroups(m, RuleFor(withSection));
      (r == Err(SectionMissing) || r == Err(SectionUnexpected))
      <==> (DigitsValue(m.number) > 0 && m.section.Some? != withSection)
  {
    MatchedNumber(m);
  }

  // ---------------------------------------------------------------- formatting

  /** `"{} {:03d}{} {}-{:02d}"`: the number padded to three digits, the section to two. */
  function FormatCode(department: string, number: int, suffix: string, school: string, section: int): string {
    department + " " + FormatIntZeroPad(number, 3) + suffix + " " + school + "-" + FormatIntZeroPad(section, 2)
  }

  /**
   * `course_info_as_string`: `None` where the source's `assert course_info["section"]`
   * fails, that is when the section is missing or zero.
   */
  function CourseInfoAsString(i: CourseInfo): (r: Option<string>)
    ensures r.Some? <==> i.section.Some? && i.section.value != 0
    ensures r.Some? ==> StartsWith(r.value, i.department + " ")
  {
    if i.section.None? || i.section.value == 0 then None
    else
      FormatCodeStarts(i.department, i.number, i.suffix, i.school, i.section.value);
      Some(FormatCode(i.department, i.number, i.suffix, i.school, i.section.value))
  }

  lemma FormatCodeStarts(department: string, number: int, suffix: string, school: string, section: int)
    ensures StartsWith(FormatCode(department, number, suffix, school, section), department + " ")
  {
    var head := department + " ";
    var rest := FormatIntZeroPad(number, 3) + suffix + " " + school + "-" + FormatIntZeroPad(section, 2);
    assert FormatCode(department, number, suffix, school, section) == head + rest;
    assert (head + rest)[..|head|] == head;
  }

  /**
   * `course_info_as_list`: `[department, courseNumber, courseCodeSuffix, school]`,
   * with the section appended when `withSection`; `None` where the source's
   * assertion fails (a section is asked for and the code has none, or it is 0).
   */
  function CourseInfoAsList(i: CourseInfo, withSection: bool): (r: Option<seq<Value>>)
    ensures r.None? <==> withSection && (i.section.None? || i.section.value == 0)
  {
    var key := [Str(i.department), Int(i.number), Str(i.suffix), Str(i.school)];
    if !withSection then Some(key)
    else if i.section.None? || i.section.value == 0 then None
    else Some(key + [Int(i.section.value)])
  }

  /**
   * The list is a key for the code: two codes with the same list agree on all
   * four fields, and on the section too when it is included.
   */
  lemma CourseKeyInjective(a: CourseInfo, b: CourseInfo, withSection: bool)
    requires CourseInfoAsList(a, withSection).Some? && CourseInfoAsList(b, withSection).Some?
    ensures CourseInfoAsList(a, withSection) == CourseInfoAsList(b, withSection) <==>
      a.department == b.department && a.number == b.number && a.suffix == b.suffix && a.school == b.school
      && (withSection ==> a.section == b.section)
  {
    var la := CourseInfoAsList(a, withSection).value;
    var lb := CourseInfoAsList(b, withSection).value;
    if la == lb {
      assert la[0] == lb[0] && la[1] == lb[1] && la[2] == lb[2] && la[3] == lb[3];
      if withSection {
        assert la[4] == lb[4];
      }
    }
  }

  /**
   * What the docstring asks of callers holds for every parsed code: a code
   * parsed with a section can be listed with it, and any code without.
   */
  lemma ParsedListable(code: string, withSection: bool)
    requires ParseCourseCode(code, withSection).Ok?
    ensures CourseInfoAsList(ParseCourseCode(code, withSection).value, withSection).Some?
    ensures CourseInfoAsList(ParseCourseCode(code, withSection).value, false).Some?
  {
  }

  /**
   * `format_course` in hyperschedule/libcourse.py prints with the same format as
   * `course_info_as_string`: for positive fields the number field is a run of at
   * least three digits denoting the number and the section field one of at least
   * two denoting the section.
   */
  lemma FormatCodePads(department: string, number: int, suffix: string, school: string, section: int)
    requires number > 0 && section > 0
    ensures exists p, t ::
      |p| >= 3 && AllDigits(p) && DigitsValue(p) == number && |t| >= 2 && AllDigits(t) && DigitsValue(t) == section
      && FormatCode(department, number, suffix, school, section) == department + " " + p + suffix + " " + school + "-" + t
  {
    PaddedDigits(number, 3);
    PaddedDigits(section, 2);
    var p := FormatIntZeroPad(number, 3);
    var t := FormatIntZeroPad(section, 2);
    assert FormatCode(department, number, suffix, school, section) == department + " " + p + suffix + " " + school + "-" + t;
  }

  /** A positive number zero-padded is a run of digits denoting it, at least `width` long. */
  lemma PaddedDigits(v: int, width: int)
    requires v > 0
    ensures var t := FormatIntZeroPad(v, width);
      |t| > 0 && |t| >= width && AllDigits(t) && DigitsValue(t) == v
  {
    var u := NatToString(v);
    var t := FormatIntZeroPad(v, width);
    if |u| < width {
      assert t == Zeros(width - |u|) + u;
      DigitsValueZeros(width - |u|, u);
    } else {
      assert t == u;
    }
  }

  /** The codes `course_info_as_string` prints and `parse_course_code` reads back. */
  predicate Printable(i: CourseInfo) {
    ValidInfo(i) && i.section.Some? && (i.suffix == [] || IsUpper(i.suffix[0]))
  }

  // ---------------------------------------------------------------- reading a printed code back

  /** Where the pieces of a printed code sit in `s`. */
  predicate Laid(s: string, d: string, n: string, x: string, sc: string, t: string, rest: string) {
    var a := |d|; var e := a + 1 + |n|; var f := e + |x|;
    |sc| == 2 && |s| == f + 4 + |t| + |rest|
    && s[..a] == d && s[a] == ' ' && s[a + 1..e] == n && s[e..f] == x && s[f] == ' '
    && s[f + 1..f + 3] == sc && s[f + 3] == '-' && s[f + 4..f + 4 + |t|] == t && s[f + 4 + |t|..] == rest
  }

  lemma LaidOut(d: string, n: string, x: string, sc: string, t: string, rest: string)
    requires |sc| == 2
    ensures Laid(d + " " + n + x + " " + sc + "-" + t + rest, d, n, x, sc, t, rest)
  {
    var s := d + " " + n + x + " " + sc + "-" + t + rest;
    assert s == d + (" " + (n + (x + (" " + (sc + ("-" + (t + rest)))))));
  }

  lemma SpanOver(s: string, i: nat, w: string, c: CharClass)
    requires i + |w| <= |s| && s[i..i + |w|] == w
    requires forall k :: 0 <= k < |w| ==> InClass(c, w[k])
    requires i + |w| == |s| || !InClass(c, s[i + |w|])
    ensures Span(s, i, c) == |w|
  {
    forall j | i <= j < i + |w| ensures InClass(c, s[j]) {
      assert s[j] == w[j - i];
    }
    SpanIs(s, i, c, |w|);
  }

  lemma LaidHead(s: string, d: string, n: string, x: string, sc: string, t: string, rest: string)
    requires Laid(s, d, n, x, sc, t, rest)
    requires |d| > 0 && AllUpper(d) && |n| > 0 && AllDigits(n) && (x == [] || IsUpper(x[0])) && AllUpper(sc)
    ensures var a := |d|; var e := a + 1 + |n|;
      HeadOf(s) == Some(Head(a, a + 1, e, if x == [] then e + 1 else e))
  {
    var a := |d|; var e := a + 1 + |n|; var f := e + |x|;
    assert s[a + 1] == n[0];
    DepartmentSpans(s, d);
    var g := if x == [] then 1 else 0;
    assert e + g < |s| && (x == [] ==> s[e] == ' ') by {
      if x == [] {
        assert f == e;
      }
    }
    assert !InClass(Blank, s[e + g]) && !InClass(Digit, s[e]) by {
      if x == [] {
        assert f == e && s[f + 1] == sc[0];
      } else {
        assert s[e] == x[0];
      }
    }
    NumberSpans(s, a + 1, n, g);
  }

  lemma DepartmentSpans(s: string, d: string)
    requires 0 < |d| && |d| + 1 < |s| && s[..|d|] == d && AllUpper(d) && s[|d|] == ' ' && IsDigit(s[|d| + 1])
    ensures Span(s, 0, Letter) == |d| && Span(s, |d|, Blank) == 1
  {
    assert s[0..|d|] == d;
    SpanOver(s, 0, d, Letter);
    SpanOver(s, |d|, " ", Blank);
  }

  lemma NumberSpans(s: string, b: nat, n: string, g: nat)
    requires b + |n| + g < |s| && s[b..b + |n|] == n && AllDigits(n) && !IsDigit(s[b + |n|])
    requires g <= 1 && (g == 1 ==> s[b + |n|] == ' ') && s[b + |n| + g] != ' '
    ensures Span(s, b, Digit) == |n| && Span(s, b + |n|, Blank) == g
  {
    SpanOver(s, b, n, Digit);
    SpanOver(s, b + |n|, Blanks(g), Blank);
  }

  lemma LaidSection(s: string, d: string, n: string, x: string, sc: string, t: string, rest: string)
    requires Laid(s, d, n, x, sc, t, rest)
    requires |t| > 0 && AllDigits(t) && (rest == [] || !IsDigit(rest[0]))
    ensures SectionAt(s, |d| + 1 + |n| + |x| + 3) == Some(t)
  {
    var i := |d| + 1 + |n| + |x| + 4;
    assert i + |t| == |s| || s[i + |t|] == rest[0];
    SpanOver(s, i, t, Digit);
  }

  /** A suffix starting with a letter: the suffix takes its whole letter run. */
  lemma WholeAt(s: string, q: nat, x: string)
    requires q + |x| + 3 <= |s| && s[q..q + |x|] == x
    requires x != [] && SuffixShape(x)
    requires s[q + |x|] == ' ' && IsUpper(s[q + |x| + 1]) && IsUpper(s[q + |x| + 2])
    ensures var f := q + |x|; WholeRun(s, q) == Some(Tail(f, f + 1, f + 3))
  {
    var f := q + |x|;
    var run := if IsDigit(x[|x| - 1]) then |x| - 1 else |x|;
    LetterRun(s, q, x, run);
    assert s[f..f + 1] == " ";
    SpanOver(s, f, " ", Blank);
  }

  lemma LetterRun(s: string, e: nat, x: string, run: nat)
    requires e + |x| < |s| && s[e..e + |x|] == x && x != [] && SuffixShape(x) && s[e + |x|] == ' '
    requires run == if IsDigit(x[|x| - 1]) then |x| - 1 else |x|
    ensures Span(s, e, Letter) == run
    ensures SuffixEnd(s, e) == e + |x|
  {
    assert s[e + run] == (if run < |x| then x[run] else ' ');
    SpanOver(s, e, x[..run], Letter);
  }

  /** An empty suffix: the whole-run reading fails at the hyphen and the school is the letter run. */
  lemma SplitAt(s: string, q: nat)
    requires q + 3 <= |s|
    requires IsUpper(s[q]) && IsUpper(s[q + 1]) && s[q + 2] == '-'
    ensures WholeRun(s, q).None?
    ensures SplitRun(s, q) == Some(Tail(q, q, q + 2))
  {
    SpanOver(s, q, s[q..q + 2], Letter);
    assert SuffixEnd(s, q) == q + 2;
    assert Span(s, q + 2, Blank) == 0;
  }

  /** The match of a printed code, followed by text that does not start with a digit. */
  lemma PrintedMatch(s: string, d: string, n: string, x: string, sc: string, t: string, rest: string)
    requires Laid(s, d, n, x, sc, t, rest)
    requires |d| > 0 && AllUpper(d) && |n| > 0 && AllDigits(n) && AllUpper(sc)
    requires SuffixShape(x) && (x == [] || IsUpper(x[0]))
    requires |t| > 0 && AllDigits(t) && (rest == [] || !IsDigit(rest[0]))
    ensures var m := MatchCourseCode(s, false);
      m.Some? && m.value.department == d && m.value.number == n && m.value.suffix == x
      && m.value.school == sc && m.value.section == Some(t)
  {
    if x == [] {
      LaidSplit(s, d, n, x, sc, t, rest);
    } else {
      LaidWhole(s, d, n, x, sc, t, rest);
    }
  }

  lemma LaidWhole(s: string, d: string, n: string, x: string, sc: string, t: string, rest: string)
    requires Laid(s, d, n, x, sc, t, rest)
    requires |d| > 0 && AllUpper(d) && |n| > 0 && AllDigits(n) && AllUpper(sc)
    requires SuffixShape(x) && x != [] && IsUpper(x[0])
    requires |t| > 0 && AllDigits(t) && (rest == [] || !IsDigit(rest[0]))
    ensures MatchCourseCode(s, false) == Some(CodeMatch(d, n, x, sc, Some(t), 1, 0, 1))
  {
    var a := |d|; var e := a + 1 + |n|;
    LaidHead(s, d, n, x, sc, t, rest);
    LaidSection(s, d, n, x, sc, t, rest);
    LaidSchool(s, d, n, x, sc, t, rest);
    PrintedWhole(s, Head(a, a + 1, e, e), d, n, x, sc, t);
  }

  lemma LaidSchool(s: string, d: string, n: string, x: string, sc: string, t: string, rest: string)
    requires Laid(s, d, n, x, sc, t, rest) && AllUpper(sc)
    ensures var f := |d| + 1 + |n| + |x|; IsUpper(s[f + 1]) && IsUpper(s[f + 2])
  {
    var f := |d| + 1 + |n| + |x|;
    assert s[f + 1] == sc[0] && s[f + 2] == sc[1];
  }

  lemma LaidSplit(s: string, d: string, n: string, x: string, sc: string, t: string, rest: string)
    requires Laid(s, d, n, x, sc, t, rest)
    requires |d| > 0 && AllUpper(d) && |n| > 0 && AllDigits(n) && AllUpper(sc) && x == []
    requires |t| > 0 && AllDigits(t) && (rest == [] || !IsDigit(rest[0]))
    ensures MatchCourseCode(s, false) == Some(CodeMatch(d, n, x, sc, Some(t), 1, 1, 0))
  {
    var a := |d|; var e := a + 1 + |n|;
    LaidHead(s, d, n, x, sc, t, rest);
    LaidSection(s, d, n, x, sc, t, rest);
    assert s[e + 1] == sc[0] && s[e + 2] == sc[1] && s[e + 3] == '-';
    PrintedSplit(s, Head(a, a + 1, e, e + 1), d, n, sc, t);
  }

  lemma PrintedWhole(s: string, h: Head, d: string, n: string, x: string, sc: string, t: string)
    requires HeadOf(s) == Some(h) && h.a == |d| && h.b == h.a + 1 && h.q == h.e
    requires h.q + |x| + 3 <= |s| && SectionAt(s, h.q + |x| + 3) == Some(t)
    requires s[..h.a] == d && s[h.b..h.e] == n && s[h.q..h.q + |x|] == x && s[h.q + |x|] == ' '
    requires s[h.q + |x| + 1..h.q + |x| + 3] == sc && IsUpper(s[h.q + |x| + 1]) && IsUpper(s[h.q + |x| + 2])
    requires SuffixShape(x) && x != []
    ensures MatchCourseCode(s, false) == Some(CodeMatch(d, n, x, sc, Some(t), 1, 0, 1))
  {
    var f := h.q + |x|;
    CandidateIs(s, h, Tail(f, f + 1, f + 3), CodeMatch(d, n, x, sc, Some(t), 1, 0, 1));
    MatchWhole(s, h, x, CodeMatch(d, n, x, sc, Some(t), 1, 0, 1));
  }

  lemma PrintedSplit(s: string, h: Head, d: string, n: string, sc: string, t: string)
    requires HeadOf(s) == Some(h) && h.a == |d| && h.b == h.a + 1 && h.q == h.e + 1
    requires h.q + 3 <= |s| && SectionAt(s, h.q + 2) == Some(t) && s[h.q + 2] == '-'
    requires s[..h.a] == d && s[h.b..h.e] == n
    requires s[h.q..h.q + 2] == sc && IsUpper(s[h.q]) && IsUpper(s[h.q + 1])
    ensures MatchCourseCode(s, false) == Some(CodeMatch(d, n, "", sc, Some(t), 1, 1, 0))
  {
    CandidateIs(s, h, Tail(h.q, h.q, h.q + 2), CodeMatch(d, n, "", sc, Some(t), 1, 1, 0));
    MatchSplit(s, h, CodeMatch(d, n, "", sc, Some(t), 1, 1, 0));
  }

  lemma CandidateIs(s: string, h: Head, tl: Tail, m: CodeMatch)
    requires HeadOk(s, h) && h.q <= tl.p1 <= tl.p2 <= tl.end <= |s|
    requires s[..h.a] == m.department && s[h.b..h.e] == m.number && s[h.q..tl.p1] == m.suffix
    requires s[tl.p2..tl.end] == m.school && SectionAt(s, tl.end) == m.section
    requires m.gap1 == h.b - h.a && m.gap2 == h.q - h.e && m.gap3 == tl.p2 - tl.p1
    ensures Candidate(s, h, tl) == m
  {
  }

  lemma MatchWhole(s: string, h: Head, x: string, m: CodeMatch)
    requires HeadOf(s) == Some(h) && h.q + |x| + 3 <= |s| && s[h.q..h.q + |x|] == x
    requires x != [] && SuffixShape(x)
    requires s[h.q + |x|] == ' ' && IsUpper(s[h.q + |x| + 1]) && IsUpper(s[h.q + |x| + 2])
    requires var f := h.q + |x|; Candidate(s, h, Tail(f, f + 1, f + 3)) == m
    ensures MatchCourseCode(s, false) == Some(m)
  {
    WholeAt(s, h.q, x);
  }

  lemma MatchSplit(s: string, h: Head, m: CodeMatch)
    requires HeadOf(s) == Some(h) && h.q + 3 <= |s|
    requires IsUpper(s[h.q]) && IsUpper(s[h.q + 1]) && s[h.q + 2] == '-'
    requires Candidate(s, h, Tail(h.q, h.q, h.q + 2)) == m
    ensures MatchCourseCode(s, false) == Some(m)
  {
    SplitAt(s, h.q);
  }

  /** The checks accept the groups of a printed code and give back the code's fields. */
  lemma PrintedChecks(m: CodeMatch, i: CourseInfo)
    requires Printable(i) && GroupShapes(m)
    requires m.department == i.department && m.suffix == i.suffix && m.school == i.school
    requires DigitsValue(m.number) == i.number
    requires m.section.Some? && DigitsValue(m.section.value) == i.section.value
    ensures CheckGroups(m, WithSection) == Ok(i)
  {
    GuardsPass(m);
    ParseIntOfDigits(m.section.value);
    assert CheckNumber(m) == Ok(i.number);
    assert CheckSection(m, i.number, WithSection) == Ok(i);
  }

  /** Reading back text laid out as `course_info_as_string` lays it out, with any digit runs as number and section. */
  lemma ReadBack(s: string, d: string, n: string, x: string, sc: string, t: string, rest: string)
    requires s == d + " " + n + x + " " + sc + "-" + t + rest
    requires |d| > 0 && AllUpper(d) && |n| > 0 && AllDigits(n) && DigitsValue(n) > 0
    requires SuffixShape(x) && (x == [] || IsUpper(x[0])) && |sc| == 2 && AllUpper(sc)
    requires |t| > 0 && AllDigits(t) && DigitsValue(t) > 0 && (rest == [] || !IsDigit(rest[0]))
    ensures ParseCourseCode(s, true) == Ok(CourseInfo(d, DigitsValue(n), x, sc, Some(DigitsValue(t) as int)))
  {
    LaidOut(d, n, x, sc, t, rest);
    PrintedMatch(s, d, n, x, sc, t, rest);
    PrintedChecks(MatchCourseCode(s, false).value, CourseInfo(d, DigitsValue(n), x, sc, Some(DigitsValue(t) as int)));
  }

  /**
   * `parse_course_code(course_info_as_string(i) + rest, True) == i` for every
   * printable code and any trailing text that does not start with a digit (the
   * match is anchored only at the start).
   */
  lemma PrintThenParse(i: CourseInfo, rest: string)
    requires Printable(i) && (rest == [] || !IsDigit(rest[0]))
    ensures CourseInfoAsString(i).Some?
    ensures ParseCourseCode(CourseInfoAsString(i).value + rest, true) == Ok(i)
  {
    var n := FormatIntZeroPad(i.number, 3);
    var t := FormatIntZeroPad(i.section.value, 2);
    PaddedDigits(i.number, 3);
    PaddedDigits(i.section.value, 2);
    ReadBack(CourseInfoAsString(i).value + rest, i.department, n, i.suffix, i.school, t, rest);
  }

  /** The smallest instance: "MATH 005" with suffix "1" prints as "MATH 0051 HM-01" and reads back as MATH 051. */
  lemma DigitSuffixExample()
    ensures CourseInfoAsString(CourseInfo("MATH", 5, "1", "HM", Some(1))) == Some("MATH 0051 HM-01")
    ensures ParseCourseCode("MATH 0051 HM-01", true) == Ok(CourseInfo("MATH", 51, "", "HM", Some(1)))
  {
    ExamplePads();
    ExampleText();
    ExampleValues();
    ReadBack("MATH 0051 HM-01", "MATH", "0051", "", "HM", "01", "");
  }

  lemma ExamplePads()
    ensures FormatIntZeroPad(5, 3) == "005" && FormatIntZeroPad(1, 2) == "01"
  {
    assert FormatIntZeroPad(5, 3) == "005" by {
      assert NatToString(5) == "5";
      assert Zeros(2) == "00";
    }
    assert FormatIntZeroPad(1, 2) == "01" by {
      assert NatToString(1) == "1";
      assert Zeros(1) == "0";
    }
  }

  lemma ExampleValues()
    ensures AllDigits("0051") && DigitsValue("0051") == 51 && AllDigits("01") && DigitsValue("01") == 1
  {
    assert "0051"[..3] == "005" && "005"[..2] == "00" && "00"[..1] == "0" && "0"[..0] == "";
    assert "01"[..1] == "0";
  }

  lemma ExampleText()
    ensures "MATH" + " " + "0051" + "" + " " + "HM" + "-" + "01" + "" == "MATH 0051 HM-01"
    ensures "MATH" + " " + "005" + "1" + " " + "HM" + "-" + "01" == "MATH 0051 HM-01"
  {
  }
}
