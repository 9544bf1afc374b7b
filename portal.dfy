/**
 * The Portal scraper's checks and bookkeeping, in hyperschedule/scraper/portal.py
 * and its older copy libportal.py: weekday normalisation, the half-semester
 * date windows, the seat-count and status checks, the lettering of courses
 * that share a code, the failure thresholds of `get_courses`, and the split
 * of raw courses into parsed and malformed ones. The browser, the HTML, the
 * credit arithmetic and date parsing stay outside: dates arrive as
 * `(year, month, day)` triples.
 */
module Portal {

  import opened Wrappers
  import opened Json
  import opened Text
  import opened Lists
  import opened CourseCode

  /** A raw course as the HTML scraper produces it: a dict of fields. */
  type Raw = map<string, Value>

  // ---------------------------------------------------------------- weekdays

  const DAYS_OF_WEEK: string := "MTWRFSU"

  /** The letters of `week` that occur in `days`, in the order of `week`. */
  function InWeekOrder(week: string, days: string): (r: string)
    ensures forall c :: c in r <==> c in week && c in days
  {
    if week == [] then [] else (if week[0] in days then [week[0]] else []) + InWeekOrder(week[1..], days)
  }

  /** Taken from a week without repeats, the letters come out once each and in week order. */
  lemma {:induction false} InWeekOrderSorted(week: string, days: string)
    requires NoDuplicates(week)
    ensures var r := InWeekOrder(week, days);
      NoDuplicates(r) && forall i, j :: 0 <= i < j < |r| ==> FirstIndex(week, r[i]) < FirstIndex(week, r[j])
  {
    if week != [] {
      var tail := week[1..];
      assert NoDuplicates(tail) by {
        forall i, j | 0 <= i < j < |tail| ensures tail[i] != tail[j] {
          assert tail[i] == week[i + 1] && tail[j] == week[j + 1];
        }
      }
      InWeekOrderSorted(tail, days);
      var rest := InWeekOrder(tail, days);
      forall x | x in rest ensures x != week[0] && FirstIndex(week, x) == 1 + FirstIndex(tail, x) {
        var k :| 0 <= k < |tail| && tail[k] == x;
        assert week[k + 1] == x;
      }
    }
  }

  /** The letters of `week` that occur in `days` decide the result: nothing else about `days` matters. */
  lemma {:induction false} InWeekOrderLetters(week: string, a: string, b: string)
    requires forall c :: c in week ==> (c in a <==> c in b)
    ensures InWeekOrder(week, a) == InWeekOrder(week, b)
  {
    if week != [] {
      InWeekOrderLetters(week[1..], a, b);
    }
  }

  /** The first letter of `days` that is not a weekday, if any. */
  function FirstUnknownDay(days: string): (r: Option<char>)
    ensures r.None? <==> forall i :: 0 <= i < |days| ==> days[i] in DAYS_OF_WEEK
    ensures r.Some? ==> r.value in days && r.value !in DAYS_OF_WEEK
  {
    if days == [] then None
    else if days[0] !in DAYS_OF_WEEK then Some(days[0])
    else
      var r := FirstUnknownDay(days[1..]);
      assert forall i :: 1 <= i < |days| ==> days[i] == days[1..][i - 1];
      r
  }

  datatype DayError = UnknownDay(day: char) | NoDays

  /**
   * The days of a schedule slot: every letter must be a weekday, then
   * `"".join(sorted(set(days), key=DAYS_OF_WEEK.index))`, which must not be
   * empty.
   */
  function NormalizeDays(days: string): (r: Result<string, DayError>)
    ensures r.Ok? <==> days != [] && forall i :: 0 <= i < |days| ==> days[i] in DAYS_OF_WEEK
    ensures r == Err(NoDays) <==> days == []
    ensures r.Ok? ==> forall c :: c in r.value <==> c in days
    ensures r.Ok? ==> NoDuplicates(r.value)
    ensures r.Ok? ==> forall i :: 0 <= i < |r.value| ==> r.value[i] in DAYS_OF_WEEK
    ensures r.Ok? ==> forall i, j :: 0 <= i < j < |r.value| ==>
      FirstIndex(DAYS_OF_WEEK, r.value[i]) < FirstIndex(DAYS_OF_WEEK, r.value[j])
  {
    match FirstUnknownDay(days)
    case Some(c) => Err(UnknownDay(c))
    case None =>
      // the joined string is empty exactly when `days` is
      if days == [] then Err(NoDays)
      else
        InWeekOrderSorted(DAYS_OF_WEEK, days);
        KnownDaysKept(days);
        Ok(InWeekOrder(DAYS_OF_WEEK, days))
  }

  lemma KnownDaysKept(days: string)
    requires days != [] && forall i :: 0 <= i < |days| ==> days[i] in DAYS_OF_WEEK
    ensures var r := InWeekOrder(DAYS_OF_WEEK, days);
      r != [] && (forall c :: c in r <==> c in days) && forall i :: 0 <= i < |r| ==> r[i] in DAYS_OF_WEEK
  {
    var r := InWeekOrder(DAYS_OF_WEEK, days);
    forall c | c in days ensures c in r {
      var i :| 0 <= i < |days| && days[i] == c;
    }
    assert days[0] in r;
  }

  /** Two slots naming the same weekdays, in any order and with any repeats, normalise alike. */
  lemma SameDaysSameResult(a: string, b: string)
    requires NormalizeDays(a).Ok? && NormalizeDays(b).Ok?
    requires forall c :: c in a <==> c in b
    ensures NormalizeDays(a) == NormalizeDays(b)
  {
    InWeekOrderLetters(DAYS_OF_WEEK, a, b);
  }

  /** Normalising is idempotent. */
  lemma NormalizeDaysIdempotent(days: string)
    requires NormalizeDays(days).Ok?
    ensures NormalizeDays(NormalizeDays(days).value) == NormalizeDays(days)
  {
    var r := NormalizeDays(days).value;
    assert r[0] in days;
    SameDaysSameResult(r, days);
  }

  // ---------------------------------------------------------------- half semesters

  /** A calendar date, as `datetime.date` compares it. */
  datatype Date = Date(year: int, month: int, day: int)

  predicate Before(a: Date, b: Date) {
    a.year < b.year || (a.year == b.year && (a.month < b.month || (a.month == b.month && a.day < b.day)))
  }

  /** `lo < d < hi`, both strict. */
  predicate Between(lo: Date, d: Date, hi: Date) {
    Before(lo, d) && Before(d, hi)
  }

  /** Starts strictly between Jan 1 and Jan 31, or strictly between Jul 15 and Sep 15, of its year. */
  predicate FirstHalf(begin: Date) {
    Between(Date(begin.year, 1, 1), begin, Date(begin.year, 1, 31))
    || Between(Date(begin.year, 7, 15), begin, Date(begin.year, 9, 15))
  }

  /** Ends strictly between Apr 1 and May 31, or strictly between Dec 1 and Dec 31, of its year. */
  predicate SecondHalf(end: Date) {
    Between(Date(end.year, 4, 1), end, Date(end.year, 5, 31))
    || Between(Date(end.year, 12, 1), end, Date(end.year, 12, 31))
  }

  predicate ValidDate(d: Date) {
    1 <= d.month <= 12 && 1 <= d.day <= 31
  }

  /** The windows by month and day: the end points themselves are outside (Jan 31, May 31, Dec 31 included). */
  lemma HalfWindows(d: Date)
    requires ValidDate(d)
    ensures FirstHalf(d) <==>
      (d.month == 1 && 2 <= d.day <= 30) || (d.month == 7 && d.day >= 16) || d.month == 8 || (d.month == 9 && d.day <= 14)
    ensures SecondHalf(d) <==>
      (d.month == 4 && d.day >= 2) || (d.month == 5 && d.day <= 30) || (d.month == 12 && 2 <= d.day <= 30)
  {
  }

  /** How many parts the semester splits into for this course, and which it meets in. */
  datatype TermSlots = TermSlots(count: nat, terms: seq<nat>)

  datatype DateError = WeirdDateRange(begin: Date, end: Date)

  /**
   * The classification of hyperschedule/scraper/portal.py: a full-semester
   * course when both windows hold, the first or second half when only one
   * does, and an error when neither does.
   */
  function ClassifyHalves(begin: Date, end: Date): (r: Result<TermSlots, DateError>)
    ensures r.Err? <==> !FirstHalf(begin) && !SecondHalf(end)
    ensures r.Ok? ==> (r.value.count == 1 <==> FirstHalf(begin) && SecondHalf(end)) && 1 <= r.value.count <= 2
    ensures r.Ok? ==> r.value.terms == [if FirstHalf(begin) then 0 else 1]
    ensures r.Ok? ==> forall k :: 0 <= k < |r.value.terms| ==> r.value.terms[k] < r.value.count
  {
    var first, second := FirstHalf(begin), SecondHalf(end);
    if first && second then Ok(TermSlots(1, [0]))
    else if first && !second then Ok(TermSlots(2, [0]))
    else if second && !first then Ok(TermSlots(2, [1]))
    else Err(WeirdDateRange(begin, end))
  }

  /** libportal.py keeps the two flags and rejects the same courses as the newer copy. */
  function HalfFlags(begin: Date, end: Date): (r: Result<(bool, bool), DateError>)
    ensures r.Err? <==> ClassifyHalves(begin, end).Err?
    ensures r.Ok? ==> r.value == (FirstHalf(begin), SecondHalf(end))
  {
    if !(FirstHalf(begin) || SecondHalf(end)) then Err(WeirdDateRange(begin, end))
    else Ok((FirstHalf(begin), SecondHalf(end)))
  }

  // ---------------------------------------------------------------- seats and status

  /**
   * `re.match(r"([0-9]+)/([0-9]+)", seats)`: a run of digits, a slash, a run
   * of digits, at the start; anything may follow.
   */
  function ParseSeatCount(seats: string): (r: Option<(nat, nat)>)
    ensures seats == [] || !IsDigit(seats[0]) ==> r.None?
    ensures r.Some? ==> '/' in seats
  {
    var a := DigitRunLength(seats);
    if a == 0 || a == |seats| || seats[a] != '/' then None
    else
      var rest := seats[a + 1..];
      var b := DigitRunLength(rest);
      if b == 0 then None
      else
        assert AllDigits(seats[..a]) && AllDigits(rest[..b]);
        Some((DigitsValue(seats[..a]), DigitsValue(rest[..b])))
  }

  /** Printed counts are read back, whatever non-digit text follows. */
  lemma SeatCountRoundTrip(open: nat, total: nat, rest: string)
    requires rest == [] || !IsDigit(rest[0])
    ensures ParseSeatCount(NatToString(open) + "/" + NatToString(total) + rest) == Some((open, total))
  {
    var a, b := NatToString(open), NatToString(total);
    var tail := b + rest;
    SlashJoin(a, b, rest);
    RunStops(a, "/" + tail);
    RunStops(b, rest);
    SeatCountAt(a + "/" + b + rest, a, tail, b);
  }

  lemma SlashJoin(a: string, b: string, rest: string)
    ensures a + "/" + b + rest == a + ("/" + (b + rest)) && (b + rest)[..|b|] == b
  {
  }

  lemma SeatCountAt(s: string, a: string, tail: string, b: string)
    requires s == a + ("/" + tail) && a != [] && AllDigits(a) && b != [] && AllDigits(b)
    requires DigitRunLength(s) == |a| && DigitRunLength(tail) == |b| && tail[..|b|] == b
    ensures ParseSeatCount(s) == Some((DigitsValue(a), DigitsValue(b)))
  {
    SlashSplit(s, a, tail);
    assert ParseSeatCount(s) == Some((DigitsValue(s[..|a|]), DigitsValue(tail[..|b|])));
  }

  lemma SlashSplit(s: string, a: string, tail: string)
    requires s == a + ("/" + tail)
    ensures |s| > |a| && s[..|a|] == a && s[|a|] == '/' && s[|a| + 1..] == tail
  {
  }

  /** A run of digits followed by a non-digit (or nothing) is read whole. */
  lemma {:induction false} RunStops(digits: string, rest: string)
    requires AllDigits(digits) && (rest == [] || !IsDigit(rest[0]))
    ensures DigitRunLength(digits + rest) == |digits|
  {
    if digits != [] {
      assert (digits + rest)[1..] == digits[1..] + rest;
      RunStops(digits[1..], rest);
    } else {
      assert digits + rest == rest;
    }
  }

  const STATUSES: seq<string> := ["open", "closed", "reopened"]

  /** The status, lower-cased, must be one of open, closed, reopened; the error carries the lower-cased text. */
  function CheckStatus(status: string): (r: Result<string, string>)
    ensures r.Ok? <==> Lower(status) in STATUSES
    ensures r.Ok? ==> r.value == Lower(status) && r.value in STATUSES
    ensures r.Err? ==> r.error == Lower(status)
  {
    var s := Lower(status);
    if s in STATUSES then Ok(s) else Err(s)
  }

  lemma LowerIdempotent(s: string)
    ensures Lower(Lower(s)) == Lower(s)
  {
    var l := Lower(s);
    forall i | 0 <= i < |l| ensures !IsUpper(l[i]) {
    }
  }

  /** The check ignores case, and an accepted status passes again unchanged. */
  lemma StatusCaseInsensitive(a: string, b: string)
    requires Lower(a) == Lower(b)
    ensures CheckStatus(a) == CheckStatus(b)
    ensures CheckStatus(a).Ok? ==> CheckStatus(CheckStatus(a).value) == CheckStatus(a)
  {
    LowerIdempotent(a);
  }

  // ---------------------------------------------------------------- libportal process_course

  datatype PortalError =
    | BadCode(code: CodeError) | EmptyName | MalformedSeats | UnknownStatus(status: string)
    | BadDays(days: DayError) | WeirdDates(range: DateError)

  /** The fields the modelled checks of `process_course` produce. */
  datatype Checked = Checked(
    info: CourseInfo, name: string, seats: (nat, nat), status: string, days: seq<string>, halves: (bool, bool))

  /** The days of every schedule slot, stopping at the first slot that fails. */
  function NormalizeSlots(slots: seq<string>): (r: Result<seq<string>, DayError>)
    ensures r.Ok? ==> |r.value| == |slots|
  {
    if slots == [] then Ok([])
    else match NormalizeDays(slots[0])
      case Err(e) => Err(e)
      case Ok(d) =>
        match NormalizeSlots(slots[1..])
        case Err(e) => Err(e)
        case Ok(ds) => Ok([d] + ds)
  }

  /** The slots normalise iff each slot's days do, and then each slot gets its own normalised days. */
  lemma {:induction false} NormalizeSlotsEach(slots: seq<string>)
    ensures NormalizeSlots(slots).Ok? <==> forall i :: 0 <= i < |slots| ==> NormalizeDays(slots[i]).Ok?
    ensures NormalizeSlots(slots).Ok? ==>
      forall i :: 0 <= i < |slots| ==> NormalizeSlots(slots).value[i] == NormalizeDays(slots[i]).value
  {
    if slots != [] {
      NormalizeSlotsEach(slots[1..]);
      assert forall i :: 1 <= i < |slots| ==> slots[i] == slots[1..][i - 1];
      if NormalizeDays(slots[0]).Ok? && NormalizeSlots(slots[1..]).Err? {
        var j :| 0 <= j < |slots[1..]| && NormalizeDays(slots[1..][j]).Err?;
        assert NormalizeDays(slots[j + 1]).Err?;
      }
    }
  }

  /** The checks of libportal.py's `process_course` that are modelled, in its order, with the date check last. */
  predicate ChecksBeforeDates(code: string, name: string, seats: string, status: string, slots: seq<string>) {
    ParsePortalCourseCode(code).Ok? && Strip(name) != [] && ParseSeatCount(seats).Some?
    && CheckStatus(status).Ok? && NormalizeSlots(slots).Ok?
  }

  function ProcessChecks(code: string, name: string, seats: string, status: string, slots: seq<string>, begin: Date, end: Date)
    : (r: Result<Checked, PortalError>)
    ensures r.Ok? <==> ChecksBeforeDates(code, name, seats, status, slots) && (FirstHalf(begin) || SecondHalf(end))
    ensures r.Err? && r.error.WeirdDates? <==>
      ChecksBeforeDates(code, name, seats, status, slots) && !FirstHalf(begin) && !SecondHalf(end)
    ensures r.Ok? ==> ValidInfo(r.value.info) && r.value.info.section.Some? && r.value.status in STATUSES
  {
    match ParsePortalCourseCode(code)
    case Err(e) => Err(BadCode(e))
    case Ok(info) =>
      if Strip(name) == [] then Err(EmptyName)
      else match ParseSeatCount(seats)
        case None => Err(MalformedSeats)
        case Some(counts) =>
          match CheckStatus(status)
          case Err(s) => Err(UnknownStatus(s))
          case Ok(st) =>
            match NormalizeSlots(slots)
            case Err(e) => Err(BadDays(e))
            case Ok(days) =>
              match HalfFlags(begin, end)
              case Err(e) => Err(WeirdDates(e))
              case Ok(halves) => Ok(Checked(info, Strip(name), counts, st, days, halves))
  }

  // ---------------------------------------------------------------- get_latest_course_list

  /** The results of the raw courses that parse, in input order. */
  function Processed<C>(raws: seq<Raw>, process: Raw -> Option<C>): seq<C> {
    if raws == [] then []
    else
      var n := |raws| - 1;
      Processed(raws[..n], process) + (match process(raws[n]) case Some(c) => [c] case None => [])
  }

  /** The raw courses that do not parse, in input order. */
  function Rejected<C>(raws: seq<Raw>, process: Raw -> Option<C>): seq<Raw> {
    if raws == [] then []
    else
      var n := |raws| - 1;
      Rejected(raws[..n], process) + (if process(raws[n]).None? then [raws[n]] else [])
  }

  /** Every raw course lands in exactly one of the two lists. */
  lemma {:induction false} PartitionComplete<C>(raws: seq<Raw>, process: Raw -> Option<C>)
    ensures |Processed(raws, process)| + |Rejected(raws, process)| == |raws|
    ensures forall i :: 0 <= i < |raws| && process(raws[i]).None? ==> raws[i] in Rejected(raws, process)
    ensures forall i :: 0 <= i < |raws| && process(raws[i]).Some? ==> process(raws[i]).value in Processed(raws, process)
  {
    PartitionCount(raws, process);
    forall i | 0 <= i < |raws| && process(raws[i]).None? ensures raws[i] in Rejected(raws, process) {
      RejectedHas(raws, process, i);
    }
    forall i | 0 <= i < |raws| && process(raws[i]).Some? ensures process(raws[i]).value in Processed(raws, process) {
      ProcessedHas(raws, process, i);
    }
  }

  lemma {:induction false} PartitionCount<C>(raws: seq<Raw>, process: Raw -> Option<C>)
    ensures |Processed(raws, process)| + |Rejected(raws, process)| == |raws|
  {
    if raws != [] {
      PartitionCount(raws[..|raws| - 1], process);
    }
  }

  lemma {:induction false} RejectedHas<C>(raws: seq<Raw>, process: Raw -> Option<C>, i: nat)
    requires i < |raws| && process(raws[i]).None?
    ensures raws[i] in Rejected(raws, process)
  {
    var n := |raws| - 1;
    if i < n {
      RejectedHas(raws[..n], process, i);
    }
  }

  lemma {:induction false} ProcessedHas<C>(raws: seq<Raw>, process: Raw -> Option<C>, i: nat)
    requires i < |raws| && process(raws[i]).Some?
    ensures process(raws[i]).value in Processed(raws, process)
  {
    var n := |raws| - 1;
    if i < n {
      ProcessedHas(raws[..n], process, i);
    }
  }

  /**
   * The loop of `get_latest_course_list`: a course that `process_course`
   * accepts is appended to `courses`, any other to `malformed`. The parser is
   * a parameter, the malformed courses are kept whole rather than formatted,
   * and the final sort is not modelled.
   */
  method LatestCourseList<C>(raws: seq<Raw>, process: Raw -> Option<C>) returns (courses: seq<C>, malformed: seq<Raw>)
    ensures courses == Processed(raws, process) && malformed == Rejected(raws, process)
  {
    courses, malformed := [], [];
    var i := 0;
    while i < |raws|
      invariant i <= |raws|
      invariant courses == Processed(raws[..i], process) && malformed == Rejected(raws[..i], process)
    {
      assert raws[..i + 1][..i] == raws[..i];
      match process(raws[i]) {
        case Some(c) => courses := courses + [c];
        case None => malformed := malformed + [raws[i]];
      }
      i := i + 1;
    }
    assert raws[..i] == raws;
  }

  // ---------------------------------------------------------------- duplicate codes

  /** A raw course with the code it parsed to (the key of `course_info_map`). */
  datatype Parsed = Parsed(info: CourseInfo, course: Raw)

  /** The courses that share one code, in the order they were scraped. */
  datatype Group = Group(info: CourseInfo, courses: seq<Raw>)

  /** The distinct codes, in order of first occurrence, as the dict's keys iterate. */
  function KeysInOrder(parsed: seq<Parsed>): (ks: seq<CourseInfo>)
    ensures NoDuplicates(ks)
    ensures forall k :: k in ks <==> exists i :: 0 <= i < |parsed| && parsed[i].info == k
  {
    if parsed == [] then []
    else
      var n := |parsed| - 1;
      var ks := KeysInOrder(parsed[..n]);
      assert forall i :: 0 <= i < n ==> parsed[..n][i] == parsed[i];
      if parsed[n].info in ks then ks else ks + [parsed[n].info]
  }

  /** The courses filed under `k`, in order. */
  function Members(parsed: seq<Parsed>, k: CourseInfo): seq<Raw> {
    if parsed == [] then []
    else
      var n := |parsed| - 1;
      Members(parsed[..n], k) + (if parsed[n].info == k then [parsed[n].course] else [])
  }

  /** `course_info_map` as a list of groups, one per distinct code. */
  function GroupsOf(parsed: seq<Parsed>, ks: seq<CourseInfo>): (gs: seq<Group>)
    ensures |gs| == |ks| && forall i :: 0 <= i < |ks| ==> gs[i] == Group(ks[i], Members(parsed, ks[i]))
  {
    if ks == [] then []
    else
      var n := |ks| - 1;
      GroupsOf(parsed, ks[..n]) + [Group(ks[n], Members(parsed, ks[n]))]
  }

  function Groups(parsed: seq<Parsed>): seq<Group> {
    GroupsOf(parsed, KeysInOrder(parsed))
  }

  function TotalSize(groups: seq<Group>): nat {
    if groups == [] then 0 else TotalSize(groups[..|groups| - 1]) + |groups[|groups| - 1].courses|
  }

  /** Grouping loses no course and invents none. */
  lemma GroupsCoverAll(parsed: seq<Parsed>)
    ensures TotalSize(Groups(parsed)) == |parsed|
  {
    var ks := KeysInOrder(parsed);
    GroupsSize(parsed, ks);
    SizeOverAll(parsed, ks);
  }

  /** The courses of `parsed` filed under the codes `ks`. */
  function SizeOver(parsed: seq<Parsed>, ks: seq<CourseInfo>): nat {
    if ks == [] then 0 else SizeOver(parsed, ks[..|ks| - 1]) + |Members(parsed, ks[|ks| - 1])|
  }

  lemma {:induction false} GroupsSize(parsed: seq<Parsed>, ks: seq<CourseInfo>)
    ensures TotalSize(GroupsOf(parsed, ks)) == SizeOver(parsed, ks)
  {
    if ks != [] {
      var n := |ks| - 1;
      GroupsSize(parsed, ks[..n]);
      var gs := GroupsOf(parsed, ks);
      assert gs[..n] == GroupsOf(parsed, ks[..n]);
    }
  }

  /** With every code listed once, each course is counted exactly once. */
  lemma {:induction false} SizeOverAll(parsed: seq<Parsed>, ks: seq<CourseInfo>)
    requires NoDuplicates(ks)
    requires forall i :: 0 <= i < |parsed| ==> parsed[i].info in ks
    ensures SizeOver(parsed, ks) == |parsed|
  {
    if parsed == [] {
      SizeOverEmpty(ks);
    } else {
      var n := |parsed| - 1;
      SizeOverAll(parsed[..n], ks);
      SizeOverSnoc(parsed[..n], parsed[n], ks);
      assert parsed[..n] + [parsed[n]] == parsed;
    }
  }

  lemma {:induction false} SizeOverEmpty(ks: seq<CourseInfo>)
    ensures SizeOver([], ks) == 0
  {
    if ks != [] {
      SizeOverEmpty(ks[..|ks| - 1]);
    }
  }

  /** One more course adds one to the count of the codes it is filed under. */
  lemma {:induction false} SizeOverSnoc(parsed: seq<Parsed>, x: Parsed, ks: seq<CourseInfo>)
    requires NoDuplicates(ks)
    ensures SizeOver(parsed + [x], ks) == SizeOver(parsed, ks) + (if x.info in ks then 1 else 0)
  {
    if ks != [] {
      var n := |ks| - 1;
      assert NoDuplicates(ks[..n]);
      SizeOverSnoc(parsed, x, ks[..n]);
      var p := parsed + [x];
      assert p[..|p| - 1] == parsed;
      assert x.info in ks <==> x.info in ks[..n] || x.info == ks[n];
    }
  }

  /** The letter `string.ascii_uppercase[j]`. */
  function Letter(j: nat): (c: char)
    requires j < 26
    ensures IsUpper(c)
  {
    ('A' as int + j) as char
  }

  const SUFFIX: string := "course_code_suffix"

  /**
   * One group of the deduplication loop: a single course is kept as is; a
   * group of several is dropped when its code has a suffix or when it has
   * more than 26 courses; otherwise its courses get the suffixes A, B, ... in
   * order. `None` is a dropped group.
   */
  function Lettered(g: Group): (r: Option<seq<Raw>>)
    ensures r.None? <==> |g.courses| > 1 && (g.info.suffix != "" || |g.courses| > 26)
    ensures r.Some? ==> |r.value| == |g.courses|
    ensures r.Some? && |g.courses| <= 1 ==> r.value == g.courses
    ensures r.Some? && |g.courses| > 1 ==> forall j :: 0 <= j < |r.value| ==>
      r.value[j].Keys == g.courses[j].Keys + {SUFFIX} && r.value[j][SUFFIX] == Str([Letter(j)])
      && forall f :: f in g.courses[j] && f != SUFFIX ==> r.value[j][f] == g.courses[j][f]
  {
    if |g.courses| <= 1 then Some(g.courses)
    else if g.info.suffix != "" || |g.courses| > 26 then None
    else Some(seq(|g.courses|, j requires 0 <= j < |g.courses| => g.courses[j][SUFFIX := Str([Letter(j)])]))
  }

  /** The lettered copies of a group carry pairwise distinct suffixes. */
  lemma LettersDistinct(g: Group)
    requires Lettered(g).Some? && |g.courses| > 1
    ensures forall i, j :: 0 <= i < j < |g.courses| ==> Lettered(g).value[i][SUFFIX] != Lettered(g).value[j][SUFFIX]
  {
    forall i, j | 0 <= i < j < |g.courses|
      ensures Lettered(g).value[i][SUFFIX] != Lettered(g).value[j][SUFFIX]
    {
      assert Letter(i) != Letter(j);
    }
  }

  /** The courses the loop keeps, group by group. */
  function KeptCourses(groups: seq<Group>): seq<Raw> {
    if groups == [] then []
    else
      var n := |groups| - 1;
      KeptCourses(groups[..n]) + (match Lettered(groups[n]) case Some(cs) => cs case None => [])
  }

  /** What the loop adds to `num_failed`: the sizes of the dropped groups. */
  function DroppedCount(groups: seq<Group>): nat {
    if groups == [] then 0
    else
      var n := |groups| - 1;
      DroppedCount(groups[..n]) + (if Lettered(groups[n]).None? then |groups[n].courses| else 0)
  }

  /** Every course is either kept or counted as failed. */
  lemma {:induction false} KeptPlusDropped(groups: seq<Group>)
    ensures |KeptCourses(groups)| + DroppedCount(groups) == TotalSize(groups)
  {
    if groups != [] {
      KeptPlusDropped(groups[..|groups| - 1]);
    }
  }

  /**
   * The deduplication loop of `get_courses`: dropped groups add their size to
   * the failure count; kept groups of several courses are lettered in place,
   * one course at a time.
   */
  method LetterDuplicates(groups: seq<Group>) returns (kept: seq<Raw>, failed: nat)
    ensures kept == KeptCourses(groups) && failed == DroppedCount(groups)
  {
    kept, failed := [], 0;
    var i := 0;
    while i < |groups|
      invariant i <= |groups|
      invariant kept == KeptCourses(groups[..i]) && failed == DroppedCount(groups[..i])
    {
      assert groups[..i + 1][..i] == groups[..i];
      var g := groups[i];
      if |g.courses| > 1 && (g.info.suffix != "" || |g.courses| > 26) {
        failed := failed + |g.courses|;
      } else {
        var courses := LetterGroup(g);
        kept := kept + courses;
      }
      i := i + 1;
    }
    assert groups[..i] == groups;
  }

  /** The lettering of one kept group, one course at a time. */
  method LetterGroup(g: Group) returns (courses: seq<Raw>)
    requires Lettered(g).Some?
    ensures Lettered(g) == Some(courses)
  {
    courses := g.courses;
    if |courses| > 1 {
      var j := 0;
      while j < |courses|
        invariant j <= |courses| == |g.courses|
        invariant forall k :: 0 <= k < j ==> courses[k] == g.courses[k][SUFFIX := Str([Letter(k)])]
        invariant forall k :: j <= k < |courses| ==> courses[k] == g.courses[k]
      {
        courses := courses[j := courses[j][SUFFIX := Str([Letter(j)])]];
        j := j + 1;
      }
      assert courses == seq(|g.courses|, k requires 0 <= k < |g.courses| => g.courses[k][SUFFIX := Str([Letter(k)])]);
    }
  }

  // ---------------------------------------------------------------- thresholds

  const MIN_DESCRIPTIONS_ADDED: nat := 100
  const MAX_FAILED: nat := 10
  const MIN_SUCCEEDED: int := 500

  datatype CoursesError = NotEnoughDescriptions(added: nat) | TooManyMalformed(failed: nat) | NotEnoughCourses(succeeded: int)

  /**
   * The checks of `get_courses`, given what the loops counted: parse failures
   * before grouping, the groups, and the number of lettered courses
   * `process_course` rejects. The description count is checked first; the
   * failure count adds all three kinds; the success count subtracts it from
   * the number of courses that reached `process_course`. The result is how
   * many course objects are returned.
   */
  function CoursesVerdict(descsAdded: nat, parseFailed: nat, groups: seq<Group>, processFailed: nat): (r: Result<nat, CoursesError>)
    requires processFailed <= |KeptCourses(groups)|
    ensures r.Ok? <==> (
      && descsAdded >= MIN_DESCRIPTIONS_ADDED
      && parseFailed + DroppedCount(groups) + processFailed < MAX_FAILED
      && |KeptCourses(groups)| - (parseFailed + DroppedCount(groups) + processFailed) >= MIN_SUCCEEDED)
    ensures r.Ok? ==> r.value == |KeptCourses(groups)| - processFailed
    ensures descsAdded < MIN_DESCRIPTIONS_ADDED ==> r == Err(NotEnoughDescriptions(descsAdded))
  {
    var numFailed := parseFailed + DroppedCount(groups) + processFailed;
    var numSucceeded := |KeptCourses(groups)| - numFailed;
    if descsAdded < MIN_DESCRIPTIONS_ADDED then Err(NotEnoughDescriptions(descsAdded))
    else if numFailed >= MAX_FAILED then Err(TooManyMalformed(numFailed))
    else if numSucceeded < MIN_SUCCEEDED then Err(NotEnoughCourses(numSucceeded))
    else Ok(|KeptCourses(groups)| - processFailed)
  }

  /**
   * The success count falls short of the courses returned by exactly the
   * failures that never reached `process_course` (parse failures and dropped
   * groups), and the returned courses plus every failure add up to all the
   * courses that were grouped, plus the parse failures.
   */
  lemma SucceededCount(descsAdded: nat, parseFailed: nat, groups: seq<Group>, processFailed: nat)
    requires processFailed <= |KeptCourses(groups)|
    requires CoursesVerdict(descsAdded, parseFailed, groups, processFailed).Ok?
    ensures var returned := CoursesVerdict(descsAdded, parseFailed, groups, processFailed).value;
      returned + parseFailed + DroppedCount(groups) + processFailed == TotalSize(groups) + parseFailed
      && |KeptCourses(groups)| - (parseFailed + DroppedCount(groups) + processFailed)
         == returned - parseFailed - DroppedCount(groups)
  {
    KeptPlusDropped(groups);
  }
}
