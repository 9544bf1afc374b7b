/**
 * The field parsers of the CU Boulder scraper
 * (hyperschedule/scrapers/cu_boulder/__init__.py): the term sort key taken
 * from a srcdb name, the meeting-time, date-range and seat-count parsers, and
 * the CRN bookkeeping that lets a run pick up where the previous one left off.
 * Every regex is a fixed pattern and is matched by hand; `\d` is ASCII here.
 */
module CuBoulder {

  import opened Wrappers
  import opened Text

  // ---------------------------------------------------------------- srcdb_info_key

  /** `(False,)` for a name that is not a season and year, `(year, semester == "Fall")` otherwise. */
  datatype SrcdbKey = Unmatched | Dated(year: nat, fall: bool)

  /** A four-digit year, leading zeros allowed, as `\d{4}` matches it. */
  predicate IsYear(y: string) {
    |y| == 4 && AllDigits(y)
  }

  /** `re.fullmatch(r"(Fall|Spring) (\d{4})", name)` */
  predicate IsSeasonName(name: string) {
    (StartsWith(name, "Fall ") && IsYear(name[5..]))
    || (StartsWith(name, "Spring ") && IsYear(name[7..]))
  }

  /** `srcdb_info_key` on the `name` of a srcdb record. */
  function SrcdbInfoKey(name: string): (k: SrcdbKey)
    ensures k.Dated? <==> IsSeasonName(name)
    ensures k.Dated? ==> (k.fall <==> StartsWith(name, "Fall "))
    ensures k.Dated? ==> k.year == DigitsValue(name[|name| - 4..]) && k.year < 10000
  {
    if StartsWith(name, "Fall ") && IsYear(name[5..]) then
      YearBound(name[5..]);
      assert name[5..] == name[|name| - 4..];
      Dated(DigitsValue(name[5..]), true)
    else if StartsWith(name, "Spring ") && IsYear(name[7..]) then
      YearBound(name[7..]);
      assert name[0] == 'S' && name[7..] == name[|name| - 4..];
      Dated(DigitsValue(name[7..]), false)
    else Unmatched
  }

  lemma {:induction false} DigitsValueBound(s: string)
    requires AllDigits(s)
    ensures DigitsValue(s) < Pow10(|s|)
  {
    if s != [] {
      DigitsValueBound(s[..|s| - 1]);
    }
  }

  function Pow10(n: nat): (p: nat)
    ensures p >= 1
  {
    if n == 0 then 1 else 10 * Pow10(n - 1)
  }

  lemma YearBound(y: string)
    requires IsYear(y)
    ensures DigitsValue(y) < 10000
  {
    DigitsValueBound(y);
  }

  /** The name a season and year print as, the year padded to four digits. */
  function SeasonName(year: nat, fall: bool): string
    requires year < 10000
  {
    (if fall then "Fall " else "Spring ") + PadZeros(NatToString(year), 4)
  }

  /** Reading the key of a printed season name gives back the season and year. */
  lemma SrcdbKeyOfSeasonName(year: nat, fall: bool)
    requires year < 10000
    ensures SrcdbInfoKey(SeasonName(year, fall)) == Dated(year, fall)
  {
    var y := PaddedYear(year);
    var name := SeasonName(year, fall);
    if fall {
      assert name == "Fall " + y;
      assert name[5..] == y;
    } else {
      assert name == "Spring " + y;
      assert name[7..] == y;
      assert name[0] == 'S';
    }
    assert name[|name| - 4..] == y;
  }

  /** The year printed on four digits is a year denoting the same number. */
  lemma PaddedYear(year: nat) returns (y: string)
    requires year < 10000
    ensures y == PadZeros(NatToString(year), 4) && IsYear(y) && DigitsValue(y) == year
  {
    var digits := NatToString(year);
    SmallNatString(year, 4);
    y := PadZeros(digits, 4);
    assert y == Zeros(4 - |digits|) + digits;
    DigitsValueZeros(4 - |digits|, digits);
  }

  /** `str(n)` of a number below `10^w` has at most `w` digits. */
  lemma {:induction false} SmallNatString(n: nat, w: nat)
    requires w >= 1 && n < Pow10(w)
    ensures |NatToString(n)| <= w
  {
    if n >= 10 {
      assert Pow10(w) == 10 * Pow10(w - 1);
      assert n / 10 < Pow10(w - 1);
      SmallNatString(n / 10, w - 1);
    }
  }

  /**
   * Python's ordering of the sort keys: `(False,)` compares below every
   * `(year, fall)` (False equals 0 and the shorter tuple is smaller); dated
   * keys compare by year, then Spring before Fall.
   */
  predicate KeyLess(a: SrcdbKey, b: SrcdbKey) {
    match (a, b)
    case (Unmatched, Unmatched) => false
    case (Unmatched, Dated(_, _)) => true
    case (Dated(_, _), Unmatched) => false
    case (Dated(y1, f1), Dated(y2, f2)) => y1 < y2 || (y1 == y2 && !f1 && f2)
  }

  /** The key order is a strict total order, so `max` over srcdb records picks a latest term. */
  lemma KeyOrderTotal(a: SrcdbKey, b: SrcdbKey, c: SrcdbKey)
    ensures !KeyLess(a, a)
    ensures KeyLess(a, b) && KeyLess(b, c) ==> KeyLess(a, c)
    ensures a == b || KeyLess(a, b) || KeyLess(b, a)
  {
  }

  /** A name that is not a season sorts below every season; Fall of a year sorts after its Spring. */
  lemma SeasonOrder(name: string, year: nat)
    requires !IsSeasonName(name) && year < 10000
    ensures KeyLess(SrcdbInfoKey(name), SrcdbInfoKey(SeasonName(year, false)))
    ensures KeyLess(SrcdbInfoKey(SeasonName(year, false)), SrcdbInfoKey(SeasonName(year, true)))
  {
    SrcdbKeyOfSeasonName(year, false);
    SrcdbKeyOfSeasonName(year, true);
  }

  // ---------------------------------------------------------------- parse_cu_time

  /** `cu_time[:-2]` */
  function HoursPart(t: string): string {
    if |t| >= 2 then t[..|t| - 2] else ""
  }

  /** `cu_time[-2:]` */
  function MinutesPart(t: string): string {
    if |t| >= 2 then t[|t| - 2..] else t
  }

  /**
   * `parse_cu_time`: the last two characters are the minutes, the rest the
   * hours, each read with `int` and printed `"{:02d}"`; `None` where `int`
   * raises.
   */
  function ParseCuTime(t: string): (r: Option<string>)
    ensures r.Some? <==> ParseInt(HoursPart(t)).Some? && ParseInt(MinutesPart(t)).Some?
    ensures r.Some? ==> |t| >= 3
  {
    ShortTimeFails(t);
    match (ParseInt(HoursPart(t)), ParseInt(MinutesPart(t)))
    case (Some(h), Some(m)) => Some(FormatIntZeroPad(h, 2) + ":" + FormatIntZeroPad(m, 2))
    case _ => None
  }

  /** With fewer than three characters the hours are empty, and `int("")` raises. */
  lemma ShortTimeFails(t: string)
    ensures |t| < 3 ==> ParseInt(HoursPart(t)).None?
  {
    if |t| < 3 {
      assert HoursPart(t) == "";
      assert Strip("") == "";
    }
  }

  /** Two digits denoting `n`, as `"{:02d}"` prints `0 <= n < 100`. */
  predicate TwoDigits(s: string, n: nat) {
    |s| == 2 && AllDigits(s) && DigitsValue(s) == n
  }

  /** "HH:MM" spelling the hours `h` and the minutes `m`. */
  predicate IsHhMm(r: string, h: nat, m: nat) {
    |r| == 5 && r[2] == ':' && TwoDigits(r[..2], h) && TwoDigits(r[3..], m)
  }

  /**
   * On "hmm" or "hhmm" digits the result is "HH:MM": two digits for the hours
   * and two for the minutes, with the values the input spelled.
   */
  lemma CuTimeShape(t: string)
    requires (|t| == 3 || |t| == 4) && AllDigits(t)
    ensures ParseCuTime(t).Some?
    ensures IsHhMm(ParseCuTime(t).value, DigitsValue(t[..|t| - 2]), DigitsValue(t[|t| - 2..]))
  {
    var hs, ms := t[..|t| - 2], t[|t| - 2..];
    assert AllDigits(hs) && AllDigits(ms);
    var hh := PartDigits(hs);
    var mm := PartDigits(ms);
    CuTimeIs(t, DigitsValue(hs), DigitsValue(ms));
    JoinHhMm(hh, mm, DigitsValue(hs), DigitsValue(ms));
  }

  lemma JoinHhMm(hh: string, mm: string, h: nat, m: nat)
    requires TwoDigits(hh, h) && TwoDigits(mm, m)
    ensures IsHhMm(hh + ":" + mm, h, m)
  {
    var r := hh + ":" + mm;
    assert r[..2] == hh && r[3..] == mm;
  }

  lemma CuTimeIs(t: string, h: int, m: int)
    requires ParseInt(HoursPart(t)) == Some(h) && ParseInt(MinutesPart(t)) == Some(m)
    ensures ParseCuTime(t) == Some(FormatIntZeroPad(h, 2) + ":" + FormatIntZeroPad(m, 2))
  {
  }

  /** One or two digits read with `int` and printed `"{:02d}"`. */
  lemma PartDigits(p: string) returns (s: string)
    requires (|p| == 1 || |p| == 2) && AllDigits(p)
    ensures ParseInt(p) == Some(DigitsValue(p) as int)
    ensures s == FormatIntZeroPad(DigitsValue(p), 2) && TwoDigits(s, DigitsValue(p))
  {
    ParseIntOfDigits(p);
    DigitsValueBound(p);
    assert Pow10(2) == 100;
    s := TwoDigitPad(DigitsValue(p));
  }

  /** `"{:02d}".format(n)` for `0 <= n < 100` is two digits denoting `n`. */
  lemma TwoDigitPad(n: nat) returns (s: string)
    requires n < 100
    ensures s == FormatIntZeroPad(n, 2) && TwoDigits(s, n)
  {
    s := FormatIntZeroPad(n, 2);
    var digits := NatToString(n);
    SmallNatString(n, 2);
    assert s == Zeros(2 - |digits|) + digits;
    DigitsValueZeros(2 - |digits|, digits);
  }

  // ---------------------------------------------------------------- parse_cu_dates

  /** `\d{4}-\d{2}-\d{2}` */
  predicate IsDate(d: string) {
    |d| == 10 && AllDigits(d[..4]) && d[4] == '-' && AllDigits(d[5..7]) && d[7] == '-' && AllDigits(d[8..])
  }

  const THROUGH: string := " through "

  /**
   * `parse_cu_dates`: the two dates of a full match of "DATE through DATE";
   * `None` where the source calls `.groups()` on a failed match.
   */
  function ParseCuDates(s: string): (r: Option<(string, string)>)
    ensures r.Some? ==> IsDate(r.value.0) && IsDate(r.value.1) && s == r.value.0 + THROUGH + r.value.1
  {
    if |s| == 29 && IsDate(s[..10]) && s[10..19] == THROUGH && IsDate(s[19..]) then
      assert s == s[..10] + THROUGH + s[19..];
      Some((s[..10], s[19..]))
    else None
  }

  /** Every pair of dates joined by " through " is read back; nothing else is accepted. */
  lemma CuDatesRoundTrip(a: string, b: string)
    requires IsDate(a) && IsDate(b)
    ensures ParseCuDates(a + THROUGH + b) == Some((a, b))
  {
    var s := a + THROUGH + b;
    assert s[..10] == a && s[10..19] == THROUGH && s[19..] == b;
  }

  /** The match is full: text after a valid range makes it fail. */
  lemma CuDatesFullMatch(s: string, extra: string)
    requires ParseCuDates(s).Some? && extra != []
    ensures ParseCuDates(s + extra).None?
  {
  }

  // ---------------------------------------------------------------- parse_cu_seats

  /** `re.findall(r"\d+", s)`: the maximal runs of digits, left to right. */
  function DigitRuns(s: string): (runs: seq<string>)
    ensures forall k :: 0 <= k < |runs| ==> runs[k] != [] && AllDigits(runs[k])
    decreases |s|
  {
    if s == [] then []
    else if !IsDigit(s[0]) then DigitRuns(s[1..])
    else
      var n := DigitRunLength(s);
      [s[..n]] + DigitRuns(s[n..])
  }

  /** A non-digit separates runs: the runs of `a + [c] + b` are those of `a`, then those of `b`. */
  lemma {:induction false} DigitRunsSplit(a: string, c: char, b: string)
    requires !IsDigit(c)
    ensures DigitRuns(a + [c] + b) == DigitRuns(a) + DigitRuns(b)
    decreases |a|
  {
    var s := a + [c] + b;
    if a == [] {
      assert s[1..] == b;
    } else if !IsDigit(a[0]) {
      assert s[1..] == a[1..] + [c] + b;
      DigitRunsSplit(a[1..], c, b);
    } else {
      var n := DigitRunLength(a);
      RunLengthExtends(a, [c] + b);
      assert s == a + ([c] + b);
      assert DigitRunLength(s) == n;
      assert s[..n] == a[..n];
      if n == |a| {
        assert s[n..] == [c] + b;
        assert a[n..] == [];
        assert ([c] + b)[1..] == b;
      } else {
        assert s[n..] == a[n..] + [c] + b;
        DigitRunsSplit(a[n..], c, b);
      }
    }
  }

  /** The digit run at the start of `a` stops where it stops in `a + rest` when `rest` starts with a non-digit. */
  lemma {:induction false} RunLengthExtends(a: string, rest: string)
    requires rest != [] && !IsDigit(rest[0])
    ensures DigitRunLength(a + rest) == DigitRunLength(a)
    decreases |a|
  {
    if a != [] && IsDigit(a[0]) {
      assert (a + rest)[1..] == a[1..] + rest;
      RunLengthExtends(a[1..], rest);
    }
  }

  /** The decimal text of a number is one run. */
  lemma NumberIsOneRun(n: nat)
    ensures DigitRuns(NatToString(n)) == [NatToString(n)]
  {
    var s := NatToString(n);
    FullRun(s);
    assert s[..|s|] == s;
    assert s[|s|..] == [];
  }

  lemma {:induction false} FullRun(s: string)
    requires AllDigits(s)
    ensures DigitRunLength(s) == |s|
  {
    if s != [] {
      FullRun(s[1..]);
    }
  }

  /** Total seats, total minus the second number, and the waitlist length when there is one. */
  datatype Seats = Seats(total: nat, available: int, waitlist: Option<nat>)

  /** The ways `parse_cu_seats` fails: `pop` from an empty list, or the assert on the count. */
  datatype SeatsError = PopFromEmpty | WrongCount(count: nat)

  /**
   * `parse_cu_seats`: the digit runs, a `None` appended when "Waitlist" does
   * not occur, the last item dropped when "of" occurs; exactly three must
   * remain. The closed form of that: the count of runs needed, which run
   * becomes which field, and when the waitlist is absent.
   */
  method ParseCuSeats(text: string) returns (r: Result<Seats, SeatsError>)
    ensures var runs := DigitRuns(text);
      var waitlisted := Contains(text, "Waitlist");
      var hasOf := Contains(text, "of");
      && (r == Err(PopFromEmpty) <==> hasOf && waitlisted && runs == [])
      && (r.Ok? <==> |runs| == (if waitlisted then 3 else 2) + (if hasOf then 1 else 0))
      && (r.Ok? ==> r.value.total == DigitsValue(runs[0])
                    && r.value.available == DigitsValue(runs[0]) - DigitsValue(runs[1]))
      && (r.Ok? ==> (r.value.waitlist.None? <==> !waitlisted && !hasOf))
      && (r.Ok? && (waitlisted || hasOf) ==> r.value.waitlist == Some(DigitsValue(runs[2])))
  {
    var runs := DigitRuns(text);
    var matches: seq<Option<string>> := seq(|runs|, i requires 0 <= i < |runs| => Some(runs[i]));
    if !Contains(text, "Waitlist") {
      matches := matches + [None];
    }
    if Contains(text, "of") {
      if matches == [] {
        return Err(PopFromEmpty);
      }
      matches := matches[..|matches| - 1];
    }
    if |matches| != 3 {
      return Err(WrongCount(|matches|));
    }
    var total := DigitsValue(matches[0].value);
    var avail := DigitsValue(matches[1].value);
    var waitlist: Option<nat> := None;
    if matches[2].Some? {
      waitlist := Some(DigitsValue(matches[2].value));
    }
    r := Ok(Seats(total, total as int - avail, waitlist));
  }

  // ---------------------------------------------------------------- CRN bookkeeping

  /** The state a run starts from: the courses kept, the CRNs done this pass, and those still to do. */
  datatype Pass<V> = Pass(courses: map<string, V>, completed: set<string>, crnsLeft: set<string>)

  /**
   * The bookkeeping at the start of `main`: courses whose CRN is no longer
   * available are dropped, the CRNs left are the available ones not yet
   * completed, and when none are left a new pass starts over all of them.
   */
  function StartPass<V>(courses: map<string, V>, completed: set<string>, available: map<string, string>): (p: Pass<V>)
    ensures p.courses.Keys == courses.Keys * available.Keys
    ensures forall crn :: crn in p.courses ==> p.courses[crn] == courses[crn]
    ensures p.crnsLeft == available.Keys - p.completed
    ensures p.completed == completed || p.completed == {}
    ensures p.crnsLeft == {} <==> available.Keys == {}
    ensures available.Keys - completed != {} ==> p.completed == completed
  {
    var kept := map crn | crn in courses && crn in available :: courses[crn];
    var left := available.Keys - completed;
    if left == {} then Pass(kept, {}, available.Keys) else Pass(kept, completed, left)
  }

  /**
   * Finishing a CRN of the pass (adding it to `completed`) and starting again
   * leaves strictly fewer CRNs to do, until the pass is over and starts afresh.
   */
  lemma PassShrinks<V>(courses: map<string, V>, completed: set<string>, available: map<string, string>, crn: string)
    requires crn in StartPass(courses, completed, available).crnsLeft
    ensures var p := StartPass(courses, completed, available);
      var q := StartPass(p.courses, p.completed + {crn}, available);
      q.crnsLeft == p.crnsLeft - {crn} || (p.crnsLeft == {crn} && q.crnsLeft == available.Keys)
  {
  }
}
