/**
 * Claremont term codes: `parse_term_code` reads `(FA|SP)\s*(20[0-9]{2})` at the
 * start of a string, `term_info_as_list` and `term_info_as_display_name` turn
 * the result into a sort key and a display name, and `format_term` prints a
 * term the way the Lingk API spells it (`"FA2018"`).
 */
module TermCode {

  import opened Wrappers
  import opened Text
  import opened Json

  /** The dictionary `parse_term_code` returns. */
  datatype TermInfo = TermInfo(year: int, fall: bool, spring: bool)

  /** The terms `parse_term_code` can produce. */
  predicate WellFormedTerm(t: TermInfo) {
    2000 <= t.year <= 2099 && t.fall == !t.spring
  }

  /** Length of the run of `\s` characters starting at `i` (the greedy `\s*`). */
  function SpaceRun(s: string, i: nat): (n: nat)
    requires i <= |s|
    ensures i + n <= |s|
    ensures forall j :: i <= j < i + n ==> IsPySpace(s[j])
    ensures i + n == |s| || !IsPySpace(s[i + n])
    decreases |s| - i
  {
    if i < |s| && IsPySpace(s[i]) then 1 + SpaceRun(s, i + 1) else 0
  }

  /** `20[0-9]{2}` at index `i`. */
  predicate YearAt(s: string, i: nat) {
    i + 4 <= |s| && s[i] == '2' && s[i + 1] == '0' && IsDigit(s[i + 2]) && IsDigit(s[i + 3])
  }

  function DigitOf(c: char): int {
    c as int - '0' as int
  }

  /**
   * `parse_term_code`: `None` where the source raises "malformed term code".
   * The `\s*` is greedy; giving back spaces never helps because the year must
   * start with `2`, so the maximal run is the only one to try.
   */
  function ParseTermCode(term: string): (r: Option<TermInfo>)
    ensures r.Some? ==> WellFormedTerm(r.value)
    ensures r.Some? ==> (r.value.fall <==> StartsWith(term, "FA"))
  {
    if |term| >= 2 && (term[..2] == "FA" || term[..2] == "SP") then
      var i := 2 + SpaceRun(term, 2);
      if YearAt(term, i) then
        Some(TermInfo(2000 + 10 * DigitOf(term[i + 2]) + DigitOf(term[i + 3]), term[..2] == "FA", term[..2] == "SP"))
      else None
    else None
  }

  /** A term code fails to parse unless it starts with one of the two semester codes. */
  lemma ParseNeedsSemester(term: string)
    requires !StartsWith(term, "FA") && !StartsWith(term, "SP")
    ensures ParseTermCode(term).None?
  {
  }

  /** The semester code of a term, and the canonical code `parse_term_code` reads. */
  function SemesterCode(t: TermInfo): string {
    if t.fall then "FA" else "SP"
  }

  /** The decimal text of a year between 2000 and 2099 is `20` and two digits. */
  lemma YearText(y: int)
    requires 2000 <= y <= 2099
    ensures var s := IntToString(y);
      |s| == 4 && YearAt(s, 0) && 2000 + 10 * DigitOf(s[2]) + DigitOf(s[3]) == y
  {
    var q := y / 10;
    var d := y % 10;
    assert y == 10 * q + d && 200 <= q <= 209;
    assert NatToString(20) == "20" by {
      assert NatToString(20) == NatToString(2) + [DigitChar(0)];
    }
    assert NatToString(q) == "20" + [DigitChar(q % 10)] by {
      assert q / 10 == 20;
    }
    assert IntToString(y) == NatToString(q) + [DigitChar(d)];
  }

  /**
   * Reading back: the semester code, any whitespace, the year and any trailing
   * text (the match is anchored only at the start) give back the term.
   */
  lemma {:induction false} ParseTermCodeOf(t: TermInfo, gap: string, rest: string)
    requires WellFormedTerm(t)
    requires forall j :: 0 <= j < |gap| ==> IsPySpace(gap[j])
    ensures ParseTermCode(SemesterCode(t) + gap + IntToString(t.year) + rest) == Some(t)
  {
    var y := IntToString(t.year);
    var s := SemesterCode(t) + gap + y + rest;
    YearText(t.year);
    assert s[..2] == SemesterCode(t);
    SpaceRunIs(s, 2, |gap|);
    assert forall j :: 0 <= j < 4 ==> s[2 + |gap| + j] == y[j];
  }

  lemma {:induction false} SpaceRunIs(s: string, i: nat, n: nat)
    requires i + n <= |s|
    requires forall j :: i <= j < i + n ==> IsPySpace(s[j])
    requires i + n == |s| || !IsPySpace(s[i + n])
    ensures SpaceRun(s, i) == n
    decreases n
  {
    if n > 0 {
      SpaceRunIs(s, i + 1, n - 1);
    }
  }

  /** `term_info_as_list`: `[year, spring]`, a sort key. */
  function TermInfoAsList(t: TermInfo): (r: seq<Value>)
    ensures |r| == 2 && r[0].Int? && r[1].Bool?
  {
    [Int(t.year), Bool(t.spring)]
  }

  /** The sort key tells parsed terms apart: two terms with the same key are the same term. */
  lemma TermKeyInjective(a: TermInfo, b: TermInfo)
    requires WellFormedTerm(a) && WellFormedTerm(b)
    ensures TermInfoAsList(a) == TermInfoAsList(b) <==> a == b
  {
    if TermInfoAsList(a) == TermInfoAsList(b) {
      assert TermInfoAsList(a)[0] == TermInfoAsList(b)[0];
      assert TermInfoAsList(a)[1] == TermInfoAsList(b)[1];
    }
  }

  /** `term_info_as_display_name`: "Fall Y" or "Spring Y". */
  function TermDisplayName(t: TermInfo): (r: string)
    ensures StartsWith(r, "Fall ") <==> t.fall
    ensures EndsWith(r, " " + IntToString(t.year))
  {
    var sem := if t.fall then "Fall" else "Spring";
    var r := sem + " " + IntToString(t.year);
    assert r[|r| - |" " + IntToString(t.year)|..] == " " + IntToString(t.year);
    assert !t.fall ==> r[..5] == "Sprin";
    r
  }

  /** `format_term`: the semester string followed directly by the decimal year. */
  function FormatTerm(semester: string, year: int): (r: string)
    ensures StartsWith(r, semester) && |r| > |semester|
  {
    semester + IntToString(year)
  }

  /** A term printed by `format_term` in the Lingk spelling parses back to the same term. */
  lemma FormatThenParse(t: TermInfo)
    requires WellFormedTerm(t)
    ensures ParseTermCode(FormatTerm(SemesterCode(t), t.year)) == Some(t)
  {
    ParseTermCodeOf(t, "", "");
    assert SemesterCode(t) + "" + IntToString(t.year) + "" == FormatTerm(SemesterCode(t), t.year);
  }
}
