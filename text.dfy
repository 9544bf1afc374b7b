/**
 * The slice of Python's `str` behaviour that the core relies on: whitespace as
 * `str.isspace` sees it, `strip`, `split`, `join`, `int()` on decimal text,
 * `str()` of an int and sign-aware zero padding (`"{:03d}"`).
 */
module Text {

  import opened Wrappers

  /** The code points Python's `str.isspace()` accepts (and `str.split()` / `str.strip()` remove). */
  predicate IsPySpace(c: char) {
    ('\U{9}' <= c <= '\U{D}') || ('\U{1C}' <= c <= ' ') || c == '\U{85}' || c == '\U{A0}'
    || c == '\U{1680}' || ('\U{2000}' <= c <= '\U{200A}') || c == '\U{2028}' || c == '\U{2029}'
    || c == '\U{202F}' || c == '\U{205F}' || c == '\U{3000}'
  }

  predicate IsDigit(c: char) { '0' <= c <= '9' }

  predicate IsUpper(c: char) { 'A' <= c <= 'Z' }

  predicate AllDigits(s: string) {
    forall i :: 0 <= i < |s| ==> IsDigit(s[i])
  }

  predicate NoSpace(s: string) {
    forall i :: 0 <= i < |s| ==> !IsPySpace(s[i])
  }

  /** `sub in s` */
  predicate Contains(s: string, sub: string) {
    StartsWith(s, sub) || (s != [] && Contains(s[1..], sub))
  }

  predicate StartsWith(s: string, prefix: string) {
    |prefix| <= |s| && s[..|prefix|] == prefix
  }

  predicate EndsWith(s: string, suffix: string) {
    |suffix| <= |s| && s[|s| - |suffix|..] == suffix
  }

  /** ASCII lower-casing (non-ASCII letters are not folded in this model). */
  function Lower(s: string): (r: string)
    ensures |r| == |s|
    ensures forall i :: 0 <= i < |s| ==> r[i] == (if IsUpper(s[i]) then (s[i] as int + 32) as char else s[i])
  {
    if s == [] then [] else [if IsUpper(s[0]) then (s[0] as int + 32) as char else s[0]] + Lower(s[1..])
  }

  // ---------------------------------------------------------------- strip

  function StripLeft(s: string): (r: string)
    ensures |r| <= |s|
  {
    if s != [] && IsPySpace(s[0]) then StripLeft(s[1..]) else s
  }

  function StripRight(s: string): (r: string)
    ensures |r| <= |s|
  {
    if s != [] && IsPySpace(s[|s| - 1]) then StripRight(s[..|s| - 1]) else s
  }

  /** `s.strip()` */
  function Strip(s: string): (r: string)
    ensures |r| <= |s|
  {
    StripRight(StripLeft(s))
  }

  /** `lstrip` removes exactly the leading whitespace. */
  lemma {:induction false} StripLeftSpec(s: string)
    ensures var r := StripLeft(s);
      r == s[|s| - |r|..] && (r == [] || !IsPySpace(r[0]))
      && forall i :: 0 <= i < |s| - |r| ==> IsPySpace(s[i])
  {
    if s != [] && IsPySpace(s[0]) {
      StripLeftSpec(s[1..]);
    }
  }

  /** `rstrip` removes exactly the trailing whitespace. */
  lemma {:induction false} StripRightSpec(s: string)
    ensures var r := StripRight(s);
      r == s[..|r|] && (r == [] || !IsPySpace(r[|r| - 1]))
      && forall i :: |r| <= i < |s| ==> IsPySpace(s[i])
  {
    if s != [] && IsPySpace(s[|s| - 1]) {
      StripRightSpec(s[..|s| - 1]);
    }
  }

  /** `strip` leaves no whitespace at either end and is a slice of `s` after its leading whitespace. */
  lemma StripSpec(s: string)
    ensures var r := Strip(s); var i := |s| - |StripLeft(s)|;
      (r == [] || (!IsPySpace(r[0]) && !IsPySpace(r[|r| - 1])))
      && i + |r| <= |s| && r == s[i..i + |r|]
      && forall j :: 0 <= j < i ==> IsPySpace(s[j])
  {
    var l := StripLeft(s);
    StripLeftSpec(s);
    StripRightSpec(l);
    var r := StripRight(l);
    if r != [] {
      assert r[0] == l[0];
    }
    var i := |s| - |l|;
    assert r == s[i..i + |r|];
  }

  /** `s.strip(c)` for a single character `c`. */
  function StripChar(s: string, c: char): (r: string)
    ensures r == [] || (r[0] != c && r[|r| - 1] != c)
    ensures |r| <= |s|
  {
    if s != [] && s[0] == c then StripChar(s[1..], c)
    else if s != [] && s[|s| - 1] == c then StripChar(s[..|s| - 1], c)
    else s
  }

  lemma StripOfNoSpace(s: string)
    requires s == [] || (!IsPySpace(s[0]) && !IsPySpace(s[|s| - 1]))
    ensures Strip(s) == s
  {
  }

  // ---------------------------------------------------------------- split and join

  /** `s.split(sep)` for a one-character separator: always at least one part. */
  function Split(s: string, sep: char): (parts: seq<string>)
    ensures |parts| > 0
    ensures forall i :: 0 <= i < |parts| ==> sep !in parts[i]
  {
    if s == [] then [""]
    else
      var rest := Split(s[1..], sep);
      if s[0] == sep then [""] + rest else [[s[0]] + rest[0]] + rest[1..]
  }

  /** `sep.join(parts)` */
  function Join(parts: seq<string>, sep: char): string {
    if |parts| == 0 then ""
    else if |parts| == 1 then parts[0]
    else parts[0] + [sep] + Join(parts[1..], sep)
  }

  /** A join of two or more parts ends with the separator and the last part. */
  lemma {:induction false} JoinEnds(parts: seq<string>, sep: char)
    requires |parts| >= 2
    ensures EndsWith(Join(parts, sep), [sep] + parts[|parts| - 1])
  {
    if |parts| > 2 {
      JoinEnds(parts[1..], sep);
    }
  }

  lemma {:induction false} SplitNoSep(a: string, sep: char)
    requires sep !in a
    ensures Split(a, sep) == [a]
  {
    if a != [] {
      SplitNoSep(a[1..], sep);
      assert [a[0]] + a[1..] == a;
    }
  }

  lemma {:induction false} SplitAtSep(a: string, sep: char, b: string)
    requires sep !in a
    ensures Split(a + [sep] + b, sep) == [a] + Split(b, sep)
  {
    if a == [] {
      assert a + [sep] + b == [sep] + b;
      assert ([sep] + b)[1..] == b;
    } else {
      SplitAtSep(a[1..], sep, b);
      assert (a + [sep] + b)[1..] == a[1..] + [sep] + b;
      assert [a[0]] + a[1..] == a;
    }
  }

  /** Splitting a join gives back the parts, when no part holds the separator. */
  lemma {:induction false} SplitJoin(parts: seq<string>, sep: char)
    requires |parts| > 0
    requires forall i :: 0 <= i < |parts| ==> sep !in parts[i]
    ensures Split(Join(parts, sep), sep) == parts
  {
    if |parts| == 1 {
      SplitNoSep(parts[0], sep);
    } else {
      SplitJoin(parts[1..], sep);
      SplitAtSep(parts[0], sep, Join(parts[1..], sep));
      assert [parts[0]] + parts[1..] == parts;
    }
  }

  /** A join of parts free of the separator holds exactly `|parts| - 1` separators. */
  lemma {:induction false} JoinSeparatorCount(parts: seq<string>, sep: char)
    requires |parts| > 0
    requires forall i :: 0 <= i < |parts| ==> sep !in parts[i]
    ensures multiset(Join(parts, sep))[sep] == |parts| - 1
  {
    assert sep !in multiset(parts[0]);
    if |parts| > 1 {
      JoinSeparatorCount(parts[1..], sep);
      assert multiset(Join(parts, sep)) == multiset(parts[0]) + multiset{sep} + multiset(Join(parts[1..], sep));
    }
  }

  // ---------------------------------------------------------------- decimal numbers

  function DigitChar(d: nat): (c: char)
    requires d < 10
    ensures IsDigit(c)
  {
    ('0' as int + d) as char
  }

  function DigitsValue(s: string): nat
    requires AllDigits(s)
  {
    if s == [] then 0 else DigitsValue(s[..|s| - 1]) * 10 + (s[|s| - 1] as int - '0' as int)
  }

  /** Length of the run of ASCII digits at the start of `t`. */
  function DigitRunLength(t: string): (n: nat)
    ensures n <= |t| && (n == |t| || !IsDigit(t[n]))
    ensures forall j :: 0 <= j < n ==> IsDigit(t[j])
  {
    if t == [] || !IsDigit(t[0]) then 0 else 1 + DigitRunLength(t[1..])
  }

  /** `str(n)` for a natural number: digits, no leading zero, denoting `n`. */
  function NatToString(n: nat): (s: string)
    ensures |s| > 0 && AllDigits(s)
    ensures s[0] != '0' || n == 0
    ensures n == 0 ==> s == "0"
    ensures DigitsValue(s) == n
  {
    if n < 10 then [DigitChar(n)]
    else
      var s := NatToString(n / 10) + [DigitChar(n % 10)];
      assert s[..|s| - 1] == NatToString(n / 10);
      s
  }

  /** `str(i)` */
  function IntToString(i: int): (s: string)
    ensures |s| > 0 && !IsPySpace(s[0]) && !IsPySpace(s[|s| - 1])
  {
    if i < 0 then "-" + NatToString(-i) else NatToString(i)
  }

  /** Python `int(s)` on decimal text: surrounding whitespace, an optional sign, ASCII digits. */
  function ParseInt(s: string): (r: Option<int>)
  {
    var t := Strip(s);
    if |t| > 0 && (t[0] == '-' || t[0] == '+') then
      if |t| > 1 && AllDigits(t[1..]) then
        Some(if t[0] == '-' then -(DigitsValue(t[1..]) as int) else DigitsValue(t[1..]) as int)
      else None
    else if |t| > 0 && AllDigits(t) then Some(DigitsValue(t) as int)
    else None
  }

  /** `int(str(i)) == i` */
  lemma IntToStringParses(i: int)
    ensures ParseInt(IntToString(i)) == Some(i)
  {
    var s := IntToString(i);
    StripOfNoSpace(s);
    if i < 0 {
      assert s[1..] == NatToString(-i);
    }
  }

  /** `int(t)` of a non-empty run of ASCII digits is the number they denote. */
  lemma ParseIntOfDigits(t: string)
    requires |t| > 0 && AllDigits(t)
    ensures ParseInt(t) == Some(DigitsValue(t) as int)
  {
    assert !IsPySpace(t[0]) && !IsPySpace(t[|t| - 1]);
    StripOfNoSpace(t);
  }

  /** Leading zeros do not change the value of a digit string. */
  lemma {:induction false} DigitsValueZeros(n: nat, t: string)
    requires AllDigits(t)
    ensures AllDigits(Zeros(n) + t) && DigitsValue(Zeros(n) + t) == DigitsValue(t)
    decreases |t|
  {
    var z := Zeros(n) + t;
    if t == [] {
      assert z == Zeros(n);
      ZerosValue(n);
    } else {
      assert z[..|z| - 1] == Zeros(n) + t[..|t| - 1];
      DigitsValueZeros(n, t[..|t| - 1]);
    }
  }

  lemma {:induction false} ZerosValue(n: nat)
    ensures AllDigits(Zeros(n)) && DigitsValue(Zeros(n)) == 0
  {
    if n > 0 {
      var z := Zeros(n);
      assert z[..|z| - 1] == Zeros(n - 1) by {
        ZerosSnoc(n - 1);
      }
      ZerosValue(n - 1);
    }
  }

  lemma {:induction false} ZerosSnoc(n: nat)
    ensures Zeros(n + 1) == Zeros(n) + "0"
  {
    if n > 0 {
      ZerosSnoc(n - 1);
    }
  }

  /** Zero padding on the left to `width` characters. */
  function PadZeros(s: string, width: int): (r: string)
    ensures |r| == if |s| < width then width else |s|
    ensures EndsWith(r, s)
    ensures forall i :: 0 <= i < |r| - |s| ==> r[i] == '0'
  {
    if |s| < width then Zeros(width - |s|) + s else s
  }

  function Zeros(n: nat): (r: string)
    ensures |r| == n && forall i :: 0 <= i < n ==> r[i] == '0'
  {
    if n == 0 then "" else "0" + Zeros(n - 1)
  }

  /** `"{:0Nd}".format(i)`: the sign first, then zeros up to the full width. */
  function FormatIntZeroPad(i: int, width: int): string {
    if i < 0 then "-" + PadZeros(NatToString(-i), width - 1) else PadZeros(NatToString(i), width)
  }
}
