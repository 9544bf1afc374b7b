/**
 * The configuration lookup of hyperschedule/util.py: a config var `name` is
 * read from the environment variable `HYPERSCHEDULE_NAME`, and a boolean
 * var accepts a handful of spellings of yes and no. The environment is a
 * parameter; a missing variable (`KeyError`) is `None`, and so is a
 * malformed boolean (where the source calls `die`).
 */
module Config {

  import opened Wrappers
  import opened Text

  const PREFIX: string := "HYPERSCHEDULE_"

  /** ASCII upper-casing (non-ASCII letters are not folded in this model). */
  function Upper(s: string): (r: string)
    ensures |r| == |s|
    ensures forall i :: 0 <= i < |s| ==> r[i] == (if 'a' <= s[i] <= 'z' then (s[i] as int - 32) as char else s[i])
  {
    if s == [] then [] else [if 'a' <= s[0] <= 'z' then (s[0] as int - 32) as char else s[0]] + Upper(s[1..])
  }

  /** The environment variable behind config var `name`. */
  function EnvName(name: string): (r: string)
    ensures StartsWith(r, PREFIX) && r[|PREFIX|..] == Upper(name)
    ensures forall i :: |PREFIX| <= i < |r| ==> !('a' <= r[i] <= 'z')
  {
    PREFIX + Upper(name)
  }

  /** Two config vars that differ other than in case name different environment variables. */
  lemma EnvNameIgnoresOnlyCase(a: string, b: string)
    requires EnvName(a) == EnvName(b)
    ensures Upper(a) == Upper(b)
  {
    assert EnvName(a)[|PREFIX|..] == EnvName(b)[|PREFIX|..];
  }

  /** `get_env(name)` */
  function GetEnv(env: map<string, string>, name: string): (r: Option<string>)
    ensures r.Some? <==> EnvName(name) in env
    ensures r.Some? ==> r.value == env[EnvName(name)]
  {
    if EnvName(name) in env then Some(env[EnvName(name)]) else None
  }

  /** `word.startswith(val.lower())` for one of the words. */
  predicate PrefixOfAny(val: string, words: seq<string>) {
    exists k :: 0 <= k < |words| && StartsWith(words[k], Lower(val))
  }

  /** The spellings of yes: exactly "1" or "on", or a prefix of "yes", "true", "enabled" in any case. */
  predicate SaysYes(val: string) {
    val == "1" || val == "on" || PrefixOfAny(val, ["yes", "true", "enabled"])
  }

  /** The spellings of no: exactly "0" or "off", or a prefix of "no", "false", "disabled" in any case. */
  predicate SaysNo(val: string) {
    val == "0" || val == "off" || PrefixOfAny(val, ["no", "false", "disabled"])
  }

  /**
   * The classification of `get_env_boolean`: yes is tested first, then
   * no; anything else is malformed (`None`).
   */
  function ParseBoolean(val: string): (r: Option<bool>)
    ensures r == Some(true) <==> SaysYes(val)
    ensures r == Some(false) <==> !SaysYes(val) && SaysNo(val)
    ensures r.None? <==> !SaysYes(val) && !SaysNo(val)
  {
    if SaysYes(val) then Some(true) else if SaysNo(val) then Some(false) else None
  }

  /** `get_env_boolean(name)`: `None` where the variable is missing or malformed. */
  function GetEnvBoolean(env: map<string, string>, name: string): (r: Option<bool>)
    ensures r.Some? ==> EnvName(name) in env && r == ParseBoolean(env[EnvName(name)])
    ensures EnvName(name) !in env ==> r.None?
  {
    match GetEnv(env, name)
    case None => None
    case Some(val) => ParseBoolean(val)
  }

  /** The empty string is a prefix of every word, and yes is tested first: it reads as true. */
  lemma EmptyIsTrue()
    ensures ParseBoolean("") == Some(true)
  {
    var words := ["yes", "true", "enabled"];
    assert StartsWith(words[0], Lower(""));
  }

  /** The empty string is the only value that reads as both yes and no. */
  lemma OnlyEmptyIsBoth(val: string)
    requires SaysYes(val) && SaysNo(val)
    ensures val == ""
  {
    if val != "" {
      var l := Lower(val);
      var yes :| 0 <= yes < 3 && StartsWith(["yes", "true", "enabled"][yes], l);
      var no :| 0 <= no < 3 && StartsWith(["no", "false", "disabled"][no], l);
    }
  }

  /** The exact spellings are case-sensitive: "ON" and "OFF" are malformed. */
  lemma UpperCaseOnOffMalformed()
    ensures ParseBoolean("ON").None? && ParseBoolean("OFF").None?
  {
    assert Lower("ON") == "on";
    assert Lower("OFF") == "off";
    NoWordStartsWithO("on", ["yes", "true", "enabled"]);
    NoWordStartsWithO("on", ["no", "false", "disabled"]);
    NoWordStartsWithO("off", ["yes", "true", "enabled"]);
    NoWordStartsWithO("off", ["no", "false", "disabled"]);
  }

  lemma NoWordStartsWithO(l: string, words: seq<string>)
    requires |l| > 0 && l[0] == 'o'
    requires forall k :: 0 <= k < |words| ==> |words[k]| > 0 && words[k][0] != 'o'
    ensures forall k :: 0 <= k < |words| ==> !StartsWith(words[k], l)
  {
  }

  /** Abbreviations in any case count: "Y" is yes and "n" is no. */
  lemma AbbreviationsCount()
    ensures ParseBoolean("Y") == Some(true) && ParseBoolean("n") == Some(false)
  {
    var yes := ["yes", "true", "enabled"];
    var no := ["no", "false", "disabled"];
    assert Lower("Y") == "y";
    assert StartsWith(yes[0], Lower("Y"));
    assert Lower("n") == "n";
    assert StartsWith(no[0], Lower("n"));
    NotYes("n");
  }

  lemma NotYes(l: string)
    requires Lower(l) == l && l == "n"
    ensures !SaysYes(l)
  {
  }
}
