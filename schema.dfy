/** The per-attribute logic of `shortcode_atts`: how one entry of the
    caller's schema (`$pairs`) is resolved against the user's attributes. */
module Schema {
  import opened Php

  /** The PHP values that flow through the resolver: user attributes are
      strings, `filter_var` yields booleans, and defaults may be anything. */
  datatype Value = Str(s: string) | Bool(b: bool) | Int(i: int) | Null

  /** One entry of `$pairs`: a bare default, or an array `[rule, default]`. */
  datatype Entry = Plain(default: Value) | Validated(rule: string, fallback: Value)

  /** `preg_match('/' . $rule . '/', $value)` for a caller-supplied rule. */
  type Matcher = (string, string) -> bool

  /** The sentinel rule that asks for boolean coercion. */
  const BooleanRule: string := "boolean"

  /** The alternatives of the pattern `1|0|yes|no|true|false` that replaces
      the sentinel. */
  const BooleanWords: seq<string> := ["1", "0", "yes", "no", "true", "false"]

  /** `t` occurs somewhere in `v`. */
  predicate Contains(v: string, t: string) {
    exists q :: 0 <= q <= |v| - |t| && PrefixAt(v, q, t)
  }

  /** The unanchored, case-sensitive `preg_match('/1|0|yes|no|true|false/', $v)`:
      some alternative occurs somewhere in `v`. */
  function MatchesBooleanPattern(v: string): (r: bool)
    ensures r <==> exists w :: w in BooleanWords && Contains(v, w)
  {
    forall w | w in BooleanWords
      ensures FindText(v, 0, w).Some? <==> Contains(v, w)
    {
      FoundIffContains(v, w);
    }
    assert BooleanWords == ["1", "0", "yes", "no", "true", "false"];
    FindText(v, 0, "1").Some? || FindText(v, 0, "0").Some? || FindText(v, 0, "yes").Some? ||
    FindText(v, 0, "no").Some? || FindText(v, 0, "true").Some? || FindText(v, 0, "false").Some?
  }

  /** Searching from the start finds `t` exactly when `t` occurs in `v`. */
  lemma FoundIffContains(v: string, t: string)
    ensures FindText(v, 0, t).Some? <==> Contains(v, t)
  {
    FindTextFirst(v, 0, t);
    if FindText(v, 0, t).Some? {
      assert PrefixAt(v, FindText(v, 0, t).value, t);
    }
  }

  /** Whether the user value passes the entry's rule. */
  predicate RuleAccepts(rule: string, v: string, matches: Matcher) {
    if rule == BooleanRule then MatchesBooleanPattern(v) else matches(rule, v)
  }

  /** The value an entry falls back on: its default or its fallback. */
  function Default(e: Entry): Value {
    match e
    case Plain(d) => d
    case Validated(_, f) => f
  }

  /** The value `shortcode_atts` puts under `name` for the schema entry `e`:
      the entry's default when the user did not give the key; otherwise the
      user's value verbatim, coerced by `filter_var` under the boolean rule,
      or, when a rule rejects it, the default again. */
  function Resolve(name: string, e: Entry, atts: map<string, string>, matches: Matcher): (r: Value)
    ensures name !in atts ==> r == Default(e)
    ensures e.Plain? && name in atts ==> r == Str(atts[name])
    ensures r != Default(e) ==> (name in atts &&
      (r == Str(atts[name]) || (e.Validated? && e.rule == BooleanRule && r == Bool(FilterBoolean(atts[name])))))
    ensures e.Validated? && name in atts && !RuleAccepts(e.rule, atts[name], matches) ==> r == Default(e)
    ensures e.Validated? && name in atts && RuleAccepts(e.rule, atts[name], matches) ==>
      r == (if e.rule == BooleanRule then Bool(FilterBoolean(atts[name])) else Str(atts[name]))
  {
    match e
    case Validated(rule, fallback) =>
      if name in atts then
        if RuleAccepts(rule, atts[name], matches) then
          if rule == BooleanRule then Bool(FilterBoolean(atts[name])) else Str(atts[name])
        else fallback
      else fallback
    case Plain(default) =>
      if name in atts then Str(atts[name]) else default
  }

  /** The resolved list before any filter: one entry per schema entry, in
      schema order (a reference definition for the loop in `shortcode_atts`). */
  function ResolveAll(pairs: seq<(string, Entry)>, atts: map<string, string>, matches: Matcher): (r: seq<(string, Value)>)
    ensures |r| == |pairs|
    ensures forall j :: 0 <= j < |pairs| ==> r[j] == (pairs[j].0, Resolve(pairs[j].0, pairs[j].1, atts, matches))
  {
    if pairs == [] then []
    else [(pairs[0].0, Resolve(pairs[0].0, pairs[0].1, atts, matches))] + ResolveAll(pairs[1..], atts, matches)
  }

  /** User attributes whose keys are not in the schema have no effect on the
      result: they are dropped. */
  lemma {:induction false} UnknownKeysIgnored(pairs: seq<(string, Entry)>, atts: map<string, string>, k: string, v: string, matches: Matcher)
    requires forall j :: 0 <= j < |pairs| ==> pairs[j].0 != k
    ensures ResolveAll(pairs, atts[k := v], matches) == ResolveAll(pairs, atts, matches)
  {
    if pairs != [] {
      UnknownKeysIgnored(pairs[1..], atts, k, v, matches);
    }
  }

  /** The boolean rule accepts any value containing one of its words, so
      "nothing" (which contains "no") passes and is coerced to false. */
  lemma BooleanRuleIsUnanchored(fallback: Value, matches: Matcher)
    ensures Resolve("flag", Validated(BooleanRule, fallback), map["flag" := "nothing"], matches) == Bool(false)
  {
    NothingMatches();
    NothingIsFalse();
  }

  lemma NothingMatches()
    ensures MatchesBooleanPattern("nothing")
  {
    assert PrefixAt("nothing", 0, "no");
    assert FindText("nothing", 0, "no") == Some(0);
  }

  lemma NothingIsFalse()
    ensures !FilterBoolean("nothing")
  {
    var v := "nothing";
    assert TrimEnd(v) == v;
    assert TrimStart(v) == v;
    assert |Lower(v)| == 7;
  }

  /** The boolean rule is case-sensitive: "TRUE" contains none of its words
      and gets the fallback, verbatim and uncoerced. */
  lemma BooleanRuleIsCaseSensitive(fallback: Value, matches: Matcher)
    ensures Resolve("flag", Validated(BooleanRule, fallback), map["flag" := "TRUE"], matches) == fallback
  {
    forall w | w in BooleanWords ensures !Contains("TRUE", w) {
      forall q | 0 <= q <= 4 - |w| ensures !PrefixAt("TRUE", q, w) {
        assert w[0] != "TRUE"[q];
      }
    }
    assert !MatchesBooleanPattern("TRUE");
    assert !RuleAccepts(BooleanRule, "TRUE", matches);
  }
}
