/**
 * The rule configuration and its resolution for one file path (`get_config` and
 * `merge_configs`). A configuration is an ordered dictionary from rule name to a rule, and
 * a rule a dictionary from key to a string or a list of strings.
 */
module Rules {
  import opened Outcomes
  import Glob

  datatype Value = Str(s: string) | List(items: seq<string>)

  type Rule = map<string, Value>

  /** The configuration in its dictionary's iteration order. */
  type RuleSet = seq<(string, Rule)>

  const DefaultRule := "DEFAULT"
  const IgnoreRule := "ignore"
  const IncludeKey := "include"
  const AllowedKey := "allowed_licenses"
  const FullKey := "espressif_copyright_full"
  const ShortKey := "espressif_copyright_short"
  const LicenseKey := "license_for_new_files"

  /** What a `for` loop over a value visits: a list's items, or a string's characters. */
  function Items(v: Value): seq<string> {
    match v
    case List(xs) => xs
    case Str(s) => seq(|s|, k requires 0 <= k < |s| => [s[k]])
  }

  /** `rule.get('include', [])`, as iterated. */
  function IncludePatterns(rule: Rule): seq<string> {
    if IncludeKey in rule then Items(rule[IncludeKey]) else []
  }

  predicate MatchesAny(path: string, pats: seq<string>) {
    exists i | 0 <= i < |pats| :: Glob.Match(path, pats[i])
  }

  /** `config.get(name)`. */
  function Lookup(rules: RuleSet, name: string): Option<Rule> {
    if rules == [] then None
    else if rules[0].0 == name then Some(rules[0].1)
    else Lookup(rules[1..], name)
  }

  /** `config.get('DEFAULT', {})`. */
  function DefaultOf(rules: RuleSet): Rule {
    match Lookup(rules, DefaultRule)
    case Some(r) => r
    case None => map[]
  }

  /** `merge_configs(base, over)`: a fresh dictionary, `over` winning on shared keys. */
  function Merge(base: Rule, over: Rule): (m: Rule)
    ensures m.Keys == base.Keys + over.Keys
    ensures forall k :: k in over ==> m[k] == over[k]
    ensures forall k :: k in base && k !in over ==> m[k] == base[k]
  {
    base + over
  }

  /** Merging the same rule a second time changes nothing. */
  lemma MergeTwice(base: Rule, over: Rule)
    ensures Merge(Merge(base, over), over) == Merge(base, over)
  {
  }

  /** The inner loop of `get_config` over one rule's include patterns. */
  function ScanPatterns(name: string, rule: Rule, pats: seq<string>, path: string, acc: Rule): Option<Rule>
  {
    if pats == [] then Some(acc)
    else if Glob.Match(path, pats[0]) then
      if name == IgnoreRule then None
      else ScanPatterns(name, rule, pats[1..], path, Merge(acc, rule))
    else ScanPatterns(name, rule, pats[1..], path, acc)
  }

  /** The outer loop of `get_config` over the rules, in order. */
  function ScanRules(rules: RuleSet, path: string, acc: Rule): Option<Rule>
  {
    if rules == [] then Some(acc)
    else if rules[0].0 == DefaultRule then ScanRules(rules[1..], path, acc)
    else
      match ScanPatterns(rules[0].0, rules[0].1, IncludePatterns(rules[0].1), path, acc)
      case None => None
      case Some(next) => ScanRules(rules[1..], path, next)
  }

  /** `get_config(config, path)`: the effective rule for `path`, or None when it is ignored. */
  function GetConfig(rules: RuleSet, path: string): Option<Rule> {
    ScanRules(rules, path, DefaultOf(rules))
  }

  /** The path matches an include pattern of a rule named `ignore`. */
  predicate Ignored(rules: RuleSet, path: string) {
    exists i | 0 <= i < |rules| :: rules[i].0 == IgnoreRule && MatchesAny(path, IncludePatterns(rules[i].1))
  }

  /** A rule that is layered onto the result for `path`. */
  predicate Applies(entry: (string, Rule), path: string) {
    entry.0 != DefaultRule && entry.0 != IgnoreRule && MatchesAny(path, IncludePatterns(entry.1))
  }

  /** Reference definition: every applying rule merged once onto `acc`, in order. */
  function Layered(rules: RuleSet, path: string, acc: Rule): Rule {
    if rules == [] then acc
    else Layered(rules[1..], path, if Applies(rules[0], path) then Merge(acc, rules[0].1) else acc)
  }

  lemma {:induction false} ScanPatternsSpec(name: string, rule: Rule, pats: seq<string>, path: string, acc: Rule)
    ensures ScanPatterns(name, rule, pats, path, acc).None? <==> name == IgnoreRule && MatchesAny(path, pats)
    ensures ScanPatterns(name, rule, pats, path, acc).Some? ==>
      ScanPatterns(name, rule, pats, path, acc) == Some(if MatchesAny(path, pats) then Merge(acc, rule) else acc)
  {
    if pats != [] {
      var next := if Glob.Match(path, pats[0]) then Merge(acc, rule) else acc;
      ScanPatternsSpec(name, rule, pats[1..], path, next);
      MergeTwice(acc, rule);
      assert MatchesAny(path, pats) <==> Glob.Match(path, pats[0]) || MatchesAny(path, pats[1..]) by {
        if MatchesAny(path, pats[1..]) {
          var i :| 0 <= i < |pats[1..]| && Glob.Match(path, pats[1..][i]);
          assert Glob.Match(path, pats[i + 1]);
        }
        if MatchesAny(path, pats) && !Glob.Match(path, pats[0]) {
          var i :| 0 <= i < |pats| && Glob.Match(path, pats[i]);
          assert Glob.Match(path, pats[1..][i - 1]);
        }
      }
    }
  }

  lemma {:induction false} ScanRulesSpec(rules: RuleSet, path: string, acc: Rule)
    ensures ScanRules(rules, path, acc).None? <==> Ignored(rules, path)
    ensures !Ignored(rules, path) ==> ScanRules(rules, path, acc) == Some(Layered(rules, path, acc))
  {
    if rules != [] {
      var (name, rule) := rules[0];
      var pats := IncludePatterns(rule);
      ScanPatternsSpec(name, rule, pats, path, acc);
      var next := if Applies(rules[0], path) then Merge(acc, rule) else acc;
      ScanRulesSpec(rules[1..], path, next);
      assert Ignored(rules, path) <==> (name == IgnoreRule && MatchesAny(path, pats)) || Ignored(rules[1..], path) by {
        if Ignored(rules[1..], path) {
          var i :| 0 <= i < |rules[1..]| && rules[1..][i].0 == IgnoreRule && MatchesAny(path, IncludePatterns(rules[1..][i].1));
          assert rules[i + 1] == rules[1..][i];
        }
        if Ignored(rules, path) && !(name == IgnoreRule && MatchesAny(path, pats)) {
          var i :| 0 <= i < |rules| && rules[i].0 == IgnoreRule && MatchesAny(path, IncludePatterns(rules[i].1));
          assert i > 0;
          assert rules[1..][i - 1] == rules[i];
        }
      }
    }
  }

  /**
   * `get_config` returns None exactly when the path matches an include pattern of the
   * `ignore` rule, wherever that rule stands in the order; otherwise it returns DEFAULT
   * (or an empty rule) with every other matching rule merged onto it in order.
   */
  lemma GetConfigSpec(rules: RuleSet, path: string)
    ensures GetConfig(rules, path).None? <==> Ignored(rules, path)
    ensures !Ignored(rules, path) ==> GetConfig(rules, path) == Some(Layered(rules, path, DefaultOf(rules)))
  {
    ScanRulesSpec(rules, path, DefaultOf(rules));
  }

  /** Per key, the last applying rule that sets the key decides its value. */
  lemma {:induction false} LastMatchWins(rules: RuleSet, path: string, acc: Rule, key: string, i: nat)
    requires i < |rules| && Applies(rules[i], path) && key in rules[i].1
    requires forall j :: i < j < |rules| && Applies(rules[j], path) ==> key !in rules[j].1
    ensures key in Layered(rules, path, acc) && Layered(rules, path, acc)[key] == rules[i].1[key]
  {
    var next := if Applies(rules[0], path) then Merge(acc, rules[0].1) else acc;
    if i == 0 {
      KeyUntouched(rules[1..], path, next, key);
    } else {
      LastMatchWins(rules[1..], path, next, key, i - 1);
    }
  }

  /** A key that no applying rule sets keeps the value (or absence) it had in `acc`. */
  lemma {:induction false} KeyUntouched(rules: RuleSet, path: string, acc: Rule, key: string)
    requires forall j :: 0 <= j < |rules| && Applies(rules[j], path) ==> key !in rules[j].1
    ensures (key in Layered(rules, path, acc)) == (key in acc)
    ensures key in acc ==> Layered(rules, path, acc)[key] == acc[key]
  {
    if rules != [] {
      var next := if Applies(rules[0], path) then Merge(acc, rules[0].1) else acc;
      assert forall j :: 0 <= j < |rules[1..]| ==> rules[1..][j] == rules[j + 1];
      KeyUntouched(rules[1..], path, next, key);
    }
  }
}
