/**
 * Shell-style pattern matching as `fnmatch.fnmatch` does it on POSIX: the whole name must
 * match, `*` matches any run of characters (a '/' included) and `?` any one character.
 */
module Glob {

  /** `fnmatch.fnmatch(name, pat)`. */
  function Match(name: string, pat: string): bool
    decreases |pat|, |name|
  {
    if pat == [] then name == []
    else if pat[0] == '*' then Match(name, pat[1..]) || (name != [] && Match(name[1..], pat))
    else name != [] && (pat[0] == '?' || pat[0] == name[0]) && Match(name[1..], pat[1..])
  }

  /** A pattern without wildcards. */
  predicate Literal(pat: string) {
    forall k :: 0 <= k < |pat| ==> pat[k] != '*' && pat[k] != '?'
  }

  /** A pattern without wildcards matches exactly itself. */
  lemma {:induction false} LiteralMatch(name: string, pat: string)
    requires Literal(pat)
    ensures Match(name, pat) <==> name == pat
  {
    if pat != [] && name != [] {
      LiteralMatch(name[1..], pat[1..]);
      if name[1..] == pat[1..] && name[0] == pat[0] {
        assert name == [name[0]] + name[1..];
        assert pat == [pat[0]] + pat[1..];
      }
    }
  }

  /** "*" matches every name. */
  lemma {:induction false} StarMatchesAll(name: string)
    ensures Match(name, "*")
    decreases |name|
  {
    if name != [] {
      StarMatchesAll(name[1..]);
    }
  }

  /** A leading `*` matches exactly when the rest of the pattern matches some suffix of the name. */
  lemma {:induction false} LeadingStar(name: string, pat: string)
    ensures Match(name, "*" + pat) <==> exists k | 0 <= k <= |name| :: Match(name[k..], pat)
    decreases |name|
  {
    var p := "*" + pat;
    assert p[1..] == pat;
    assert name[0..] == name;
    if name != [] {
      LeadingStar(name[1..], pat);
      assert forall k :: 1 <= k <= |name| ==> name[1..][k - 1..] == name[k..];
      if exists k | 0 <= k <= |name| :: Match(name[k..], pat) {
        var k :| 0 <= k <= |name| && Match(name[k..], pat);
        if k > 0 {
          assert Match(name[1..][k - 1..], pat);
        }
      }
    }
  }

  /** A literal prefix followed by `*` matches exactly the names that start with that prefix. */
  lemma {:induction false} PrefixStar(name: string, prefix: string)
    requires Literal(prefix)
    ensures Match(name, prefix + "*") <==> |prefix| <= |name| && name[..|prefix|] == prefix
    decreases |prefix|
  {
    var p := prefix + "*";
    if prefix == [] {
      assert p == "*";
      StarMatchesAll(name);
    } else {
      assert p[0] == prefix[0] && p[1..] == prefix[1..] + "*";
      if name != [] {
        PrefixStar(name[1..], prefix[1..]);
        if |prefix| <= |name| && name[..|prefix|] == prefix {
          assert name[1..][..|prefix| - 1] == prefix[1..];
        }
        if |prefix| <= |name| && name[0] == prefix[0] && name[1..][..|prefix| - 1] == prefix[1..] {
          assert name[..|prefix|] == [name[0]] + name[1..][..|prefix| - 1];
        }
      }
    }
  }
}
