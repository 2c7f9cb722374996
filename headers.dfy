/**
 * What the checker expects of a file and how it judges and repairs one: the expected
 * copyright text, the expected LICENSE text, the three header tests of `check_copyright`
 * and the textual correction of `replace_copyright`.
 */
module Headers {
  import opened Outcomes
  import opened Text
  import opened Rules
  import Template

  /** A string-valued configuration key of the effective rule. */
  function StringKey(job: Rule, key: string): Result<string> {
    if key !in job then Err(KeyMissing(key))
    else if job[key].List? then Err(NotAString(key))
    else Ok(job[key].s)
  }

  /**
   * The copyright text a source file must contain: the short template when a matching LICENSE
   * file was found, the full one otherwise, formatted and stripped.
   */
  function ExpectedCopyright(job: Rule, short: bool, year: nat): (r: Result<string>)
    ensures r.Ok? ==> r.value == Strip(r.value)
    ensures r.Ok? ==> (if short then ShortKey else FullKey) in job && LicenseKey in job
  {
    match StringKey(job, if short then ShortKey else FullKey)
    case Err(e) => Err(e)
    case Ok(template) =>
      match StringKey(job, LicenseKey)
      case Err(e) => Err(e)
      case Ok(license) =>
        match Template.Format(template, license, year)
        case Err(e) => Err(e)
        case Ok(text) =>
          StripIdempotent(text);
          Ok(Strip(text))
  }

  /**
   * The text a LICENSE file must hold: the full template with its three-character indent
   * removed and stripped first, and formatted after.
   */
  function LicenseFileText(job: Rule, year: nat): Result<string> {
    var license := if LicenseKey in job then job[LicenseKey] else Str("");
    match StringKey(job, FullKey)
    case Err(e) => Err(e)
    case Ok(full) =>
      if license.List? then Err(NotAString(LicenseKey))
      else Template.Format(Strip(Template.FormatLicenseFile(full)), license.s, year)
  }

  datatype LicenseJudgement = WrongLicense | RightLicense(exact: bool)

  /**
   * The judgement of `check_license_file` on a LICENSE file it reached: the wrong license when
   * the expected license name does not occur in it, otherwise whether its stripped content is
   * exactly the stripped expected LICENSE text.
   */
  function JudgeLicense(job: Rule, content: string, year: nat): Result<LicenseJudgement> {
    var license := if LicenseKey in job then job[LicenseKey] else Str("");
    if license.List? then Err(NotAString(LicenseKey))
    else if !Contains(content, license.s) then Ok(WrongLicense)
    else
      match LicenseFileText(job, year)
      case Err(e) => Err(e)
      case Ok(text) => Ok(RightLicense(Strip(text) == Strip(content)))
  }

  /** A regex element of `license_for_new_files` with each space read as `[\s-]`. */
  datatype Atom = SpaceOrHyphen | AnyButNewline | Exactly(c: char)

  function LicenseAtoms(name: string): (atoms: seq<Atom>)
    ensures |atoms| == |name|
  {
    seq(|name|, k requires 0 <= k < |name| =>
      if name[k] == ' ' then SpaceOrHyphen else if name[k] == '.' then AnyButNewline else Exactly(name[k]))
  }

  predicate AtomMatches(a: Atom, c: char) {
    match a
    case SpaceOrHyphen => IsSpace(c) || c == '-'
    case AnyButNewline => c != '\n'
    case Exactly(x) => c == x
  }

  predicate AtomsAt(content: string, atoms: seq<Atom>, i: nat) {
    i + |atoms| <= |content| && forall k :: 0 <= k < |atoms| ==> AtomMatches(atoms[k], content[i + k])
  }

  /** `re.search(name.replace(" ", r"[\s-]"), content)`. */
  predicate LicenseMentioned(content: string, name: string) {
    exists i | 0 <= i <= |content| - |name| :: AtomsAt(content, LicenseAtoms(name), i)
  }

  /** The name written as it is, or with its spaces written as hyphens, is found by the license search. */
  lemma LicenseMentionedSpellings(content: string, name: string, spelling: string)
    requires spelling == name || spelling == Hyphenated(name)
    requires Contains(content, spelling)
    ensures LicenseMentioned(content, name)
  {
    var i :| 0 <= i <= |content| - |spelling| && OccursAt(content, spelling, i);
    var atoms := LicenseAtoms(name);
    forall k | 0 <= k < |atoms| ensures AtomMatches(atoms[k], content[i + k]) {
      assert content[i + k] == spelling[k];
    }
    assert AtomsAt(content, atoms, i);
  }

  /** For a name without spaces or dots, the license search is exactly a substring test. */
  lemma LicenseMentionedLiteral(content: string, name: string)
    requires forall k :: 0 <= k < |name| ==> name[k] != ' ' && name[k] != '.'
    ensures LicenseMentioned(content, name) <==> Contains(content, name)
  {
    if LicenseMentioned(content, name) {
      var atoms := LicenseAtoms(name);
      var i :| 0 <= i <= |content| - |name| && AtomsAt(content, atoms, i);
      assert forall k :: 0 <= k < |name| ==> atoms[k] == Exactly(name[k]);
      assert content[i..i + |name|] == name;
      assert OccursAt(content, name, i);
    }
    if Contains(content, name) {
      LicenseMentionedSpellings(content, name, name);
    }
  }

  function Hyphenated(name: string): (r: string)
    ensures |r| == |name|
  {
    seq(|name|, k requires 0 <= k < |name| => if name[k] == ' ' then '-' else name[k])
  }

  // The comment closer (star, slash) starts at index `at`.
  predicate CommentCloseAt(s: string, at: nat) {
    at + 2 <= |s| && s[at] == '*' && s[at + 1] == '/'
  }

  // The index just past the first comment closer that starts at or after `from`.
  function FindClose(s: string, from: nat): (r: Option<nat>)
    ensures r.Some? ==> from + 2 <= r.value <= |s| && CommentCloseAt(s, r.value - 2)
    ensures r.Some? ==> forall j :: from <= j < r.value - 2 ==> !CommentCloseAt(s, j)
    ensures r.None? ==> forall j :: from <= j ==> !CommentCloseAt(s, j)
    decreases |s| - from
  {
    if from + 2 > |s| then None
    else if CommentCloseAt(s, from) then Some(from + 2)
    else FindClose(s, from + 1)
  }

  // A block comment from `start` to `end`: the opener (slash, star) at `start`, and the
  // first closer after it ending at `end`.
  predicate BlockAt(s: string, start: nat, end: nat) {
    start + 4 <= end <= |s| && s[start] == '/' && s[start + 1] == '*' && CommentCloseAt(s, end - 2)
    && forall j :: start + 2 <= j < end - 2 ==> !CommentCloseAt(s, j)
  }

  // The end of the match at the start of `s` of the regular expression of replace_copyright:
  // one optional character, a comment opener, and the shortest run up to a comment closer.
  function LeadingBlockEnd(s: string): (r: Option<nat>)
    ensures r.Some? ==> BlockAt(s, 1, r.value) || BlockAt(s, 0, r.value)
    ensures r.None? ==> forall e :: !BlockAt(s, 0, e) && !BlockAt(s, 1, e)
  {
    if 3 <= |s| && s[1] == '/' && s[2] == '*' && FindClose(s, 3).Some? then FindClose(s, 3)
    else if 2 <= |s| && s[0] == '/' && s[1] == '*' then FindClose(s, 2)
    else None
  }

  /**
   * The new content of a source file: a leading block comment (after at most one character)
   * is replaced by the expected text, otherwise the expected text and a newline go first.
   */
  function Correct(content: string, pattern: string): (r: string)
    ensures |pattern| <= |r| && r[..|pattern|] == pattern
    ensures Contains(r, pattern)
    ensures LeadingBlockEnd(content).Some? ==> r[|pattern|..] == content[LeadingBlockEnd(content).value..]
    ensures LeadingBlockEnd(content).None? ==> r[|pattern|..] == "\n" + content
  {
    var r := match LeadingBlockEnd(content)
      case Some(e) => pattern + content[e..]
      case None => pattern + "\n" + content;
    assert r[..|pattern|] == pattern;
    assert OccursAt(r, pattern, 0);
    r
  }

  /** The verdict of `check_copyright` on the content of a file. */
  datatype Verdict = Compliant | NoAllowedLicense | MalformedCopyright | Aborted(error: Error)

  predicate AnyOccurs(content: string, names: seq<string>) {
    exists i | 0 <= i < |names| :: Contains(content, names[i])
  }

  /** The three header tests of `check_copyright`, given the expected copyright text. */
  function CheckHeader(content: string, job: Rule, pattern: string): Verdict {
    if AllowedKey !in job then Aborted(KeyMissing(AllowedKey))
    else if !AnyOccurs(content, Items(job[AllowedKey])) then NoAllowedLicense
    else
      match StringKey(job, LicenseKey)
      case Err(e) => Aborted(e)
      case Ok(name) =>
        if LicenseMentioned(content, name) && !Contains(content, pattern) then MalformedCopyright
        else Compliant
  }

  /**
   * A source file corrected with an expected text that itself names an allowed license
   * passes the header tests afterwards.
   */
  lemma CorrectedHeaderPasses(content: string, job: Rule, pattern: string, i: nat)
    requires AllowedKey in job && StringKey(job, LicenseKey).Ok?
    requires i < |Items(job[AllowedKey])| && Contains(pattern, Items(job[AllowedKey])[i])
    ensures CheckHeader(Correct(content, pattern), job, pattern) == Compliant
  {
    var r := Correct(content, pattern);
    ContainsTransitive(r, pattern, Items(job[AllowedKey])[i]);
    assert AnyOccurs(r, Items(job[AllowedKey]));
  }

  /**
   * A LICENSE file rewritten to the expected text and a newline is judged the right license,
   * exactly formatted, provided the expected text names the license.
   */
  lemma RewrittenLicenseIsExact(job: Rule, year: nat)
    requires LicenseFileText(job, year).Ok?
    requires LicenseKey in job ==> job[LicenseKey].Str?
    requires Contains(LicenseFileText(job, year).value, if LicenseKey in job then job[LicenseKey].s else "")
    ensures JudgeLicense(job, LicenseFileText(job, year).value + "\n", year) == Ok(RightLicense(true))
  {
    var text := LicenseFileText(job, year).value;
    ContainsWithin([], text, "\n", if LicenseKey in job then job[LicenseKey].s else "");
    assert [] + text + "\n" == text + "\n";
    StripNewline(text);
  }
}
