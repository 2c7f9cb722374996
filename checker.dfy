/**
 * The license checker: the upward search for a LICENSE file, the per-file copyright check,
 * the correction of a file, and the run over the given paths, with the state the checker
 * accumulates (the overall result and the three sets of failing paths).
 *
 * The file system is a map from the path of every regular file to its content and a set of
 * directory paths; what `os.walk` yields under a directory is given with it, as the
 * (directory, file name) pairs of its walk, in its order.
 */
module Checker {
  import opened Outcomes
  import opened Text
  import opened Rules
  import opened Paths
  import opened Headers
  import Glob

  const LicenseFileName := "LICENSE"
  /** The source extensions the checker looks at; the order carries no meaning. */
  const SourceExtensions: seq<string> := [".c", ".cpp", ".h", ".cc", ".hpp", ".hxx", ".hh"]

  function LicensePath(dir: string): string {
    Join(dir, LicenseFileName)
  }

  /** The directory holds a `.git` directory. */
  predicate IsRepoRoot(dirs: set<string>, dir: string) {
    Join(dir, ".git") in dirs
  }

  /** The directory matches every include pattern of the effective rule. */
  predicate InScope(dir: string, pats: seq<string>) {
    forall i | 0 <= i < |pats| :: Glob.Match(dir, pats[i])
  }

  /** The directory has a LICENSE file that is not yet known to be malformed. */
  predicate Available(files: map<string, string>, invalid: set<string>, dir: string) {
    LicensePath(dir) in files && LicensePath(dir) !in invalid
  }

  /**
   * The directories the search loop of `check_license_file` visits when it finds no LICENSE,
   * from `dir` upward; `leaving` is the one-shot flag set on leaving the include scope.
   */
  function Trail(dirs: set<string>, pats: seq<string>, dir: string, leaving: bool): seq<string>
    decreases |dir|
  {
    if Dirname(dir) == dir then []
    else if leaving || IsRepoRoot(dirs, dir) then [dir]
    else [dir] + Trail(dirs, pats, Dirname(dir), !InScope(dir, pats))
  }

  /** The LICENSE file the search loop of `check_license_file` stops at, if any. */
  function FindLicense(files: map<string, string>, dirs: set<string>, invalid: set<string>,
                       pats: seq<string>, dir: string, leaving: bool): (r: Option<string>)
    ensures r.Some? ==> r.value in files && r.value !in invalid
    decreases |dir|
  {
    if Dirname(dir) == dir then None
    else if Available(files, invalid, dir) then Some(LicensePath(dir))
    else if leaving || IsRepoRoot(dirs, dir) then None
    else FindLicense(files, dirs, invalid, pats, Dirname(dir), !InScope(dir, pats))
  }

  /** The position of the first directory of `trail` with an available LICENSE, or `|trail|`. */
  function FirstAvailable(files: map<string, string>, invalid: set<string>, trail: seq<string>): (k: nat)
    ensures k <= |trail|
    ensures k < |trail| ==> Available(files, invalid, trail[k])
  {
    if trail == [] then 0
    else if Available(files, invalid, trail[0]) then 0
    else 1 + FirstAvailable(files, invalid, trail[1..])
  }

  /** No directory before that position has an available LICENSE. */
  lemma {:induction false} FirstAvailableSpec(files: map<string, string>, invalid: set<string>, trail: seq<string>)
    ensures var k := FirstAvailable(files, invalid, trail);
      forall j :: 0 <= j < k ==> !Available(files, invalid, trail[j])
  {
    if trail != [] && !Available(files, invalid, trail[0]) {
      FirstAvailableSpec(files, invalid, trail[1..]);
      assert forall j :: 1 <= j < |trail| ==> trail[j] == trail[1..][j - 1];
    }
  }

  /** The LICENSE of the first directory of `trail` that has an available one. */
  function FirstOnTrail(files: map<string, string>, invalid: set<string>, trail: seq<string>): Option<string> {
    if trail == [] then None
    else if Available(files, invalid, trail[0]) then Some(LicensePath(trail[0]))
    else FirstOnTrail(files, invalid, trail[1..])
  }

  lemma {:induction false} FirstOnTrailIndex(files: map<string, string>, invalid: set<string>, trail: seq<string>)
    ensures var k := FirstAvailable(files, invalid, trail);
      FirstOnTrail(files, invalid, trail) == if k < |trail| then Some(LicensePath(trail[k])) else None
  {
    if trail != [] && !Available(files, invalid, trail[0]) {
      FirstOnTrailIndex(files, invalid, trail[1..]);
      var k := FirstAvailable(files, invalid, trail[1..]);
      assert k < |trail[1..]| ==> trail[k + 1] == trail[1..][k];
    }
  }

  /** The search loop and the first available LICENSE of the trail agree. */
  lemma {:induction false} FindLicenseFollowsTrail(files: map<string, string>, dirs: set<string>, invalid: set<string>,
                                                   pats: seq<string>, dir: string, leaving: bool)
    ensures FindLicense(files, dirs, invalid, pats, dir, leaving) == FirstOnTrail(files, invalid, Trail(dirs, pats, dir, leaving))
    decreases |dir|
  {
    if Dirname(dir) != dir {
      var next := !InScope(dir, pats);
      var rest := if leaving || IsRepoRoot(dirs, dir) then [] else Trail(dirs, pats, Dirname(dir), next);
      TrailStep(dirs, pats, dir, leaving);
      FindLicenseStep(files, dirs, invalid, pats, dir, leaving);
      FirstOnTrailCons(files, invalid, dir, rest);
      if !Available(files, invalid, dir) && !leaving && !IsRepoRoot(dirs, dir) {
        FindLicenseFollowsTrail(files, dirs, invalid, pats, Dirname(dir), next);
      }
    }
  }

  /**
   * The search examines the directories of the trail in order and stops at the first one
   * with a LICENSE file that is not in the invalid set; paths in that set are climbed past.
   */
  lemma FindLicenseOnTrail(files: map<string, string>, dirs: set<string>, invalid: set<string>,
                           pats: seq<string>, dir: string, leaving: bool)
    ensures var t := Trail(dirs, pats, dir, leaving);
      var k := FirstAvailable(files, invalid, t);
      FindLicense(files, dirs, invalid, pats, dir, leaving) == if k < |t| then Some(LicensePath(t[k])) else None
  {
    FindLicenseFollowsTrail(files, dirs, invalid, pats, dir, leaving);
    FirstOnTrailIndex(files, invalid, Trail(dirs, pats, dir, leaving));
  }

  lemma FindLicenseStep(files: map<string, string>, dirs: set<string>, invalid: set<string>,
                        pats: seq<string>, dir: string, leaving: bool)
    requires Dirname(dir) != dir
    ensures FindLicense(files, dirs, invalid, pats, dir, leaving)
         == if Available(files, invalid, dir) then Some(LicensePath(dir))
            else if leaving || IsRepoRoot(dirs, dir) then None
            else FindLicense(files, dirs, invalid, pats, Dirname(dir), !InScope(dir, pats))
  {
  }

  /** One step of the search below a fixed point of dirname. */
  lemma TrailStep(dirs: set<string>, pats: seq<string>, dir: string, leaving: bool)
    requires Dirname(dir) != dir
    ensures Trail(dirs, pats, dir, leaving)
         == [dir] + if leaving || IsRepoRoot(dirs, dir) then [] else Trail(dirs, pats, Dirname(dir), !InScope(dir, pats))
  {
  }

  lemma FirstOnTrailCons(files: map<string, string>, invalid: set<string>, dir: string, rest: seq<string>)
    ensures FirstOnTrail(files, invalid, [dir] + rest)
         == if Available(files, invalid, dir) then Some(LicensePath(dir)) else FirstOnTrail(files, invalid, rest)
  {
    assert ([dir] + rest)[1..] == rest;
  }

  /**
   * The search starts at the given directory unless that is a fixed point of dirname, climbs
   * one parent at a time, and never examines a fixed point of dirname.
   */
  lemma {:induction false} TrailClimbs(dirs: set<string>, pats: seq<string>, dir: string, leaving: bool)
    ensures var t := Trail(dirs, pats, dir, leaving);
      && (t != [] <==> Dirname(dir) != dir)
      && (t != [] ==> t[0] == dir)
      && (forall i :: 0 <= i < |t| - 1 ==> t[i + 1] == Dirname(t[i]))
      && (forall i :: 0 <= i < |t| ==> Dirname(t[i]) != t[i])
    decreases |dir|
  {
    if Dirname(dir) != dir && !leaving && !IsRepoRoot(dirs, dir) {
      var next := !InScope(dir, pats);
      var rest := Trail(dirs, pats, Dirname(dir), next);
      TrailClimbs(dirs, pats, Dirname(dir), next);
      assert forall i :: 1 <= i < |rest| + 1 ==> ([dir] + rest)[i] == rest[i - 1];
    }
  }

  /** No directory of `t` but possibly the last is a repository root. */
  predicate BelowRoot(dirs: set<string>, t: seq<string>) {
    forall i :: 0 <= i < |t| - 1 ==> !IsRepoRoot(dirs, t[i])
  }

  /** At most one directory of `t` follows the first one outside the include scope. */
  predicate LeavesOnce(pats: seq<string>, t: seq<string>) {
    forall i :: 0 <= i < |t| ==> !InScope(t[i], pats) ==> |t| <= i + 2
  }

  /**
   * The search never climbs above a repository root (whose own LICENSE is still examined),
   * and examines at most one directory after the first one outside the include scope.
   */
  lemma {:induction false} TrailStops(dirs: set<string>, pats: seq<string>, dir: string, leaving: bool)
    ensures BelowRoot(dirs, Trail(dirs, pats, dir, leaving))
    ensures LeavesOnce(pats, Trail(dirs, pats, dir, leaving))
    ensures leaving ==> |Trail(dirs, pats, dir, leaving)| <= 1
    decreases |dir|
  {
    var t := Trail(dirs, pats, dir, leaving);
    if Dirname(dir) != dir && !leaving && !IsRepoRoot(dirs, dir) {
      var next := !InScope(dir, pats);
      var rest := Trail(dirs, pats, Dirname(dir), next);
      TrailStops(dirs, pats, Dirname(dir), next);
      assert t == [dir] + rest;
      forall i | 0 <= i < |t| - 1
        ensures !IsRepoRoot(dirs, t[i])
      {
        if i > 0 {
          assert t[i] == rest[i - 1];
        }
      }
      forall i | 0 <= i < |t| && !InScope(t[i], pats)
        ensures |t| <= i + 2
      {
        if i > 0 {
          assert t[i] == rest[i - 1];
        }
      }
    }
  }

  /**
   * The loop has a reason to end after the last directory `d` of the non-empty trail `t`: the
   * parent of `d` is a fixed point of dirname, `d` holds `.git`, or the flag was already set
   * on reaching `d` because the directory before it lies outside the include scope.
   */
  predicate EndsAtLast(dirs: set<string>, pats: seq<string>, t: seq<string>, leaving: bool)
    requires t != []
  {
    var d := t[|t| - 1];
    || Dirname(Dirname(d)) == Dirname(d)
    || IsRepoRoot(dirs, d)
    || (|t| == 1 && leaving)
    || (|t| >= 2 && !InScope(t[|t| - 2], pats))
  }

  /** The search does not stop early: it ends only for one of the reasons of the loop. */
  lemma {:induction false} TrailEnds(dirs: set<string>, pats: seq<string>, dir: string, leaving: bool)
    ensures Trail(dirs, pats, dir, leaving) != [] ==> EndsAtLast(dirs, pats, Trail(dirs, pats, dir, leaving), leaving)
    decreases |dir|
  {
    if Dirname(dir) != dir && !leaving && !IsRepoRoot(dirs, dir) {
      var t := Trail(dirs, pats, dir, leaving);
      var next := !InScope(dir, pats);
      var rest := Trail(dirs, pats, Dirname(dir), next);
      TrailStep(dirs, pats, dir, leaving);
      TrailEnds(dirs, pats, Dirname(dir), next);
      if rest != [] {
        EndsAtLastCons(dirs, pats, dir, rest, leaving);
      }
    }
  }

  lemma EndsAtLastCons(dirs: set<string>, pats: seq<string>, dir: string, rest: seq<string>, leaving: bool)
    requires rest != [] && EndsAtLast(dirs, pats, rest, !InScope(dir, pats))
    ensures EndsAtLast(dirs, pats, [dir] + rest, leaving)
  {
    var t := [dir] + rest;
    assert t[|t| - 1] == rest[|rest| - 1];
    assert t[|t| - 2] == if |rest| == 1 then dir else rest[|rest| - 2];
  }

  /** The result of `check_license_file` with the invalid LICENSE set and `check_result` it leaves. */
  datatype LicenseOutcome = LicenseOutcome(result: Result<bool>, invalid: set<string>, checkResult: bool)

  /**
   * `check_license_file`: at most the LICENSE it stops at is added to the invalid set, and
   * `check_result` is cleared exactly when one is added.
   */
  function LicenseCheck(files: map<string, string>, dirs: set<string>, invalid: set<string>, ok: bool,
                        job: Rule, filePath: string, year: nat): (r: LicenseOutcome)
    ensures invalid <= r.invalid && |r.invalid - invalid| <= 1
    ensures r.checkResult == (ok && r.invalid == invalid)
  {
    match FindLicense(files, dirs, invalid, IncludePatterns(job), Dirname(filePath), false)
    case None => LicenseOutcome(Ok(false), invalid, ok)
    case Some(path) => LicenseJudged(files, invalid, ok, job, path, year)
  }

  /** What `check_license_file` does with the LICENSE file it stops at. */
  function LicenseJudged(files: map<string, string>, invalid: set<string>, ok: bool,
                         job: Rule, path: string, year: nat): (r: LicenseOutcome)
    requires path in files && path !in invalid
    ensures invalid <= r.invalid && |r.invalid - invalid| <= 1
    ensures r.checkResult == (ok && r.invalid == invalid)
  {
    match JudgeLicense(job, files[path], year)
    case Err(e) => LicenseOutcome(Err(e), invalid, ok)
    case Ok(WrongLicense) => LicenseOutcome(Ok(false), invalid, ok)
    case Ok(RightLicense(exact)) =>
      if exact then LicenseOutcome(Ok(true), invalid, ok)
      else
        assert (invalid + {path}) - invalid == {path};
        LicenseOutcome(Ok(true), invalid + {path}, false)
  }

  /**
   * `check_license_file` judges the first directory of its trail with a LICENSE file that is
   * not already invalid: without one it returns False; a LICENSE that does not contain the
   * expected license name gives False; one that contains it gives True, and joins the invalid
   * set, clearing `check_result`, exactly when its stripped text differs from the expected
   * LICENSE text. A list-valued name or an expected text that cannot be built is an error.
   */
  lemma LicenseCheckSpec(files: map<string, string>, dirs: set<string>, invalid: set<string>, ok: bool,
                         job: Rule, filePath: string, year: nat)
    ensures var r := LicenseCheck(files, dirs, invalid, ok, job, filePath, year);
      var t := Trail(dirs, IncludePatterns(job), Dirname(filePath), false);
      var k := FirstAvailable(files, invalid, t);
      var name := if LicenseKey in job then job[LicenseKey] else Str("");
      var named := k < |t| && name.Str? && Contains(files[LicensePath(t[k])], name.s);
      && (k == |t| ==> r == LicenseOutcome(Ok(false), invalid, ok))
      && (k < |t| && name.List? ==> r == LicenseOutcome(Err(NotAString(LicenseKey)), invalid, ok))
      && (k < |t| && name.Str? && !named ==> r == LicenseOutcome(Ok(false), invalid, ok))
      && (named && LicenseFileText(job, year).Err? ==> r == LicenseOutcome(Err(LicenseFileText(job, year).error), invalid, ok))
      && (named && LicenseFileText(job, year).Ok? ==>
            var exact := Strip(LicenseFileText(job, year).value) == Strip(files[LicensePath(t[k])]);
            r == LicenseOutcome(Ok(true), if exact then invalid else invalid + {LicensePath(t[k])}, ok && exact))
  {
    FindLicenseOnTrail(files, dirs, invalid, IncludePatterns(job), Dirname(filePath), false);
  }

  /** What `get_copyright_pattern` returns after its call to `check_license_file`. */
  function PatternOutcome(job: Rule, license: Result<bool>, year: nat): Result<Option<(bool, string)>> {
    match license
    case Err(e) => Err(e)
    case Ok(short) =>
      match ExpectedCopyright(job, short, year)
      case Err(e) => Err(e)
      case Ok(pattern) => Ok(Some((short, pattern)))
  }

  /** The verdict of `check_copyright` on a file that resolves to an effective rule. */
  function CopyrightVerdict(content: string, job: Rule, license: Result<bool>, year: nat): Verdict {
    match PatternOutcome(job, license, year)
    case Err(e) => Aborted(e)
    case Ok(p) => if p.Some? then CheckHeader(content, job, p.value.1) else Compliant
  }

  /** A verdict that puts the file into one of the two copyright failure sets. */
  predicate Recorded(v: Verdict) {
    v == NoAllowedLicense || v == MalformedCopyright
  }

  /**
   * The files after `replace_copyright` wrote the file at `path` (nothing is written when it
   * cannot be read or the LICENSE text cannot be built): a LICENSE file gets the expected
   * LICENSE text and a newline, any other file the correction of its header.
   */
  function Rewritten(files: map<string, string>, path: string, job: Rule, pattern: string, year: nat)
    : (r: map<string, string>)
    ensures r.Keys == files.Keys
    ensures forall q :: q in files && q != path ==> r[q] == files[q]
    ensures path in files && Basename(path) != LicenseFileName ==> r[path] == Correct(files[path], pattern)
    ensures path in files && Basename(path) != LicenseFileName ==> Contains(r[path], pattern)
    ensures path in files && Basename(path) == LicenseFileName && LicenseFileText(job, year).Ok?
      ==> r[path] == LicenseFileText(job, year).value + "\n"
    ensures LicenseFileText(job, year).Err? && Basename(path) == LicenseFileName ==> r == files
  {
    if path !in files then files
    else if Basename(path) == LicenseFileName then
      match LicenseFileText(job, year)
      case Ok(text) => files[path := text + "\n"]
      case Err(_) => files
    else files[path := Correct(files[path], pattern)]
  }

  /** `ext` is one of `exts`. */
  predicate OneOf(ext: string, exts: seq<string>)
    decreases |exts|
  {
    exts != [] && (exts[0] == ext || OneOf(ext, exts[1..]))
  }

  lemma {:induction false} OneOfIndex(ext: string, exts: seq<string>)
    ensures OneOf(ext, exts) <==> exists i | 0 <= i < |exts| :: exts[i] == ext
    decreases |exts|
  {
    if exts != [] {
      OneOfIndex(ext, exts[1..]);
      if exists i | 0 <= i < |exts| :: exts[i] == ext {
        var i :| 0 <= i < |exts| && exts[i] == ext;
        if i > 0 {
          assert exts[1..][i - 1] == ext;
        }
      }
      if OneOf(ext, exts[1..]) {
        var i :| 0 <= i < |exts[1..]| && exts[1..][i] == ext;
        assert exts[i + 1] == ext;
      }
    }
  }

  /** `get_file_in_directory`'s test on a file name: its extension, lower-cased, is a source extension. */
  predicate HasSourceExtension(name: string) {
    OneOf(Lower(Extension(name)), SourceExtensions)
  }

  /** `process`'s test on a path given directly: it ends with a source extension, case-sensitively. */
  predicate EndsWithSourceExtension(path: string) {
    exists i | 0 <= i < |SourceExtensions| :: EndsWith(path, SourceExtensions[i])
  }

  /** A suffix made of a dot and dot-free text, after a name's first character, is its extension. */
  lemma ExtensionOfSuffix(name: string, ext: string)
    requires |ext| < |name| && name[|name| - |ext|..] == ext
    requires name[0] != '.' && forall k :: 0 <= k < |name| ==> name[k] != '/'
    requires ext != [] && ext[0] == '.' && forall k :: 1 <= k < |ext| ==> ext[k] != '.'
    ensures Extension(name) == ext
  {
    var d := |name| - |ext|;
    assert name[d] == ext[0];
    assert forall k :: d < k < |name| ==> name[k] == ext[k - d];
    assert LastIndex(name, '.') == d;
  }

  /** A dot followed by lower-case letters. */
  predicate PlainExtension(ext: string) {
    ext != [] && ext[0] == '.' && forall k :: 1 <= k < |ext| ==> 'a' <= ext[k] <= 'z'
  }

  lemma SourceExtensionsPlain()
    ensures forall i | 0 <= i < |SourceExtensions| :: PlainExtension(SourceExtensions[i])
  {
  }

  lemma LowerPlain(ext: string)
    requires PlainExtension(ext)
    ensures Lower(ext) == ext
  {
  }

  /**
   * The two extension tests of `process` agree on a plain file name that does not start with
   * a dot: a name given directly and accepted is also accepted when listed under a directory.
   */
  lemma SourceExtensionTests(name: string)
    requires name != [] && name[0] != '.'
    requires forall k :: 0 <= k < |name| ==> name[k] != '/'
    ensures EndsWithSourceExtension(name) ==> HasSourceExtension(name)
  {
    if EndsWithSourceExtension(name) {
      var i :| 0 <= i < |SourceExtensions| && EndsWith(name, SourceExtensions[i]);
      var ext := SourceExtensions[i];
      SourceExtensionsPlain();
      assert PlainExtension(ext);
      assert name[|name| - |ext|..] == ext;
      assert name[|name| - |ext|] == ext[0] == '.';
      ExtensionOfSuffix(name, ext);
      LowerPlain(ext);
      OneOfIndex(ext, SourceExtensions);
    }
  }

  /** The two tests differ on case: a listed "X.C" is checked, the same path given directly is not. */
  lemma SourceExtensionTestsDiffer()
    ensures HasSourceExtension("X.C") && !EndsWithSourceExtension("X.C")
  {
    ExtensionOfSuffix("X.C", ".C");
    assert Lower(".C") == ".c" == SourceExtensions[0];
    forall i | 0 <= i < |SourceExtensions|
      ensures !EndsWith("X.C", SourceExtensions[i])
    {
      var ext := SourceExtensions[i];
      if |ext| <= 3 {
        assert "X.C"[3 - |ext|..][|ext| - 1] == 'C' != ext[|ext| - 1];
      }
    }
  }

  /** A file `os.walk` yields: the directory it was found in and its name. */
  type Entry = (string, string)

  /** The files `os.walk` yields under a directory, in its order. */
  function Listing(walk: map<string, seq<Entry>>, dir: string): seq<Entry> {
    if dir in walk then walk[dir] else []
  }

  /** `get_file_in_directory`'s result for a walk: the joined paths of the source files, in walk order. */
  function SourceFiles(listed: seq<Entry>): seq<string> {
    if listed == [] then []
    else
      var (root, name) := listed[|listed| - 1];
      SourceFiles(listed[..|listed| - 1]) + if HasSourceExtension(name) then [Join(root, name)] else []
  }

  /** Every source file of the walk is kept, and everything kept is a source file of the walk. */
  lemma {:induction false} SourceFilesKept(listed: seq<Entry>)
    ensures forall e :: e in listed && HasSourceExtension(e.1) ==> Join(e.0, e.1) in SourceFiles(listed)
    ensures forall x :: x in SourceFiles(listed) ==>
      exists e :: e in listed && HasSourceExtension(e.1) && x == Join(e.0, e.1)
  {
    if listed != [] {
      var init, last := listed[..|listed| - 1], listed[|listed| - 1];
      SourceFilesKept(init);
      assert listed == init + [last];
      assert forall e :: e in listed <==> e in init || e == last;
    }
  }

  lemma SourceFilesStep(listed: seq<Entry>, j: nat)
    requires j < |listed|
    ensures SourceFiles(listed[..j + 1])
         == SourceFiles(listed[..j]) + if HasSourceExtension(listed[j].1) then [Join(listed[j].0, listed[j].1)] else []
  {
    assert listed[..j + 1][..j] == listed[..j];
  }

  /** A path on which `process` stops: a LICENSE file given directly. */
  predicate StopsAt(files: map<string, string>, dirs: set<string>, path: string) {
    path !in dirs && path in files && !EndsWithSourceExtension(path) && Basename(path) == LicenseFileName
  }

  /** The files `process` checks for one given path. */
  function PathFiles(files: map<string, string>, dirs: set<string>, walk: map<string, seq<Entry>>,
                     path: string): seq<string>
  {
    if path in dirs then SourceFiles(Listing(walk, path))
    else if path in files && EndsWithSourceExtension(path) then [path]
    else []
  }

  /** The files `process` checks for the given paths, in order. */
  function ToCheck(files: map<string, string>, dirs: set<string>, walk: map<string, seq<Entry>>,
                   paths: seq<string>): seq<string>
  {
    if paths == [] then []
    else ToCheck(files, dirs, walk, paths[..|paths| - 1]) + PathFiles(files, dirs, walk, paths[|paths| - 1])
  }

  lemma ToCheckStep(files: map<string, string>, dirs: set<string>, walk: map<string, seq<Entry>>,
                    paths: seq<string>, i: nat)
    requires i < |paths|
    ensures ToCheck(files, dirs, walk, paths[..i + 1])
         == ToCheck(files, dirs, walk, paths[..i]) + PathFiles(files, dirs, walk, paths[i])
  {
    assert paths[..i + 1][..i] == paths[..i];
  }

  /** The position of the first given path on which `process` stops, or `|paths|`. */
  function FirstStop(files: map<string, string>, dirs: set<string>, paths: seq<string>): (k: nat)
    ensures k <= |paths|
    ensures k < |paths| ==> StopsAt(files, dirs, paths[k])
  {
    if paths == [] then 0
    else if StopsAt(files, dirs, paths[0]) then 0
    else 1 + FirstStop(files, dirs, paths[1..])
  }

  /** `process` stops at the first LICENSE file given directly: none comes before that position. */
  lemma {:induction false} FirstStopSpec(files: map<string, string>, dirs: set<string>, paths: seq<string>)
    ensures forall j :: 0 <= j < FirstStop(files, dirs, paths) ==> !StopsAt(files, dirs, paths[j])
  {
    if paths != [] && !StopsAt(files, dirs, paths[0]) {
      FirstStopSpec(files, dirs, paths[1..]);
      assert forall j :: 1 <= j < |paths| ==> paths[j] == paths[1..][j - 1];
    }
  }

  /** What the checker reads and does not change while it checks files. */
  datatype Inputs = Inputs(config: RuleSet, files: map<string, string>, dirs: set<string>, year: nat)

  /** The part of the checker's state that checking a file changes. */
  datatype CheckerState = CheckerState(jobConfig: Option<Rule>, checkResult: bool, invalidLicense: set<string>,
                                       invalidFull: set<string>, invalidShort: set<string>)

  /**
   * `check_copyright(path)` from the state `s`: the new state and the result. A file that
   * cannot be read fails and changes nothing; an ignored file passes; otherwise the LICENSE
   * search runs and a file whose header fails joins the failure set of its template.
   */
  function CopyrightCheck(env: Inputs, s: CheckerState, path: string): (CheckerState, bool) {
    if path !in env.files then (s, false)
    else
      match GetConfig(env.config, path)
      case None => (s.(jobConfig := None), true)
      case Some(job) =>
        var lc := LicenseCheck(env.files, env.dirs, s.invalidLicense, s.checkResult, job, path, env.year);
        var v := CopyrightVerdict(env.files[path], job, lc.result, env.year);
        (CheckerState(Some(job), lc.checkResult, lc.invalid,
                      if Recorded(v) && lc.result == Ok(false) then s.invalidFull + {path} else s.invalidFull,
                      if Recorded(v) && lc.result == Ok(true) then s.invalidShort + {path} else s.invalidShort),
         v == Compliant)
  }

  /** `check_copyright(path)` on a file with effective rule `job`, given its LICENSE outcome and verdict. */
  lemma CopyrightCheckOf(env: Inputs, s: CheckerState, path: string, job: Rule, lc: LicenseOutcome, v: Verdict)
    requires path in env.files && GetConfig(env.config, path) == Some(job)
    requires lc == LicenseCheck(env.files, env.dirs, s.invalidLicense, s.checkResult, job, path, env.year)
    requires v == CopyrightVerdict(env.files[path], job, lc.result, env.year)
    ensures CopyrightCheck(env, s, path)
         == (CheckerState(Some(job), lc.checkResult, lc.invalid,
                          if Recorded(v) && lc.result == Ok(false) then s.invalidFull + {path} else s.invalidFull,
                          if Recorded(v) && lc.result == Ok(true) then s.invalidShort + {path} else s.invalidShort),
             v == Compliant)
  {
  }

  /**
   * A check never sets `check_result` again, clears it exactly when a LICENSE joins the invalid
   * set, and adds at most the checked file to at most one copyright failure set, and to none
   * when the file passes.
   */
  lemma CopyrightCheckSpec(env: Inputs, s: CheckerState, path: string)
    ensures var (t, ok) := CopyrightCheck(env, s, path);
      && t.checkResult == (s.checkResult && t.invalidLicense == s.invalidLicense)
      && s.invalidLicense <= t.invalidLicense && |t.invalidLicense - s.invalidLicense| <= 1
      && s.invalidFull <= t.invalidFull <= s.invalidFull + {path}
      && s.invalidShort <= t.invalidShort <= s.invalidShort + {path}
      && (t.invalidFull == s.invalidFull || t.invalidShort == s.invalidShort)
      && (ok ==> t.invalidFull == s.invalidFull && t.invalidShort == s.invalidShort)
  {
  }

  /** One step of `process`: `check_copyright(path)`, then `check_result` cleared when it failed. */
  function FileStep(env: Inputs, s: CheckerState, path: string): (CheckerState, bool) {
    var (t, ok) := CopyrightCheck(env, s, path);
    (if ok then t else t.(checkResult := false), ok)
  }

  /** The state after the steps of `process` for `paths`, in order, and the result of each check. */
  function CheckRun(env: Inputs, s: CheckerState, paths: seq<string>): (r: (CheckerState, seq<bool>))
    ensures |r.1| == |paths|
  {
    if paths == [] then (s, [])
    else
      var before := CheckRun(env, s, paths[..|paths| - 1]);
      var last := FileStep(env, before.0, paths[|paths| - 1]);
      (last.0, before.1 + [last.1])
  }

  lemma CheckRunStep(env: Inputs, s: CheckerState, paths: seq<string>, j: nat)
    requires j < |paths|
    ensures var before := CheckRun(env, s, paths[..j]);
      var last := FileStep(env, before.0, paths[j]);
      CheckRun(env, s, paths[..j + 1]) == (last.0, before.1 + [last.1])
  {
    assert paths[..j + 1][..j] == paths[..j];
  }

  /** Checking a single file is one step of `process`. */
  lemma CheckRunOne(env: Inputs, s: CheckerState, path: string)
    ensures CheckRun(env, s, [path]) == (FileStep(env, s, path).0, [FileStep(env, s, path).1])
  {
    assert [path][..0] == [];
    assert [] + [FileStep(env, s, path).1] == [FileStep(env, s, path).1];
  }

  /** Checking `a + b` is checking `a`, then checking `b` from the state that left. */
  lemma {:induction false} CheckRunAppend(env: Inputs, s: CheckerState, a: seq<string>, b: seq<string>)
    ensures var first := CheckRun(env, s, a);
      var second := CheckRun(env, first.0, b);
      CheckRun(env, s, a + b) == (second.0, first.1 + second.1)
    decreases |b|
  {
    if b == [] {
      assert a + b == a;
      assert CheckRun(env, s, a).1 + [] == CheckRun(env, s, a).1;
    } else {
      var b0 := b[..|b| - 1];
      CheckRunAppend(env, s, a, b0);
      assert (a + b)[..|a + b| - 1] == a + b0;
      assert (a + b)[|a + b| - 1] == b[|b| - 1];
      var first := CheckRun(env, s, a);
      var mid := CheckRun(env, first.0, b0);
      var last := FileStep(env, mid.0, b[|b| - 1]);
      assert first.1 + mid.1 + [last.1] == first.1 + (mid.1 + [last.1]);
    }
  }

  /**
   * The checking loop of `process` keeps `check_result` set exactly when it started set, every
   * check passed and no LICENSE joined the invalid set; the failure sets only grow.
   */
  lemma {:induction false} CheckRunSpec(env: Inputs, s: CheckerState, paths: seq<string>)
    ensures var r := CheckRun(env, s, paths);
      && r.0.checkResult == (s.checkResult && false !in r.1 && r.0.invalidLicense == s.invalidLicense)
      && s.invalidLicense <= r.0.invalidLicense
      && s.invalidFull <= r.0.invalidFull
      && s.invalidShort <= r.0.invalidShort
    decreases |paths|
  {
    if paths != [] {
      var init := paths[..|paths| - 1];
      var before := CheckRun(env, s, init);
      CheckRunSpec(env, s, init);
      CopyrightCheckSpec(env, before.0, paths[|paths| - 1]);
      var last := FileStep(env, before.0, paths[|paths| - 1]);
      Squeeze(s.invalidLicense, before.0.invalidLicense, last.0.invalidLicense);
      assert (false in before.1 + [last.1]) == (false in before.1 || !last.1);
    }
  }

  /** The `j`-th result of the checking loop is the check of `paths[j]` in the state the earlier checks left. */
  lemma CheckRunVerdict(env: Inputs, s: CheckerState, paths: seq<string>, j: nat)
    requires j < |paths|
    ensures CheckRun(env, s, paths).1[j] == CopyrightCheck(env, CheckRun(env, s, paths[..j]).0, paths[j]).1
  {
    CheckRunAppend(env, s, paths[..j + 1], paths[j + 1..]);
    assert paths[..j + 1] + paths[j + 1..] == paths;
    CheckRunStep(env, s, paths, j);
  }

  /** A set between two others equals the outer one exactly when all three are equal. */
  lemma Squeeze(a: set<string>, b: set<string>, c: set<string>)
    requires a <= b <= c
    ensures (c == a) == (b == a && c == b)
  {
  }

  class LicenseChecker {
    const config: RuleSet
    const newFiles: seq<string>
    const year: nat
    const dirs: set<string>
    const walk: map<string, seq<Entry>>
    var files: map<string, string>
    var jobConfig: Option<Rule>
    var checkResult: bool
    var invalidLicenseFiles: set<string>
    var invalidCopyrightFull: set<string>
    var invalidCopyrightShort: set<string>

    /** A checker over the given configuration and paths; nothing has failed yet. */
    constructor (config: RuleSet, newFiles: seq<string>, year: nat,
                 files: map<string, string>, dirs: set<string>, walk: map<string, seq<Entry>>)
      ensures this.config == config && this.newFiles == newFiles && this.year == year
      ensures this.files == files && this.dirs == dirs && this.walk == walk
      ensures jobConfig == None && checkResult
      ensures invalidLicenseFiles == {} && invalidCopyrightFull == {} && invalidCopyrightShort == {}
    {
      this.config := config;
      this.newFiles := newFiles;
      this.year := year;
      this.files := files;
      this.dirs := dirs;
      this.walk := walk;
      jobConfig := None;
      checkResult := true;
      invalidLicenseFiles := {};
      invalidCopyrightFull := {};
      invalidCopyrightShort := {};
    }

    /** `check_result` is only ever cleared, and the failure sets only ever grow. */
    twostate predicate Monotone()
      reads this
    {
      && (checkResult ==> old(checkResult))
      && old(invalidLicenseFiles) <= invalidLicenseFiles
      && old(invalidCopyrightFull) <= invalidCopyrightFull
      && old(invalidCopyrightShort) <= invalidCopyrightShort
    }

    /** What checking files reads. */
    function Given(): Inputs
      reads this`files
    {
      Inputs(config, files, dirs, year)
    }

    /** What checking files changes. */
    function State(): CheckerState
      reads this
    {
      CheckerState(jobConfig, checkResult, invalidLicenseFiles, invalidCopyrightFull, invalidCopyrightShort)
    }

    /** `check_license_file(filePath)`, under the effective rule of the current file. */
    method CheckLicenseFile(filePath: string) returns (r: Result<bool>)
      requires jobConfig.Some?
      modifies this`invalidLicenseFiles, this`checkResult
      ensures LicenseOutcome(r, invalidLicenseFiles, checkResult)
           == LicenseCheck(files, dirs, old(invalidLicenseFiles), old(checkResult), jobConfig.value, filePath, year)
      ensures Monotone()
    {
      var job := jobConfig.value;
      var pats := IncludePatterns(job);
      var leaving := false;
      var current := Dirname(filePath);
      ghost var found := FindLicense(files, dirs, invalidLicenseFiles, pats, current, false);
      while current != Dirname(current)
        invariant FindLicense(files, dirs, invalidLicenseFiles, pats, current, leaving) == found
        invariant invalidLicenseFiles == old(invalidLicenseFiles) && checkResult == old(checkResult)
        decreases |current|
      {
        var licensePath := LicensePath(current);
        if licensePath in files && licensePath !in invalidLicenseFiles {
          r := JudgeLicenseFile(licensePath);
          return;
        }
        if leaving {
          break;
        }
        if IsRepoRoot(dirs, current) {
          break;
        }
        if !InScope(current, pats) {
          leaving := true;
        }
        current := Dirname(current);
      }
      return Ok(false);
    }

    /** The body of the search loop of `check_license_file` once it reaches an available LICENSE file. */
    method JudgeLicenseFile(licensePath: string) returns (r: Result<bool>)
      requires jobConfig.Some? && licensePath in files && licensePath !in invalidLicenseFiles
      modifies this`invalidLicenseFiles, this`checkResult
      ensures LicenseOutcome(r, invalidLicenseFiles, checkResult)
           == LicenseJudged(files, old(invalidLicenseFiles), old(checkResult), jobConfig.value, licensePath, year)
    {
      match JudgeLicense(jobConfig.value, files[licensePath], year)
      case Err(e) =>
        r := Err(e);
      case Ok(WrongLicense) =>
        r := Ok(false);
      case Ok(RightLicense(exact)) =>
        if !exact {
          invalidLicenseFiles := invalidLicenseFiles + {licensePath};
          checkResult := false;
        }
        r := Ok(true);
    }

    /** `get_copyright_pattern(filePath)`: resolves the effective rule and the expected copyright text. */
    method GetCopyrightPattern(filePath: string) returns (r: Result<Option<(bool, string)>>)
      modifies this`jobConfig, this`invalidLicenseFiles, this`checkResult
      ensures jobConfig == GetConfig(config, filePath)
      ensures Monotone()
      ensures jobConfig.None? ==>
        r == Ok(None) && invalidLicenseFiles == old(invalidLicenseFiles) && checkResult == old(checkResult)
      ensures jobConfig.Some? ==>
        var lc := LicenseCheck(files, dirs, old(invalidLicenseFiles), old(checkResult), jobConfig.value, filePath, year);
        invalidLicenseFiles == lc.invalid && checkResult == lc.checkResult && r == PatternOutcome(jobConfig.value, lc.result, year)
    {
      jobConfig := GetConfig(config, filePath);
      if jobConfig.None? {
        return Ok(None);
      }
      var license := CheckLicenseFile(filePath);
      match license
      case Err(e) =>
        return Err(e);
      case Ok(short) =>
        match ExpectedCopyright(jobConfig.value, short, year)
        case Err(e) =>
          return Err(e);
        case Ok(pattern) =>
          return Ok(Some((short, pattern)));
    }

    /** `check_copyright(filePath)`: whether the file's header is compliant; a file that cannot be read is not. */
    method CheckCopyright(filePath: string) returns (ok: bool)
      modifies this`jobConfig, this`invalidLicenseFiles, this`checkResult
      modifies this`invalidCopyrightFull, this`invalidCopyrightShort
      ensures Monotone()
      ensures checkResult == (old(checkResult) && invalidLicenseFiles == old(invalidLicenseFiles))
      ensures filePath !in files ==>
        && !ok && jobConfig == old(jobConfig) && checkResult == old(checkResult)
        && invalidLicenseFiles == old(invalidLicenseFiles)
        && invalidCopyrightFull == old(invalidCopyrightFull) && invalidCopyrightShort == old(invalidCopyrightShort)
      ensures (State(), ok) == CopyrightCheck(Given(), old(State()), filePath)
    {
      if filePath !in files {
        return false;
      }
      CopyrightCheckSpec(Given(), State(), filePath);
      ok := CheckReadable(filePath);
    }

    /** The body of `check_copyright` once the file has been read. */
    method CheckReadable(filePath: string) returns (ok: bool)
      requires filePath in files
      modifies this`jobConfig, this`invalidLicenseFiles, this`checkResult
      modifies this`invalidCopyrightFull, this`invalidCopyrightShort
      ensures (State(), ok) == CopyrightCheck(Given(), old(State()), filePath)
    {
      var content := files[filePath];
      ghost var s0 := State();
      ghost var invalid0, ok0 := invalidLicenseFiles, checkResult;
      var p := GetCopyrightPattern(filePath);
      if jobConfig.None? {
        return true;
      }
      ghost var lc := LicenseCheck(files, dirs, invalid0, ok0, jobConfig.value, filePath, year);
      assert p == PatternOutcome(jobConfig.value, lc.result, year);
      if p.Err? {
        CopyrightCheckOf(Given(), s0, filePath, jobConfig.value, lc, Aborted(p.error));
        return false;
      }
      var (short, pattern) := p.value.value;
      assert lc.result == Ok(short);
      var verdict := CheckHeader(content, jobConfig.value, pattern);
      CopyrightCheckOf(Given(), s0, filePath, jobConfig.value, lc, verdict);
      Record(filePath, short, verdict);
      return verdict == Compliant;
    }

    /** The failure sets after `check_copyright` judged a file: a failing file joins the set of its template. */
    method Record(filePath: string, short: bool, verdict: Verdict)
      modifies this`invalidCopyrightFull, this`invalidCopyrightShort
      ensures invalidCopyrightShort == if Recorded(verdict) && short then old(invalidCopyrightShort) + {filePath} else old(invalidCopyrightShort)
      ensures invalidCopyrightFull == if Recorded(verdict) && !short then old(invalidCopyrightFull) + {filePath} else old(invalidCopyrightFull)
    {
      if verdict == NoAllowedLicense || verdict == MalformedCopyright {
        if short {
          invalidCopyrightShort := invalidCopyrightShort + {filePath};
        } else {
          invalidCopyrightFull := invalidCopyrightFull + {filePath};
        }
      }
    }

    /** `replace_copyright(filePath)`: rewrites the file; an error in resolving its pattern propagates. */
    method ReplaceCopyright(filePath: string) returns (r: Result<()>)
      modifies this`jobConfig, this`invalidLicenseFiles, this`checkResult, this`files
      ensures Monotone()
      ensures jobConfig == GetConfig(config, filePath)
      ensures jobConfig.None? ==>
        && r == Ok(()) && files == old(files)
        && invalidLicenseFiles == old(invalidLicenseFiles) && checkResult == old(checkResult)
      ensures jobConfig.Some? ==>
        var lc := LicenseCheck(old(files), dirs, old(invalidLicenseFiles), old(checkResult), jobConfig.value, filePath, year);
        var outcome := PatternOutcome(jobConfig.value, lc.result, year);
        && invalidLicenseFiles == lc.invalid && checkResult == lc.checkResult
        && (outcome.Err? ==> r == Err(outcome.error) && files == old(files))
        && (outcome.Ok? ==> r == Ok(()) && outcome.value.Some?
                            && files == Rewritten(old(files), filePath, jobConfig.value, outcome.value.value.1, year))
    {
      var p := GetCopyrightPattern(filePath);
      match p
      case Err(e) =>
        return Err(e);
      case Ok(None) =>
        return Ok(());
      case Ok(Some((_, pattern))) =>
        Rewrite(filePath, pattern);
        return Ok(());
    }

    /** The write of `replace_copyright`, once the expected copyright text is known. */
    method Rewrite(filePath: string, pattern: string)
      requires jobConfig.Some?
      modifies this`files
      ensures files == Rewritten(old(files), filePath, jobConfig.value, pattern, year)
    {
      if filePath !in files {
        return;
      }
      if Basename(filePath) == LicenseFileName {
        match LicenseFileText(jobConfig.value, year)
        case Err(_) =>
        case Ok(text) =>
          files := files[filePath := text + "\n"];
      } else {
        files := files[filePath := Correct(files[filePath], pattern)];
      }
    }

    /**
     * The checking loop of `process`: the given paths are taken in order up to the first LICENSE
     * file given directly, which stops the run with a NameError; the files of the paths before
     * it are checked in order, each failure clearing `check_result`.
     */
    method Process() returns (r: Result<()>, ghost checked: seq<string>, ghost verdicts: seq<bool>)
      modifies this`jobConfig, this`invalidLicenseFiles, this`checkResult
      modifies this`invalidCopyrightFull, this`invalidCopyrightShort
      ensures newFiles == [] ==> r == Err(UndefinedName("get_commit_file")) && State() == old(State())
      ensures newFiles != [] ==>
        && (r.Err? <==> FirstStop(files, dirs, newFiles) < |newFiles|)
        && (r.Err? ==> r.error == UndefinedName("root"))
      ensures checked == ToCheck(files, dirs, walk, newFiles[..FirstStop(files, dirs, newFiles)])
      ensures r.Ok? ==> checked == ToCheck(files, dirs, walk, newFiles)
      ensures (State(), verdicts) == CheckRun(Given(), old(State()), checked)
      ensures Monotone()
      ensures checkResult == (old(checkResult) && false !in verdicts && invalidLicenseFiles == old(invalidLicenseFiles))
      ensures |verdicts| == |checked|
    {
      checked, verdicts := [], [];
      ghost var s0 := State();
      if newFiles == [] {
        return Err(UndefinedName("get_commit_file")), checked, verdicts;
      }
      ghost var k := FirstStop(files, dirs, newFiles);
      FirstStopSpec(files, dirs, newFiles);
      var i, stop := 0, false;
      while i < |newFiles| && !stop
        invariant 0 <= i <= k
        invariant stop ==> i == k < |newFiles|
        invariant checked == ToCheck(files, dirs, walk, newFiles[..i])
        invariant (State(), verdicts) == CheckRun(Given(), s0, checked)
        decreases |newFiles| - i, if stop then 0 else 1
      {
        ghost var moreFiles, more;
        stop, moreFiles, more := CheckPath(newFiles[i]);
        if stop {
          assert i == k;
        } else {
          assert i != k;
          CheckRunAppend(Given(), s0, checked, moreFiles);
          ToCheckStep(files, dirs, walk, newFiles, i);
          checked, verdicts := checked + moreFiles, verdicts + more;
          i := i + 1;
        }
      }
      CheckRunSpec(Given(), s0, checked);
      if stop {
        r := Err(UndefinedName("root"));
      } else {
        assert newFiles[..i] == newFiles;
        r := Ok(());
      }
    }

    /**
     * The body of the checking loop of `process` for one given path: a directory has its
     * listed source files checked, a source file is checked, and a LICENSE file stops the run.
     */
    method CheckPath(path: string) returns (stop: bool, ghost checked: seq<string>, ghost verdicts: seq<bool>)
      modifies this`jobConfig, this`invalidLicenseFiles, this`checkResult
      modifies this`invalidCopyrightFull, this`invalidCopyrightShort
      ensures stop == StopsAt(files, dirs, path)
      ensures checked == PathFiles(files, dirs, walk, path)
      ensures (State(), verdicts) == CheckRun(Given(), old(State()), checked)
      ensures Monotone()
      ensures checkResult == (old(checkResult) && false !in verdicts && invalidLicenseFiles == old(invalidLicenseFiles))
      ensures |verdicts| == |checked|
    {
      ghost var s0 := State();
      stop, checked, verdicts := false, [], [];
      if path in dirs {
        var found := GetFileInDirectory(path);
        verdicts := CheckAll(found);
        checked := found;
      } else if path in files {
        if EndsWithSourceExtension(path) {
          CheckRunOne(Given(), State(), path);
          var ok := CheckFile(path);
          checked, verdicts := [path], [ok];
        } else if Basename(path) == LicenseFileName {
          stop := true;
        }
      }
      CheckRunSpec(Given(), s0, checked);
    }

    /** `get_file_in_directory(directory)`: the listed files with a source extension, in listed order. */
    method GetFileInDirectory(directory: string) returns (paths: seq<string>)
      ensures paths == SourceFiles(Listing(walk, directory))
    {
      var listed := Listing(walk, directory);
      paths := [];
      var j := 0;
      while j < |listed|
        invariant 0 <= j <= |listed|
        invariant paths == SourceFiles(listed[..j])
      {
        SourceFilesStep(listed, j);
        var (root, name) := listed[j];
        if HasSourceExtension(name) {
          paths := paths + [Join(root, name)];
        }
        j := j + 1;
      }
      assert listed[..j] == listed;
    }

    /** The inner loop of `process` over the files of a directory: each is checked, in order. */
    method CheckAll(paths: seq<string>) returns (ghost verdicts: seq<bool>)
      modifies this`jobConfig, this`invalidLicenseFiles, this`checkResult
      modifies this`invalidCopyrightFull, this`invalidCopyrightShort
      ensures (State(), verdicts) == CheckRun(Given(), old(State()), paths)
      ensures Monotone()
      ensures checkResult == (old(checkResult) && false !in verdicts && invalidLicenseFiles == old(invalidLicenseFiles))
      ensures |verdicts| == |paths|
    {
      verdicts := [];
      ghost var s0 := State();
      var j := 0;
      while j < |paths|
        invariant 0 <= j <= |paths|
        invariant (State(), verdicts) == CheckRun(Given(), s0, paths[..j])
      {
        CheckRunStep(Given(), s0, paths, j);
        var ok := CheckFile(paths[j]);
        verdicts := verdicts + [ok];
        j := j + 1;
      }
      assert paths[..j] == paths;
      CheckRunSpec(Given(), s0, paths);
    }

    /** One step of `process`: check a file and clear `check_result` when it fails. */
    method CheckFile(filePath: string) returns (ok: bool)
      modifies this`jobConfig, this`invalidLicenseFiles, this`checkResult
      modifies this`invalidCopyrightFull, this`invalidCopyrightShort
      ensures (State(), ok) == FileStep(Given(), old(State()), filePath)
      ensures Monotone()
      ensures checkResult == (old(checkResult) && ok && invalidLicenseFiles == old(invalidLicenseFiles))
    {
      ok := CheckCopyright(filePath);
      if !ok {
        checkResult := false;
      }
    }
  }
}
