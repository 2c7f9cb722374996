# check_copyright: a model of the license checker

This project models the `LicenseChecker` class of `check_copyright.py`, a pre-commit tool.
For each new source file, the tool works out which rules of a YAML configuration apply. It
then searches upward from the file's directory for a `LICENSE` file and checks that file's
text against the configured template. Finally it checks the file's own header:

- an allowed license name must occur in it;
- when it names the configured license, it must contain the expected copyright text, the
  short template when a matching `LICENSE` file was found and the full one otherwise.

Failing files are gathered in three sets, and the overall `check_result` is cleared. A
replacement step rewrites a failing file: a `LICENSE` file gets the expected text, and a
source file has its leading block comment replaced, or the expected text put in front.

The modules follow the program's layers:

- `Outcomes`: `Option`, `Result` and the errors a Python exception becomes (a missing key,
  a value of the wrong type, a malformed template, an undefined name).
- `Text`: `str.strip()`, the substring test, `str.splitlines()`, `'\n'.join` and
  `str.split('\n')`.
- `Glob`: `fnmatch.fnmatch` with `*` and `?`.
- `Paths`: `os.path.dirname`, `join`, `basename` and `splitext`.
- `Template`: `str.format(license=..., year=...)`, `format_license_file` and
  `generate_license_text`.
- `Rules`: `get_config` and `merge_configs` over an ordered list of named rules.
- `Headers`: the expected copyright and LICENSE texts, the license-name search, the header
  verdict of `check_copyright` and the correction done by `replace_copyright`.
- `Checker`: the upward LICENSE search as a function, plus the class `LicenseChecker`.
  The class's fields are what the Python object holds: the configuration, the given paths,
  the year, the effective rule, `check_result` and the three failure sets. Its methods carry
  the loops of `check_license_file`, `get_file_in_directory` and `process`, and the state
  changes of `get_copyright_pattern`, `check_copyright` and `replace_copyright`.

The file system is a parameter of the checker:

- `files` maps the path of every regular file to its content;
- `dirs` is the set of directory paths;
- `walk` gives, for each directory, the (directory, file name) pairs that `os.walk` yields
  under it, in order.

The current year is also a parameter. Python exceptions become `Err` values:
`check_copyright` turns any of them into `False`, and `replace_copyright` lets an error from
`get_copyright_pattern` propagate.

## Model

| member | source | states |
|---|---|---|
| Rules.Merge | check_copyright.py:207-223 | the merged rule has the keys of both rules; a key of the special rule takes that rule's value, and any other key keeps the default's value |
| Rules.MergeTwice | check_copyright.py:192 | merging the same rule a second time changes nothing |
| Rules.ScanPatternsSpec | check_copyright.py:185-192 | the pattern loop of one rule returns None exactly for the `ignore` rule with a matching pattern; otherwise it merges the rule onto the result once if any pattern matches, and leaves the result alone if none does |
| Rules.ScanRulesSpec | check_copyright.py:180-194 | the rule loop returns None exactly when some `ignore` pattern matches; otherwise it returns every applying rule merged on, in order |
| Rules.GetConfigSpec | check_copyright.py:165-194 | `get_config` returns None exactly when the path matches an include pattern of `ignore`, wherever that rule stands; otherwise it returns DEFAULT (or an empty rule) with every other matching rule merged onto it in order |
| Rules.LastMatchWins | check_copyright.py:180-194 | in the effective rule, each key has the value from the last applying rule that sets it |
| Rules.KeyUntouched | check_copyright.py:180-194 | a key that no applying rule sets keeps its DEFAULT value, or stays absent |
| Text.StripSpec | check_copyright.py:373 | `strip()` returns the part of the text that neither starts nor ends with whitespace and has only whitespace around it |
| Text.StripNewline | check_copyright.py:279 | a trailing newline, as written after a LICENSE text, makes no difference to `strip()` |
| Text.StripIdempotent | check_copyright.py:276-279 | stripping an already stripped text changes nothing |
| Text.ContainsWithin | check_copyright.py:411 | a text still contains a substring after anything is added before or after it |
| Text.ContainsTransitive | check_copyright.py:395 | a text containing a piece that contains a name contains the name |
| Text.SplitLinesNoBreaks | check_copyright.py:236 | no line returned by `splitlines()` holds a line boundary |
| Text.SplitLinesJoin | check_copyright.py:202 | `splitlines()` takes back a `'\n'.join` of lines that hold no boundary and whose last line is not empty |
| Text.JoinSplitLines | check_copyright.py:202 | text whose only boundaries are '\n' and that does not end with one comes back unchanged from split-then-join |
| Text.SplitJoin | check_copyright.py:242 | `split('\n')` takes back a `'\n'.join` of lines without '\n' |
| Glob.LiteralMatch | check_copyright.py:187 | a pattern without wildcards matches exactly the name equal to it |
| Glob.StarMatchesAll | check_copyright.py:187 | `*` matches every path, '/' included |
| Glob.LeadingStar | check_copyright.py:187 | a leading `*` matches exactly when the rest of the pattern matches some suffix of the name |
| Glob.PrefixStar | check_copyright.py:299 | a literal prefix followed by `*` matches exactly the directories that start with that prefix |
| Paths.DirnameFixedPoint | check_copyright.py:260 | the upward walk stops exactly at the empty path and the all-slash paths, where dirname gives the path back |
| Paths.DirnameJoin | check_copyright.py:256 | a file joined to a directory lies directly in that directory |
| Paths.BasenameJoin | check_copyright.py:323 | the basename of a name joined to a directory is that name |
| Template.FormatEscape | check_copyright.py:369-371 | literal text with doubled braces formats back to exactly that text, whatever follows |
| Template.FormatField | check_copyright.py:369-371 | `{license}` formats to the license name and `{year}` to the year in decimal |
| Template.FormatCompose | check_copyright.py:369-371 | a template made of literal parts and placeholders formats to its parts with the license and year filled in |
| Template.FormatPlain | check_copyright.py:278 | a template without braces formats to itself |
| Template.FormatLicenseFileLines | check_copyright.py:226-242 | `format_license_file` gives one '\n'-separated line per input line, each without its first three characters; an empty input gives an empty text |
| Template.DedentIndent | check_copyright.py:239 | removing three characters per line undoes a three-space indent |
| Template.FormatLicenseFileUndoesIndent | check_copyright.py:226-242 | `format_license_file` takes back a three-space indent of every line |
| Template.GenerateLicenseTextLines | check_copyright.py:197-204 | the generated text has the formatted text's lines, '\n'-separated; text already in that form comes back unchanged |
| Headers.ExpectedCopyright | check_copyright.py:355-374 | the expected copyright text is already stripped, and exists only when the template key and `license_for_new_files` are configured |
| Headers.LicenseMentionedSpellings | check_copyright.py:405-410 | the license search finds the configured name written with spaces, and also with hyphens |
| Headers.LicenseMentionedLiteral | check_copyright.py:405-410 | for a name without spaces or dots, the license search is exactly a substring test |
| Headers.FindClose | check_copyright.py:335 | the lazy `*?` stops at the first `*/` after the opening |
| Headers.LeadingBlockEnd | check_copyright.py:335-338 | a block comment found at the start, after at most one character, is a real `/* ... */` block; when none is found, none exists |
| Headers.Correct | check_copyright.py:334-343 | the corrected content starts with the expected text; that text replaces the leading block comment, or goes in front with a newline when there is none |
| Headers.CorrectedHeaderPasses | check_copyright.py:334-343 | a file corrected with an expected text that names an allowed license passes the header tests |
| Headers.RewrittenLicenseIsExact | check_copyright.py:323-331 | a LICENSE file rewritten to the expected text and a newline is then judged correct and exact |
| Checker.FindLicense | check_copyright.py:260-264 | the LICENSE the search stops at exists and is not already in the invalid set |
| Checker.FindLicenseFollowsTrail | check_copyright.py:260-303 | the search loop returns the first available LICENSE among the directories it visits, in visiting order |
| Checker.FirstAvailable | check_copyright.py:263-264 | the chosen position lies within the list of directories or just past it, and a position within it holds a directory whose LICENSE exists and is not yet invalid |
| Checker.FirstAvailableSpec | check_copyright.py:263-264 | no directory before the chosen position has a LICENSE that exists and is not yet invalid |
| Checker.FirstOnTrailIndex | check_copyright.py:263-264 | the first available LICENSE of a list of directories is the LICENSE at the first available position, and there is none when no directory has one |
| Checker.FindLicenseOnTrail | check_copyright.py:260-303 | the search stops at the first visited directory whose LICENSE exists and is not already invalid |
| Checker.TrailClimbs | check_copyright.py:256-303 | the search starts at the file's directory, climbs one parent at a time, and never visits a fixed point of dirname |
| Checker.TrailStops | check_copyright.py:290-300 | the search never climbs above a directory holding `.git`, and visits at most one directory after leaving the include scope |
| Checker.TrailEnds | check_copyright.py:260-303 | the search visits directories until one of the loop's exits: the last directory visited holds `.git`, or follows a directory outside the include scope, or its parent is a fixed point of dirname |
| Checker.LicenseCheck | check_copyright.py:245-306 | at most one LICENSE joins the invalid set, and `check_result` is cleared exactly when one does |
| Checker.LicenseJudged | check_copyright.py:266-288 | at most the judged LICENSE joins the invalid set, and `check_result` is cleared exactly when it does |
| Checker.LicenseCheckSpec | check_copyright.py:245-306 | with the first directory on the search trail whose LICENSE exists and is not yet invalid: none gives False with nothing changed; a list-valued name is an error; a LICENSE that does not contain the name gives False; otherwise an expected text that cannot be built is an error, and else the result is True and the LICENSE joins the invalid set, clearing `check_result`, exactly when its stripped text differs from the stripped expected text |
| Checker.Rewritten | check_copyright.py:320-347 | only the given file changes; a LICENSE gets the expected text and a newline, and is left alone when that text cannot be built; another file becomes its content corrected by `Correct`, and then contains the expected copyright text |
| Checker.OneOfIndex | check_copyright.py:159 | membership in the extension list means being one of its entries |
| Checker.SourceExtensionTests | check_copyright.py:452 | a plain file name given directly and accepted by its suffix is also accepted by the lower-cased extension test when listed under a directory |
| Checker.SourceExtensionTestsDiffer | check_copyright.py:452 | the two tests differ on case: a listed `X.C` is checked, the same path given directly is not |
| Checker.SourceFilesKept | check_copyright.py:155-162 | every walked file with a source extension is kept, joined to its directory, and nothing else is kept |
| Checker.FirstStop | check_copyright.py:441-457 | the stop position lies within the given paths or just past them, and a position within them holds a LICENSE file given directly |
| Checker.FirstStopSpec | check_copyright.py:441-457 | no given path before the stop position is a LICENSE file given directly |
| Checker.CopyrightCheckSpec | check_copyright.py:377-426 | one check never sets `check_result` again and clears it exactly when a LICENSE joins the invalid set; at most one LICENSE joins it; the checked file joins at most one failure set, and none when it passes |
| Checker.CheckRunSpec | check_copyright.py:441-457 | after the checking loop, `check_result` is set exactly when it was set before, every check passed and no LICENSE joined the invalid set; the three sets only grow |
| Checker.CheckRunVerdict | check_copyright.py:441-457 | the result recorded for each checked file is `check_copyright` of that file in the state the earlier checks left |
| Checker.CheckRunAppend | check_copyright.py:441-457 | checking one list of files and then another is checking the two lists joined |
| Checker.LicenseChecker.constructor | check_copyright.py:50-68 | a new checker holds the configuration, the paths and the year; it has no effective rule, a true `check_result` and empty failure sets |
| Checker.LicenseChecker.CheckLicenseFile | check_copyright.py:245-306 | the loop's result, invalid set and `check_result` are those of the search specification `LicenseCheck` |
| Checker.LicenseChecker.JudgeLicenseFile | check_copyright.py:266-288 | the judgement of the LICENSE reached matches `LicenseJudged` |
| Checker.LicenseChecker.GetCopyrightPattern | check_copyright.py:355-374 | sets the effective rule; an ignored file gives no pattern and leaves the LICENSE state alone; otherwise the LICENSE search runs and the pattern is the short or full template it selects |
| Checker.LicenseChecker.CheckCopyright | check_copyright.py:377-426 | the new state and the result are those of the specification `CopyrightCheck`: an unreadable file fails with nothing changed; otherwise the effective rule, the LICENSE state and the failure set of the file's template follow the header verdict, and the result is True exactly for a compliant or ignored file; `check_result` is never set again |
| Checker.LicenseChecker.CheckReadable | check_copyright.py:388-426 | the new state and the result are those of `CopyrightCheck`, for a file that can be read |
| Checker.LicenseChecker.Record | check_copyright.py:397-417 | a failing file joins the short set when the short template applied, and the full set otherwise |
| Checker.LicenseChecker.ReplaceCopyright | check_copyright.py:309-352 | an ignored file is left alone; an error in building the pattern propagates with nothing written; otherwise the file is rewritten as `Rewritten` says |
| Checker.LicenseChecker.Rewrite | check_copyright.py:319-347 | the files become `Rewritten` of the old ones |
| Checker.LicenseChecker.Process | check_copyright.py:429-457 | an empty path list raises a NameError on `get_commit_file` and changes nothing; otherwise the run fails (a NameError on `root`) exactly when a LICENSE is given directly, after checking the files of `ToCheck` for the paths before the first such LICENSE; the new state and each file's result are those of the checking loop `CheckRun` over those files |
| Checker.LicenseChecker.CheckPath | check_copyright.py:441-457 | one given path: the files checked are `PathFiles`, the new state and each result are those of `CheckRun` over them, and it stops exactly on a LICENSE given directly |
| Checker.LicenseChecker.GetFileInDirectory | check_copyright.py:145-163 | the result is `SourceFiles` of the directory's walk, in walk order |
| Checker.LicenseChecker.CheckAll | check_copyright.py:446-449 | the new state and each file's result are those of `CheckRun` over the listed files, in order; `check_result` stays true exactly when all pass and no LICENSE is found invalid |
| Checker.LicenseChecker.CheckFile | check_copyright.py:448-449 | the new state and the result are those of one step `FileStep`: `check_copyright`, then `check_result` cleared when it fails |

## Left out

- `main`, `argparse`, logging and `print_copyright` (lines 28-43, 86-105, 483 onward) only report; they are not part of this model.
- `load_config` (YAML parsing) is left out. The configuration is given as an ordered list of named rules, each a map to a string or a list of strings.
- `get_commit_file` runs `git` as a subprocess and is left out. `process` calls it unqualified, which raises a NameError, and that is what the model returns.
- `os.walk`, `os.path.isfile`, `os.path.isdir` and reading or writing files become the parameters `files`, `dirs` and `walk`. File encodings, decode errors and symbolic links are not modelled.
- Newline translation: files are opened in text mode, so Python reads "\r\n" and "\r" as "\n", and writes "\n" as the platform's line separator. `files` holds each file's text as Python reads it, after that translation; the model does not translate.
- `datetime.now().year` becomes the parameter `year`.
- The reporting and replacement loops at the end of `process` (lines 463-480) only print and call `replace_copyright`, which is modelled on its own. They are not part of `Process`.
- `process` calls `sys.exit(0)` when it has no paths; since `get_commit_file` raises first, that exit is never reached and is not modelled.
- Whitespace: only ASCII characters are whitespace for `strip()` and `\s`. Unicode whitespace is not modelled.
- `fnmatch`: character classes (`[...]`) are not modelled; `*` and `?` are.
- The license-name pattern: only its spaces (read as `[\s-]`) and dots (any character but a newline) are read as regex syntax; every other character is taken literally.
- The replacement text in `re.sub` is used as it is. Python's processing of backslash escapes in it is not modelled.
- `str.format`: only `{license}`, `{year}`, `{{` and `}}` are modelled. Any other field, conversion or format spec is an error in the model. A list value in `{license}`, which Python would print as its repr, is also an error.
- Paths are taken literally: no normalisation of `.` or `..`, and no case folding.
- `job_config` starts as `''` in Python. It is modelled as `None` until the first file is resolved, since nothing reads it earlier.
