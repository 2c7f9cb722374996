/**
 * The parts of Python's `posixpath` the checker uses: `dirname`, `join` with a relative
 * second part, `basename` and `splitext`, on '/'-separated strings taken literally
 * (no normalisation of "." or "..", no symbolic links).
 */
module Paths {

  /** `p.rfind(c)`: the index of the last `c`, or -1. */
  function LastIndex(p: string, c: char): (i: int)
    ensures -1 <= i < |p|
    ensures i >= 0 ==> p[i] == c
    ensures forall k :: i < k < |p| ==> p[k] != c
  {
    if p == [] then -1
    else if p[|p| - 1] == c then |p| - 1
    else LastIndex(p[..|p| - 1], c)
  }

  predicate AllSlashes(s: string) {
    forall k :: 0 <= k < |s| ==> s[k] == '/'
  }

  /** `s.rstrip('/')`. */
  function StripTrailingSlashes(s: string): (r: string)
    ensures |r| <= |s| && r == s[..|r|]
    ensures forall k :: |r| <= k < |s| ==> s[k] == '/'
    ensures r != [] ==> r[|r| - 1] != '/'
  {
    if s != [] && s[|s| - 1] == '/' then StripTrailingSlashes(s[..|s| - 1]) else s
  }

  /** `os.path.dirname(p)`: the text before the last '/', its trailing slashes removed unless it is all slashes. */
  function Dirname(p: string): (d: string)
    ensures |d| <= |p| && d == p[..|d|]
    ensures d == p || |d| < |p|
  {
    var head := p[..LastIndex(p, '/') + 1];
    if head != [] && !AllSlashes(head) then StripTrailingSlashes(head) else head
  }

  /** The upward walk stops exactly at the fixed points of dirname: "" and the all-slash paths. */
  lemma DirnameFixedPoint(p: string)
    ensures Dirname(p) == p <==> AllSlashes(p)
  {
    var i := LastIndex(p, '/');
    var head := p[..i + 1];
    if AllSlashes(p) && p != [] {
      assert i == |p| - 1;
      assert head == p;
    }
    if !AllSlashes(p) {
      if head != [] && !AllSlashes(head) {
        assert head[|head| - 1] == '/';
        assert |StripTrailingSlashes(head)| < |head|;
      }
    }
  }

  /** `os.path.join(dir, name)` for a name that does not start with '/'. */
  function Join(dir: string, name: string): string {
    if dir == [] || dir[|dir| - 1] == '/' then dir + name else dir + "/" + name
  }

  /** `os.path.basename(p)`. */
  function Basename(p: string): string {
    p[LastIndex(p, '/') + 1..]
  }

  /** A name without '/' joined to a directory is that path's basename. */
  lemma BasenameJoin(dir: string, name: string)
    requires forall k :: 0 <= k < |name| ==> name[k] != '/'
    ensures Basename(Join(dir, name)) == name
  {
    var p := Join(dir, name);
    var i := LastIndex(p, '/');
    assert p[|p| - |name|..] == name;
    if dir != [] {
      assert p[|p| - |name| - 1] == '/';
    }
    assert i == |p| - |name| - 1;
  }

  /** A file joined to a directory that does not end with '/' lies directly in that directory. */
  lemma DirnameJoin(dir: string, name: string)
    requires name != [] && forall k :: 0 <= k < |name| ==> name[k] != '/'
    requires dir == [] || dir[|dir| - 1] != '/'
    ensures Dirname(Join(dir, name)) == dir
  {
    var p := Join(dir, name);
    var i := LastIndex(p, '/');
    if dir == [] {
      assert p == name;
      assert i == -1;
    } else {
      assert p[|dir|] == '/';
      assert forall k :: |dir| < k < |p| ==> p[k] == name[k - |dir| - 1];
      assert i == |dir|;
      var head := p[..i + 1];
      assert head == dir + "/";
      assert head[|head| - 2] != '/';
      var r := StripTrailingSlashes(head);
      assert |r| == |dir|;
    }
  }

  /** `os.path.splitext(name)[1]`: the suffix from the last '.', when a character other than '.' precedes it in the basename. */
  function Extension(name: string): (ext: string)
    ensures ext == [] || (ext[0] == '.' && |ext| <= |name| && ext == name[|name| - |ext|..])
  {
    var slash := LastIndex(name, '/');
    var dot := LastIndex(name, '.');
    if dot > slash && exists k | slash + 1 <= k < dot :: name[k] != '.' then name[dot..] else []
  }

  /** ASCII `str.lower()`. */
  function Lower(s: string): (r: string)
    ensures |r| == |s|
  {
    seq(|s|, k requires 0 <= k < |s| => if 'A' <= s[k] <= 'Z' then (s[k] as int + 32) as char else s[k])
  }

  predicate EndsWith(s: string, suffix: string) {
    |suffix| <= |s| && s[|s| - |suffix|..] == suffix
  }
}
