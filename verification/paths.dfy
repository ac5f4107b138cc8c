/**
 Paths as the scripts see them on Windows: root discovery over a structured
 directory, and the string-level `ntpath` operations `dirname`, `splitext` and
 `join` (for a bare second component).
 */
module Paths {
  import opened Strs

  /** A directory: its anchor (a drive root such as `C:\` or a share) and the names below it. */
  datatype Dir = Dir(anchor: string, parts: seq<string>)

  /** `os.path.join(d, name)` as a structured path. */
  function Child(d: Dir, name: string): Dir {
    Dir(d.anchor, d.parts + [name])
  }

  /** The ancestor-or-self of `d` that keeps its first `n` names. */
  function Ancestor(d: Dir, n: nat): Dir
    requires n <= |d.parts|
  {
    Dir(d.anchor, d.parts[..n])
  }

  /**
   `get_root_dir`: starting at the directory of a file, test each ancestor-or-self for a
   `marker` entry, nearest first; the anchor itself is examined before giving up.
   */
  function FindRoot(start: Dir, marker: string, fs: set<Dir>): (r: Option<Dir>)
    ensures r.Some? ==>
      && r.value.anchor == start.anchor
      && |r.value.parts| <= |start.parts|
      && r.value == Ancestor(start, |r.value.parts|)
      && Child(r.value, marker) in fs
      && forall n :: |r.value.parts| < n <= |start.parts| ==> Child(Ancestor(start, n), marker) !in fs
    ensures r.None? ==>
      forall n :: 0 <= n <= |start.parts| ==> Child(Ancestor(start, n), marker) !in fs
    decreases |start.parts|
  {
    if Child(start, marker) in fs then
      assert start == Ancestor(start, |start.parts|);
      Some(start)
    else if |start.parts| == 0 then
      assert start == Ancestor(start, 0);
      None
    else
      var up := Dir(start.anchor, start.parts[..|start.parts| - 1]);
      var r := FindRoot(up, marker, fs);
      assert forall n :: 0 <= n <= |up.parts| ==> Ancestor(up, n) == Ancestor(start, n);
      assert start == Ancestor(start, |start.parts|);
      r
  }

  // ---------------------------------------------------------------------------
  // ntpath string operations
  // ---------------------------------------------------------------------------

  predicate IsSep(c: char) {
    c == '\\' || c == '/'
  }

  /** Length of a drive-letter prefix such as `C:` (UNC shares are not split off here). */
  function DriveLen(p: string): (n: nat)
    ensures n <= |p|
  {
    if |p| >= 2 && p[1] == ':' then 2 else 0
  }

  /** The index just past the last separator at or after `lo`, or `lo` when there is none. */
  function TailStart(p: string, lo: nat, i: nat): (r: nat)
    requires lo <= i <= |p|
    ensures lo <= r <= i
    ensures r > lo ==> IsSep(p[r - 1])
    ensures forall j :: r <= j < i ==> !IsSep(p[j])
    decreases i
  {
    if i == lo || IsSep(p[i - 1]) then i else TailStart(p, lo, i - 1)
  }

  /** `s.rstrip('\\/')`. */
  function RStripSeps(s: string): (r: string)
    ensures |r| <= |s| && r == s[..|r|]
    ensures forall j :: |r| <= j < |s| ==> IsSep(s[j])
    ensures r == [] || !IsSep(r[|r| - 1])
    decreases |s|
  {
    if |s| > 0 && IsSep(s[|s| - 1]) then
      var r := RStripSeps(s[..|s| - 1]);
      assert s[..|s| - 1][..|r|] == s[..|r|];
      r
    else s
  }

  /**
   `os.path.dirname` (ntpath, as of Python 3.11) for drive-letter and relative paths: the
   drive followed by everything up to the last separator, with trailing separators removed
   unless there is nothing else. The result is always a prefix of the path. A UNC share is
   not taken as a drive here, so `\\server\share\x` gives `\\server\share` where
   ntpath keeps the separator after the share.
   */
  function Dirname(p: string): (r: string)
    ensures StartsWith(p, r)
  {
    var d := DriveLen(p);
    var i := TailStart(p, d, |p|);
    var head := p[d..i];
    var stripped := RStripSeps(head);
    var r := p[..d] + (if stripped == "" then head else stripped);
    assert r == p[..|r|];
    r
  }

  /** The last index in `p` whose character satisfies `f`, or -1. */
  function RFind(p: string, f: char -> bool, i: nat): (r: int)
    requires i <= |p|
    ensures -1 <= r < i
    ensures r >= 0 ==> f(p[r])
    ensures forall j :: r < j < i ==> !f(p[j])
    decreases i
  {
    if i == 0 then -1 else if f(p[i - 1]) then i - 1 else RFind(p, f, i - 1)
  }

  /** True when some character of `p[lo..hi]` is not a dot. */
  predicate HasNonDot(p: string, lo: nat, hi: nat)
    requires lo <= hi <= |p|
  {
    exists j :: lo <= j < hi && p[j] != '.'
  }

  /**
   The dot at `k` starts an extension: no dot and no separator follows it, and the file
   name holds a non-dot character before it.
   */
  predicate ExtensionDot(p: string, k: nat)
    requires k < |p|
  {
    && p[k] == '.'
    && (forall j :: k < j < |p| ==> p[j] != '.' && !IsSep(p[j]))
    && exists j :: 0 <= j < k && p[j] != '.' && forall m :: j <= m < k ==> !IsSep(p[m])
  }

  /**
   `os.path.splitext` (ntpath): the extension starts at the last dot after the last
   separator, provided the file name has some non-dot character before that dot
   (so `.profile` has no extension).
   */
  function SplitExt(p: string): (r: (string, string))
    ensures r.0 + r.1 == p
    ensures r.1 == "" || (r.1[0] == '.' && forall j :: 0 < j < |r.1| ==> r.1[j] != '.' && !IsSep(r.1[j]))
    ensures r.1 != "" <==> exists k :: 0 <= k < |p| && ExtensionDot(p, k)
    ensures forall k :: 0 <= k < |p| && ExtensionDot(p, k) ==> r == (p[..k], p[k..])
  {
    ExtensionDotFound(p);
    var sepIndex := RFind(p, IsSep, |p|);
    var dotIndex := RFind(p, IsDot, |p|);
    if dotIndex > sepIndex && HasNonDot(p, sepIndex + 1, dotIndex) then
      var j :| sepIndex + 1 <= j < dotIndex && p[j] != '.';
      assert ExtensionDot(p, dotIndex);
      (p[..dotIndex], p[dotIndex..])
    else
      (p, "")
  }

  predicate IsDot(c: char) {
    c == '.'
  }

  /** An extension dot is the last dot, and it lies past the last separator after a non-dot. */
  lemma ExtensionDotFound(p: string)
    ensures forall k :: 0 <= k < |p| && ExtensionDot(p, k) ==>
              var sepIndex := RFind(p, IsSep, |p|);
              && RFind(p, IsDot, |p|) == k && sepIndex < k
              && HasNonDot(p, sepIndex + 1, k)
  {
    forall k | 0 <= k < |p| && ExtensionDot(p, k)
      ensures var sepIndex := RFind(p, IsSep, |p|);
              && RFind(p, IsDot, |p|) == k && sepIndex < k
              && HasNonDot(p, sepIndex + 1, k)
    {
      var j :| 0 <= j < k && p[j] != '.' && forall m :: j <= m < k ==> !IsSep(p[m]);
      assert RFind(p, IsSep, |p|) < j;
    }
  }

  /**
   `os.path.join(a, b)` (ntpath) where `b` is a bare name with no drive and no leading
   separator: a backslash is inserted unless `a` is empty, is only a drive, or already
   ends with a separator.
   */
  function JoinPath(a: string, b: string): (r: string)
    ensures StartsWith(r, a) && EndsWith(r, b)
    ensures |r| == |a| + |b| || (|r| == |a| + |b| + 1 && r[|a|] == '\\')
    ensures |r| == |a| + |b| + 1 <==> |a| > DriveLen(a) && !IsSep(a[|a| - 1])
  {
    var d := DriveLen(a);
    var r := if |a| > d && !IsSep(a[|a| - 1]) then a + "\\" + b else a + b;
    assert r[..|a|] == a;
    assert r[|r| - |b|..] == b;
    r
  }

  /** The last separator at or after `lo` is at or after any separator `k` before `i`. */
  lemma {:induction false} TailStartPast(p: string, lo: nat, i: nat, k: nat)
    requires lo <= k < i <= |p| && IsSep(p[k])
    ensures TailStart(p, lo, i) > k
    decreases i
  {
    if !IsSep(p[i - 1]) {
      TailStartPast(p, lo, i - 1, k);
    }
  }

  /**
   `dirname` keeps every character up to a separator that follows a non-separator: the
   directory of `C:\Program Files\x` starts with `C:\Program Files`.
   */
  lemma DirnameKeeps(p: string, k: nat)
    requires DriveLen(p) < k < |p| && IsSep(p[k]) && !IsSep(p[k - 1])
    ensures StartsWith(Dirname(p), p[..k])
  {
    var d := DriveLen(p);
    var i := TailStart(p, d, |p|);
    TailStartPast(p, d, |p|, k);
    var head := p[d..i];
    var stripped := RStripSeps(head);
    assert head[k - 1 - d] == p[k - 1];
    assert |stripped| > k - 1 - d;
    assert stripped == p[d..d + |stripped|];
    assert Dirname(p) == p[..d] + stripped;
    assert p[..d] + p[d..d + |stripped|] == p[..d + |stripped|];
  }

  /**
   Joining a file name onto a directory and taking `os.path.dirname` of the result gives the
   directory back, for a directory with a non-empty part after its drive and no trailing
   separator.
   */
  lemma DirnameOfJoin(a: string, b: string)
    requires |a| > DriveLen(a) && !IsSep(a[|a| - 1])
    requires forall j :: 0 <= j < |b| ==> !IsSep(b[j])
    ensures Dirname(JoinPath(a, b)) == a
  {
    var p := JoinPath(a, b);
    assert p == a + "\\" + b;
    var d := DriveLen(a);
    assert DriveLen(p) == d by {
      if |a| >= 2 { assert p[1] == a[1]; }
    }
    var i := TailStart(p, d, |p|);
    TailStartPast(p, d, |p|, |a|);
    assert i == |a| + 1;
    var head := p[d..i];
    assert head == a[d..] + "\\";
    assert RStripSeps(head) == a[d..] by {
      assert head[..|head| - 1] == a[d..];
    }
    assert Dirname(p) == p[..d] + a[d..];
    assert p[..d] == a[..d];
    assert a[..d] + a[d..] == a;
  }
}
