/**
 The git mirror cache behind `vcget`: every remote reporoot gets its own directory
 under the cache root, named by the SHA-1 of the reporoot; the mirror is cloned the
 first time and pulled afterwards, the presoak registry remembers which directory
 serves which reporoot, and a failing command leaves its reply in the report.
 */
module Mirror {
  import opened Strs
  import opened Paths
  import opened Dicts

  /**
   What the host answers: the cache root, the hex SHA-1 of a text's UTF-8 bytes,
   `os.path.realpath`, the `.git` search below a directory before and after a clone,
   and the (reply, exit code) of `git pull` in a git dir and `git clone` into a directory.
   */
  datatype Host = Host(
    cacheRoot: string,
    sha1hex: string -> string,
    realpath: string -> string,
    gitDirIn: string -> Option<string>,
    gitDirAfterClone: string -> Option<string>,
    pull: string -> (string, int),
    clone: (string, string) -> (string, int)
  )

  /** The directory a reporoot is mirrored in, before `realpath`: the cache root joined with the hash. */
  function MirrorPath(h: Host, reporoot: string): (r: string)
    ensures StartsWith(r, h.cacheRoot) && EndsWith(r, h.sha1hex(reporoot))
    ensures |r| <= |h.cacheRoot| + |h.sha1hex(reporoot)| + 1
  {
    JoinPath(h.cacheRoot, h.sha1hex(reporoot))
  }

  function MirrorDir(h: Host, reporoot: string): string {
    h.realpath(MirrorPath(h, reporoot))
  }

  /** Two reporoots with the same hash share a mirror; the hash is all that names it. */
  lemma MirrorDependsOnHashOnly(h: Host, a: string, b: string)
    requires h.sha1hex(a) == h.sha1hex(b)
    ensures MirrorDir(h, a) == MirrorDir(h, b)
  {
  }

  /** The result of bringing a mirror up to date. */
  datatype Sync = Sync(gitDir: Option<string>, reply: string, exitCode: int, cloned: bool)

  /**
   Pull when a `.git` is found under the mirror, otherwise clone and look again. The git
   dir found before pulling is returned whatever the pull answers.
   */
  function Synchronise(h: Host, reporoot: string): (r: Sync)
    ensures var dir := MirrorDir(h, reporoot);
            h.gitDirIn(dir).Some? <==> !r.cloned
    ensures var dir := MirrorDir(h, reporoot);
            h.gitDirIn(dir).Some? ==> r.gitDir == h.gitDirIn(dir) && (r.reply, r.exitCode) == h.pull(h.gitDirIn(dir).value)
    ensures var dir := MirrorDir(h, reporoot);
            h.gitDirIn(dir).None? ==> r.gitDir == h.gitDirAfterClone(dir) && (r.reply, r.exitCode) == h.clone(reporoot, dir)
  {
    var dir := MirrorDir(h, reporoot);
    match h.gitDirIn(dir)
    case Some(g) =>
      var (reply, code) := h.pull(g);
      Sync(Some(g), reply, code, false)
    case None =>
      var (reply, code) := h.clone(reporoot, dir);
      Sync(h.gitDirAfterClone(dir), reply, code, true)
  }

  /**
   What `find_and_update_git_cache` prints: a failing pull or clone prints a notice and
   the reply (`print` puts one space between its arguments and ends the line); a
   successful one prints nothing.
   */
  function Notice(s: Sync): (r: string)
    ensures r == "" <==> s.exitCode == 0
    ensures s.exitCode != 0 ==> EndsWith(r, " " + s.reply + "\n")
    ensures s.exitCode != 0 ==> (StartsWith(r, "  cloning failed:") <==> s.cloned)
    ensures s.exitCode != 0 ==> (StartsWith(r, "  pulling failed:") <==> !s.cloned)
  {
    if s.exitCode == 0 then ""
    else
      var head := if s.cloned then "  cloning failed: " else "  pulling failed: ";
      var r := head + " " + s.reply + "\n";
      assert r[|r| - |" " + s.reply + "\n"|..] == " " + s.reply + "\n";
      assert r[..17] == head[..17];
      assert r[2] == head[2];
      r
  }

  /**
   The registry update as written: an empty registry makes `if not presoak` true and
   the next line reads the missing key (KeyError, `None` here); a non-empty one gets
   `reporoot -> mirror`.
   */
  function RegisterAsWritten(registry: Dict<string, string>, reporoot: string, dir: string): (r: Option<Dict<string, string>>)
    requires registry.Valid()
    ensures r.None? <==> registry.m == map[]
  {
    if registry.keys == [] then
      assert registry.m.Keys == {};
      None
    else
      assert registry.keys[0] in registry.m;
      Some(Put(registry, reporoot, dir))
  }

  /** With an empty registry the as-written update raises. */
  lemma EmptyRegistryRaises(reporoot: string, dir: string)
    ensures RegisterAsWritten(Empty(), reporoot, dir).None?
    ensures Register(Empty(), reporoot, dir).m == map[reporoot := dir]
  {
  }

  /**
   The registry update as evidently intended (add if missing): afterwards the reporoot
   maps to its mirror and every other entry is unchanged.
   */
  function Register(registry: Dict<string, string>, reporoot: string, dir: string): (r: Dict<string, string>)
    requires registry.Valid()
    ensures r.Valid()
    ensures reporoot in r.m && r.m[reporoot] == dir
    ensures r.m.Keys == registry.m.Keys + {reporoot}
    ensures forall k | k in registry.m && k != reporoot :: r.m[k] == registry.m[k]
    ensures RegisterAsWritten(registry, reporoot, dir).Some? ==> RegisterAsWritten(registry, reporoot, dir).value == r
  {
    Put(registry, reporoot, dir)
  }

  /** A failing command leaves its reply lines in the report under the reporoot. */
  function Report(report: Dict<string, seq<string>>, reporoot: string, s: Sync): (r: Dict<string, seq<string>>)
    requires report.Valid()
    ensures r.Valid()
    ensures s.exitCode == 0 ==> r == report
    ensures s.exitCode != 0 ==> r.m == report.m[reporoot := SplitLines(s.reply)]
    ensures forall k | k in report.m && k != reporoot :: k in r.m && r.m[k] == report.m[k]
  {
    if s.exitCode != 0 then Put(report, reporoot, SplitLines(s.reply)) else report
  }

  /** What `find_and_update_git_cache` leaves behind, with what it printed on the way. */
  datatype Outcome =
    | Updated(gitDir: Option<string>, registry: Dict<string, string>, report: Dict<string, seq<string>>, printed: string)
    | KeyError(printed: string)

  /** `find_and_update_git_cache` as written. */
  function FindAndUpdateAsWritten(h: Host, reporoot: string, registry: Dict<string, string>, report: Dict<string, seq<string>>): (r: Outcome)
    requires registry.Valid() && report.Valid()
    ensures r.KeyError? <==> registry.m == map[]
    ensures r.Updated? ==> r == FindAndUpdate(h, reporoot, registry, report)
    ensures r.printed == Notice(Synchronise(h, reporoot))
  {
    var s := Synchronise(h, reporoot);
    match RegisterAsWritten(registry, reporoot, MirrorDir(h, reporoot))
    case None => KeyError(Notice(s))
    case Some(reg) => Updated(s.gitDir, reg, Report(report, reporoot, s), Notice(s))
  }

  /** `find_and_update_git_cache` with the registry update corrected. */
  function FindAndUpdate(h: Host, reporoot: string, registry: Dict<string, string>, report: Dict<string, seq<string>>): (r: Outcome)
    requires registry.Valid() && report.Valid()
    ensures r.Updated?
    ensures r.gitDir == Synchronise(h, reporoot).gitDir
    ensures r.registry.m == registry.m[reporoot := MirrorDir(h, reporoot)]
    ensures Synchronise(h, reporoot).exitCode == 0 ==> r.report == report
    ensures Synchronise(h, reporoot).exitCode != 0 ==> r.report.m == report.m[reporoot := SplitLines(Synchronise(h, reporoot).reply)]
    ensures r.printed == Notice(Synchronise(h, reporoot))
  {
    var s := Synchronise(h, reporoot);
    Updated(s.gitDir, Register(registry, reporoot, MirrorDir(h, reporoot)), Report(report, reporoot, s), Notice(s))
  }

  /** A presoak registry or a report as loaded: a dictionary with its key order. */
  type Registry = d: Dict<string, string> | d.Valid() witness Dict([], map[])
  type ReportFile = d: Dict<string, seq<string>> | d.Valid() witness Dict([], map[])

  /** A failed pull still hands back the git dir that was found. */
  lemma FailedPullKeepsGitDir(h: Host, reporoot: string, registry: Dict<string, string>, report: Dict<string, seq<string>>)
    requires registry.Valid() && report.Valid()
    requires h.gitDirIn(MirrorDir(h, reporoot)).Some?
    requires h.pull(h.gitDirIn(MirrorDir(h, reporoot)).value).1 != 0
    ensures FindAndUpdate(h, reporoot, registry, report).gitDir == h.gitDirIn(MirrorDir(h, reporoot))
    ensures reporoot in FindAndUpdate(h, reporoot, registry, report).report.m
    ensures StartsWith(FindAndUpdate(h, reporoot, registry, report).printed, "  pulling failed:")
  {
  }

  /**
   `load_json_data`: the parsed content of a file, or an empty dictionary when the file
   is missing or does not parse.
   */
  function LoadJsonData<V>(present: bool, parsed: Option<Dict<string, V>>): (r: Dict<string, V>)
    ensures !present || parsed.None? ==> r.keys == [] && r.m == map[]
    ensures present && parsed.Some? ==> r == parsed.value
  {
    if present && parsed.Some? then parsed.value else Empty()
  }
}
