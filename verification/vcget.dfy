/**
 The retrieval side: `vcget` is what the debugger runs, through the stream's command
 template, to fetch one revision of one file. It reads four arguments, asks svn (via
 `svn cat`) or git (via `git show`, in a local working copy or in a mirror) and writes
 the reply to standard output as bytes.
 */
module Vcget {
  import opened Strs
  import Records
  import Stream
  import Mirror

  newtype Byte = b: int | 0 <= b < 256

  /** The bytes of an ASCII text. */
  function Ascii(s: string): (r: seq<Byte>)
    ensures |r| == |s|
  {
    seq(|s|, i requires 0 <= i < |s| => (s[i] as int % 256) as Byte)
  }

  predicate BytesStartWith(b: seq<Byte>, p: seq<Byte>) {
    |p| <= |b| && b[..|p|] == p
  }

  const Crlf: seq<Byte> := [13, 10]

  function RedirectPrefix(): seq<Byte> {
    Ascii("Redirecting to URL")
  }

  /** True when `\r\n` starts at `k`. */
  predicate CrlfAt(b: seq<Byte>, k: nat) {
    k + 1 < |b| && b[k] == 13 && b[k + 1] == 10
  }

  /** `bytes.index(b'\r\n', i)`: the first `\r\n` at or after `i`, or `None` (ValueError). */
  function FindCrlf(b: seq<Byte>, i: nat): (r: Option<nat>)
    ensures r.Some? ==> i <= r.value && CrlfAt(b, r.value) && forall k :: i <= k < r.value ==> !CrlfAt(b, k)
    ensures r.None? ==> forall k :: i <= k ==> !CrlfAt(b, k)
    decreases |b| - i
  {
    if i + 1 >= |b| then None
    else if CrlfAt(b, i) then Some(i)
    else FindCrlf(b, i + 1)
  }

  /**
   The redirect workaround of `handle_svn`: a reply that starts with
   `Redirecting to URL` loses everything up to and including its first `\r\n`
   (`None` when there is none: `index` raises ValueError); any other reply is kept.
   */
  function StripRedirect(reply: seq<Byte>): (r: Option<seq<Byte>>)
    ensures !BytesStartWith(reply, RedirectPrefix()) ==> r == Some(reply)
    ensures r.None? <==> BytesStartWith(reply, RedirectPrefix()) && forall k: nat :: !CrlfAt(reply, k)
    ensures BytesStartWith(reply, RedirectPrefix()) && r.Some? ==>
              exists k :: CrlfAt(reply, k) && (forall j: nat :: j < k ==> !CrlfAt(reply, j)) && r.value == reply[k + 2..]
  {
    if BytesStartWith(reply, RedirectPrefix()) then
      match FindCrlf(reply, 0)
      case None => None
      case Some(k) => Some(reply[k + 2..])
    else Some(reply)
  }

  /** A redirect notice followed by `\r\n` and the content gives back exactly the content. */
  lemma {:induction false} StripRedirectNotice(notice: seq<Byte>, content: seq<Byte>)
    requires BytesStartWith(notice, RedirectPrefix())
    requires forall k: nat :: !CrlfAt(notice, k)
    ensures StripRedirect(notice + Crlf + content) == Some(content)
  {
    var reply := notice + Crlf + content;
    assert reply[..|RedirectPrefix()|] == notice[..|RedirectPrefix()|];
    assert CrlfAt(reply, |notice|);
    forall j: nat | j < |notice| ensures !CrlfAt(reply, j) {
      if j + 1 < |notice| {
        assert !CrlfAt(notice, j);
      }
    }
    var r := FindCrlf(reply, 0);
    assert r == Some(|notice|);
    assert reply[|notice| + 2..] == content;
  }

  // ---------------------------------------------------------------------------
  // Arguments
  // ---------------------------------------------------------------------------

  /** What the four arguments ask for; git needs no relative path, only the blob hash. */
  datatype Route = SvnCat(reporoot: string, relpath: string, revision: string) | GitShow(reporoot: string, revision: string)

  /**
   The argument check of `main`: fewer than four arguments after the program name,
   or a system other than `svn` and `git`, is refused (exit code 3); anything past
   the fourth argument is ignored.
   */
  function ParseArgs(argv: seq<string>): (r: Option<Route>)
    ensures r.None? <==> |argv| < 5 || (argv[1] != "svn" && argv[1] != "git")
    ensures r.Some? && r.value.SvnCat? ==> r.value == SvnCat(argv[2], argv[3], argv[4]) && argv[1] == "svn"
    ensures r.Some? && r.value.GitShow? ==> r.value == GitShow(argv[2], argv[4]) && argv[1] == "git"
  {
    if |argv| < 5 then None
    else if argv[1] == "svn" then Some(SvnCat(argv[2], argv[3], argv[4]))
    else if argv[1] == "git" then Some(GitShow(argv[2], argv[4]))
    else None
  }

  /** Arguments past the fourth, such as the stream's sha1, change nothing. */
  lemma RouteIgnoresExtra(argv: seq<string>, extra: seq<string>)
    requires |argv| >= 5
    ensures ParseArgs(argv + extra) == ParseArgs(argv)
  {
    assert (argv + extra)[..5] == argv[..5];
    assert (argv + extra)[1] == argv[1] && (argv + extra)[2] == argv[2];
    assert (argv + extra)[3] == argv[3] && (argv + extra)[4] == argv[4];
  }

  /**
   The stream's command passes var2 to var5 of a data line: `vcs`, `reporoot`,
   `relpath`, `revision`. Those are exactly the fields `main` reads, so each record
   is fetched from its own system at its own revision.
   */
  lemma DataLineRoutes(file: string, rec: Records.Record)
    ensures var fs := Stream.Fields(file, rec);
            ParseArgs(["vcget.py"] + fs[1..5])
            == Some(if rec.SvnRecord? then SvnCat(rec.reporoot, rec.relpath, rec.revision)
                    else GitShow(Show(rec.RepoRoot()), rec.revision))
  {
  }

  // ---------------------------------------------------------------------------
  // Fetching
  // ---------------------------------------------------------------------------

  /** `handle_svn`: the file's URL is the repository root, a slash, the relative path. */
  function SvnUrl(reporoot: string, relpath: string): (r: string)
    ensures StartsWith(r, reporoot) && EndsWith(r, relpath)
    ensures |r| == |reporoot| + 1 + |relpath| && r[|reporoot|] == '/'
  {
    var r := reporoot + "/" + relpath;
    assert r[..|reporoot|] == reporoot;
    assert r[|r| - |relpath|..] == relpath;
    r
  }

  /** `svn cat <url>@<revision>`. */
  function SvnCommand(reporoot: string, relpath: string, revision: string): (r: string)
    ensures StartsWith(r, "svn cat ") && EndsWith(r, "@" + revision)
    ensures |r| == 8 + |SvnUrl(reporoot, relpath)| + 1 + |revision|
    ensures r[8..|r| - |revision| - 1] == SvnUrl(reporoot, relpath)
  {
    var r := "svn cat " + SvnUrl(reporoot, relpath) + "@" + revision;
    assert r[..8] == "svn cat ";
    assert r[|r| - |revision| - 1..] == "@" + revision;
    assert r[8..|r| - |revision| - 1] == SvnUrl(reporoot, relpath);
    r
  }

  function GitCommand(revision: string): string {
    "git show " + revision
  }

  /**
   What the host answers: whether a path exists, the reply of a command run in a
   directory (`None`: the current one), the mirror cache's host, the presoak registry
   and report as loaded, and the UTF-8 encoding of a text.
   */
  datatype Env = Env(
    exists_: string -> bool,
    run: (string, Option<string>) -> seq<Byte>,
    mirrors: Mirror.Host,
    presoak: Mirror.Registry,
    report: Mirror.ReportFile,
    utf8: string -> seq<Byte>
  )

  /** A reply is the command's bytes, a diagnostic text, or an exception. */
  datatype Reply = Bytes(data: seq<Byte>) | Text(text: string) | Raised(error: string)

  /** A reply together with what was printed while it was fetched. */
  datatype Fetched = Fetched(reply: Reply, printed: string)

  /** The diagnostic of `handle_remote_git` when no mirror is found. */
  function NoMirror(reporoot: string, gitDir: Option<string>): string {
    "Could not find a .git dir from " + reporoot + "\nwhen looking in " + Show(gitDir)
  }

  /** `find_and_update_git_cache` for a reporoot, as written or with the registry update corrected. */
  function Remote(reporoot: string, env: Env, asWritten: bool): (r: Mirror.Outcome)
    ensures r.KeyError? <==> asWritten && env.presoak.m == map[]
    ensures r.Updated? ==> r.gitDir == Mirror.Synchronise(env.mirrors, reporoot).gitDir
    ensures r.printed == Mirror.Notice(Mirror.Synchronise(env.mirrors, reporoot))
  {
    if asWritten then Mirror.FindAndUpdateAsWritten(env.mirrors, reporoot, env.presoak, env.report)
    else Mirror.FindAndUpdate(env.mirrors, reporoot, env.presoak, env.report)
  }

  /**
   `handle_svn` and `handle_git`: svn runs `svn cat` and strips a redirect notice; git
   runs `git show <revision>` in the reporoot when that path exists, otherwise brings
   the mirror of the reporoot up to date (printing a failed pull or clone), shows the
   revision there, and describes the failure when there is no mirror.
   */
  function Fetch(route: Route, env: Env, asWritten: bool): (r: Fetched)
    ensures route.SvnCat? ==>
              && r.printed == ""
              && match StripRedirect(env.run(SvnCommand(route.reporoot, route.relpath, route.revision), None))
                 case None => r.reply == Raised("ValueError")
                 case Some(b) => r.reply == Bytes(b)
    ensures route.GitShow? && env.exists_(route.reporoot) ==>
              r == Fetched(Bytes(env.run(GitCommand(route.revision), Some(route.reporoot))), "")
    ensures route.GitShow? && !env.exists_(route.reporoot) ==>
              && r.printed == Mirror.Notice(Mirror.Synchronise(env.mirrors, route.reporoot))
              && (r.reply.Raised? <==> asWritten && env.presoak.m == map[])
              && (r.reply.Raised? ==> r.reply.error == "KeyError")
              && var dir := Mirror.Synchronise(env.mirrors, route.reporoot).gitDir;
                 !r.reply.Raised? ==>
                   if Truthy(dir) then r.reply == Bytes(env.run(GitCommand(route.revision), dir))
                   else r.reply == Text(NoMirror(route.reporoot, dir))
  {
    match route
    case SvnCat(root, rel, rev) =>
      (match StripRedirect(env.run(SvnCommand(root, rel, rev), None))
       case None => Fetched(Raised("ValueError"), "")
       case Some(b) => Fetched(Bytes(b), ""))
    case GitShow(root, rev) =>
      if env.exists_(root) then Fetched(Bytes(env.run(GitCommand(rev), Some(root))), "")
      else
        match Remote(root, env, asWritten)
        case KeyError(p) => Fetched(Raised("KeyError"), p)
        case Updated(dir, _, _, p) =>
          if Truthy(dir) then Fetched(Bytes(env.run(GitCommand(rev), dir)), p)
          else Fetched(Text(NoMirror(root, dir)), p)
  }

  /** The two registry updates fetch the same, except where the one as written raises. */
  lemma FetchAgrees(route: Route, env: Env)
    ensures Fetch(route, env, true).reply != Raised("KeyError") ==> Fetch(route, env, true) == Fetch(route, env, false)
    ensures Fetch(route, env, true).reply == Raised("KeyError") <==>
              route.GitShow? && !env.exists_(route.reporoot) && env.presoak.m == map[]
  {
  }

  /** Git output never depends on the relative path. */
  lemma GitIgnoresRelpath(root: string, rev: string, env: Env, asWritten: bool)
    ensures Fetch(GitShow(root, rev), env, asWritten).reply.Bytes? ==>
              exists dir :: Fetch(GitShow(root, rev), env, asWritten).reply == Bytes(env.run(GitCommand(rev), Some(dir)))
  {
    var dir := Mirror.Synchronise(env.mirrors, root).gitDir;
    if !env.exists_(root) && Truthy(dir) && Fetch(GitShow(root, rev), env, asWritten).reply.Bytes? {
      assert Fetch(GitShow(root, rev), env, asWritten).reply == Bytes(env.run(GitCommand(rev), Some(dir.value)));
    }
  }

  /** `usage`: two lines naming the program. */
  function Usage(program: string): string {
    program + " vcs reporoot relpath revision\n"
    + "  e.g. " + program + " svn https://barbar/svn/SVNrepo trunk/main.c 3\n"
  }

  /** What `main` prints before refusing its arguments. */
  function Refusal(argv: seq<string>): string
    requires |argv| >= 1
  {
    if |argv| < 5 then "Too few arguments\n" + Usage(argv[0])
    else "Cannot handle " + argv[1] + ", only svn and git\n\n" + Usage(argv[0])
  }

  /**
   How `main` ends: an exit code with the text it printed and the bytes it wrote, or an
   exception with the text printed before it. Text goes through `print` and bytes through
   `sys.stdout.buffer`; the two are kept apart.
   */
  datatype Outcome = Exit(code: int, printed: string, out: seq<Byte>) | Uncaught(error: string, printed: string)

  /**
   `main` as written: the diagnostic text reaches `sys.stdout.buffer.write`, which takes
   bytes only, so a missing mirror ends in a TypeError instead of the message. The
   program name `sys.argv[0]` is always present.
   */
  function MainAsWritten(argv: seq<string>, env: Env): (r: Outcome)
    requires |argv| >= 1
    ensures ParseArgs(argv).None? <==> r.Exit? && r.code == 3
    ensures r.Exit? && r.code == 3 ==>
              && r.out == []
              && StartsWith(r.printed, if |argv| < 5 then "Too few arguments\n" else "Cannot handle " + argv[1] + ", only svn and git\n")
              && EndsWith(r.printed, Usage(argv[0]))
    ensures ParseArgs(argv).Some? ==>
              var f := Fetch(ParseArgs(argv).value, env, true);
              && r.printed == f.printed
              && (f.reply.Bytes? ==> r == Exit(0, f.printed, f.reply.data))
              && (f.reply.Text? ==> r == Uncaught("TypeError", f.printed))
              && (f.reply.Raised? ==> r == Uncaught(f.reply.error, f.printed))
  {
    match ParseArgs(argv)
    case None =>
      var r := Exit(3, Refusal(argv), []);
      RefusalShape(argv);
      r
    case Some(route) =>
      var f := Fetch(route, env, true);
      match f.reply
      case Bytes(b) => Exit(0, f.printed, b)
      case Text(_) => Uncaught("TypeError", f.printed)
      case Raised(e) => Uncaught(e, f.printed)
  }

  lemma RefusalShape(argv: seq<string>)
    requires |argv| >= 1
    ensures StartsWith(Refusal(argv), if |argv| < 5 then "Too few arguments\n" else "Cannot handle " + argv[1] + ", only svn and git\n")
    ensures EndsWith(Refusal(argv), Usage(argv[0]))
  {
    var u := Usage(argv[0]);
    var r := Refusal(argv);
    if |argv| < 5 {
      assert r == "Too few arguments\n" + u;
      assert r[..18] == "Too few arguments\n";
    } else {
      var p := "Cannot handle " + argv[1] + ", only svn and git\n";
      assert r == p + "\n" + u;
      assert r[..|p|] == p;
    }
    assert r[|r| - |u|..] == u;
  }

  /**
   With a registry present but no mirror found for a remote reporoot, the as-written
   `main` raises a TypeError, while the corrected one writes the diagnostic.
   */
  lemma MissingMirrorRaises(argv: seq<string>, env: Env)
    requires |argv| >= 5 && argv[1] == "git"
    requires !env.exists_(argv[2]) && env.presoak.m != map[]
    requires Mirror.Synchronise(env.mirrors, argv[2]).gitDir == None
    ensures var notice := Mirror.Notice(Mirror.Synchronise(env.mirrors, argv[2]));
            && MainAsWritten(argv, env) == Uncaught("TypeError", notice)
            && Main(argv, env) == Exit(0, notice, env.utf8(NoMirror(argv[2], None)))
  {
  }

  /**
   With an empty or missing presoak registry, any remote reporoot makes the as-written
   `main` raise a KeyError after the mirror has been pulled or cloned (and its notice
   printed), while the corrected one exits normally.
   */
  lemma EmptyPresoakRaises(argv: seq<string>, env: Env)
    requires |argv| >= 5 && argv[1] == "git"
    requires !env.exists_(argv[2]) && env.presoak.m == map[]
    ensures MainAsWritten(argv, env) == Uncaught("KeyError", Mirror.Notice(Mirror.Synchronise(env.mirrors, argv[2])))
    ensures Main(argv, env).Exit? && Main(argv, env).code == 0
  {
  }

  /**
   `main` with the diagnostic encoded before it is written and the registry update
   corrected: it never raises except on an svn redirect notice without a line end, and
   wherever the code as written exits, the two agree.
   */
  function Main(argv: seq<string>, env: Env): (r: Outcome)
    requires |argv| >= 1
    ensures ParseArgs(argv).None? <==> r.Exit? && r.code == 3
    ensures r.Uncaught? ==> r.error == "ValueError" && ParseArgs(argv).value.SvnCat?
    ensures ParseArgs(argv).Some? && Fetch(ParseArgs(argv).value, env, false).reply.Text? ==>
              r == Exit(0, Fetch(ParseArgs(argv).value, env, false).printed, env.utf8(Fetch(ParseArgs(argv).value, env, false).reply.text))
    ensures MainAsWritten(argv, env).Exit? ==> r == MainAsWritten(argv, env)
  {
    match ParseArgs(argv)
    case None => Exit(3, Refusal(argv), [])
    case Some(route) =>
      FetchAgrees(route, env);
      var f := Fetch(route, env, false);
      match f.reply
      case Bytes(b) => Exit(0, f.printed, b)
      case Text(t) => Exit(0, f.printed, env.utf8(t))
      case Raised(e) => Uncaught(e, f.printed)
  }
}
