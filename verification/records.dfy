/**
 The provenance records the resolver produces and caches, and the host facts
 (filesystem answers and command replies) that the resolver consumes.
 */
module Records {
  import opened Strs
  import opened Paths

  datatype Vcs = Svn | Git

  /** The value of a record's `vcs` field. */
  function VcsName(v: Vcs): string {
    match v
    case Svn => "svn"
    case Git => "git"
  }

  /**
   One resolved source file.
   - svn: `reporoot` is the working copy's URL, `checksum` the listing's Checksum
     (absent when the listing gave none).
   - git: `remote` is the origin fetch URL (absent when there is none) and serves as
     `reporoot` too; `revision` is the blob hash, `commitId` the raw reply of
     `git log -1 --format=%H`, `local` the working-copy root.
   */
  datatype Record =
    | SvnRecord(reporoot: string, relpath: string, revision: string, checksum: Option<string>)
    | GitRecord(remote: Option<string>, relpath: string, revision: string, commitId: string, local: string)
  {
    function Kind(): Vcs {
      if SvnRecord? then Svn else Git
    }

    /** The `reporoot` field; a git record without a remote holds `None`. */
    function RepoRoot(): Option<string> {
      if SvnRecord? then Some(reporoot) else remote
    }

    /** The `sha1` field: the checksum for svn, the commit id for git. */
    function Sha1(): Option<string> {
      if SvnRecord? then checksum else Some(commitId)
    }
  }

  /** A value of the per-file cache: a record, or the `{'no-vcs': 'true'}` marker. */
  datatype Entry = Known(rec: Record) | NoVcs

  /**
   What the resolver learns from outside: filesystem answers and the replies of the
   version-control commands, each as a function of the directory it runs in.
   */
  datatype Host = Host(
    abspath: string -> string,                   // os.path.abspath of a file path
    dirOf: string -> Dir,                        // abspath(dirname(file)) as a structured directory
    render: Dir -> string,                       // str() of a directory
    fs: set<Dir>,                                // the entries that exist (for `.svn` / `.git` tests)
    absJoin: (string, string) -> Option<string>, // abspath(join(root, rel)); None when it raises
    relpath: string -> string,                   // os.path.relpath from the working directory, which is the listed root
    svnInfo: string -> string,                   // reply of `svn info -R` in a root
    gitRemote: string -> string,                 // reply of `git remote -v` in a root
    gitLog: string -> string,                    // reply of `git log -1 --format=%H` in a root
    gitLsFiles: string -> string,                // reply of `git ls-files -s` in a root
    lowerCase: bool                              // option --lower_case_pdb
  )

  /** The cache key of a listed file: the absolute path, lowercased under --lower_case_pdb. */
  function CacheKey(host: Host, root: string, rel: string): Option<string> {
    match host.absJoin(root, rel)
    case None => None
    case Some(k) => Some(if host.lowerCase then Lower(k) else k)
  }
}
