/**
 The provenance resolver of script/prepPDB.py: `skip_file`, the svn and git probes with
 their per-root caches (`is_in_svn`, `is_in_git`), and `get_vcs_information`, which
 resolves every source file of a PDB once per run, trying svn, then git, then the
 imported records of static libraries, and caches the negative answer as `no-vcs`.
 */
module Resolver {
  import opened Strs
  import opened Paths
  import opened Dicts
  import opened Records
  import SvnInfo
  import GitListing

  // ---------------------------------------------------------------------------
  // skip_file
  // ---------------------------------------------------------------------------

  /** The directory prefixes whose files are never indexed; the test is case-sensitive. */
  function SkipDirs(): seq<string> { ["c:\\program files", "C:\\Program Files"] }

  /** `skip_file`: the directory of the file starts with one of the skipped prefixes. */
  predicate SkipFile(file: string) {
    exists i :: 0 <= i < |SkipDirs()| && StartsWith(Dirname(file), SkipDirs()[i])
  }

  /** Only files whose path starts with a skipped prefix are skipped. */
  lemma SkippedHasPrefix(file: string)
    requires SkipFile(file)
    ensures StartsWith(file, "c:\\program files") || StartsWith(file, "C:\\Program Files")
  {
    var i :| 0 <= i < |SkipDirs()| && StartsWith(Dirname(file), SkipDirs()[i]);
    var d := Dirname(file);
    assert file[..|d|] == d;
    assert file[..|SkipDirs()[i]|] == d[..|SkipDirs()[i]|];
  }

  /**
   A file joined onto a directory (with no trailing separator, and a file name free of
   separators) is skipped exactly when the directory starts with a skipped prefix.
   */
  lemma SkipOfJoin(dir: string, name: string)
    requires |dir| > DriveLen(dir) && !IsSep(dir[|dir| - 1])
    requires forall j :: 0 <= j < |name| ==> !IsSep(name[j])
    ensures SkipFile(JoinPath(dir, name)) <==> exists i :: 0 <= i < |SkipDirs()| && StartsWith(dir, SkipDirs()[i])
  {
    DirnameOfJoin(dir, name);
  }

  /** Every file below `C:\\Program Files` is skipped, whatever follows the separator. */
  lemma SkipsProgramFiles(rest: string)
    ensures SkipFile("C:\\Program Files\\" + rest)
  {
    var file := "C:\\Program Files\\" + rest;
    assert file[16] == '\\' && file[15] == 's' && file[1] == ':';
    DirnameKeeps(file, 16);
    assert file[..16] == SkipDirs()[1];
  }

  /** The test is case-sensitive: a mixed-case spelling is not skipped. */
  lemma MixedCaseNotSkipped(rest: string)
    ensures !SkipFile("C:\\PROGRAM FILES\\" + rest)
  {
    var file := "C:\\PROGRAM FILES\\" + rest;
    Differs(file, "c:\\program files", 0);
    Differs(file, "C:\\Program Files", 4);
    if SkipFile(file) {
      SkippedHasPrefix(file);
      assert false;
    }
  }

  lemma Differs(s: string, p: string, j: nat)
    requires j < |p| && j < |s| && s[j] != p[j]
    ensures !StartsWith(s, p)
  {
  }

  // ---------------------------------------------------------------------------
  // The per-root caches
  // ---------------------------------------------------------------------------

  /** A cache of listed roots: for each root, in registration order, its files' records. */
  type RootCache = Dict<string, map<string, Record>>

  /** The root `root` of `cache` lies on the path of `file` and lists it. */
  predicate Lists(cache: map<string, map<string, Record>>, root: string, file: string) {
    root in cache && StartsWith(file, root) && file in cache[root]
  }

  /** The record of the first root, in registration order, that lists `file`. */
  function CachedHit(roots: seq<string>, cache: map<string, map<string, Record>>, file: string): (r: Option<Record>)
    ensures r.Some? ==> exists i :: 0 <= i < |roots| && Lists(cache, roots[i], file) && r.value == cache[roots[i]][file]
    ensures r.None? <==> forall i :: 0 <= i < |roots| ==> !Lists(cache, roots[i], file)
    decreases |roots|
  {
    if |roots| == 0 then None
    else if Lists(cache, roots[0], file) then Some(cache[roots[0]][file])
    else
      var r := CachedHit(roots[1..], cache, file);
      assert forall i :: 0 < i < |roots| ==> roots[i] == roots[1..][i - 1];
      r
  }

  /** The first listing root wins, even when a later root lists the same file too. */
  lemma {:induction false} CachedHitFirst(roots: seq<string>, cache: map<string, map<string, Record>>, file: string, i: nat)
    requires i < |roots| && Lists(cache, roots[i], file)
    requires forall j :: 0 <= j < i ==> !Lists(cache, roots[j], file)
    ensures CachedHit(roots, cache, file) == Some(cache[roots[i]][file])
    decreases i
  {
    if i > 0 {
      CachedHitFirst(roots[1..], cache, file, i - 1);
    }
  }

  /**
   Registering more roots, and keeping the listings of the old ones, never changes a hit
   that the old roots already gave.
   */
  lemma {:induction false} CachedHitExtend(roots: seq<string>, keys: seq<string>, cache: map<string, map<string, Record>>,
                                           cache': map<string, map<string, Record>>, file: string)
    requires |roots| <= |keys| && keys[..|roots|] == roots
    requires forall i :: 0 <= i < |roots| ==> roots[i] in cache
    requires forall k :: k in cache ==> k in cache' && cache'[k] == cache[k]
    requires CachedHit(roots, cache, file).Some?
    ensures CachedHit(keys, cache', file) == CachedHit(roots, cache, file)
    decreases |roots|
  {
    assert keys[0] == keys[..|roots|][0] == roots[0];
    if !Lists(cache, roots[0], file) {
      assert keys[1..][..|roots| - 1] == roots[1..];
      CachedHitExtend(roots[1..], keys[1..], cache, cache', file);
    }
  }

  /** What a probe answers, and the root cache after it. */
  datatype Probe = Probe(hit: Option<Record>, cache: RootCache)

  /** The working-copy root of a file for a marker (`.svn` or `.git`), as a string. */
  function RootOf(file: string, marker: string, host: Host): Option<string> {
    match FindRoot(host.dirOf(file), marker, host.fs)
    case None => None
    case Some(d) => Some(host.render(d))
  }

  /**
   `is_in_svn`. A file listed by a cached root is served from the cache. Otherwise the
   file's `.svn` root is found; a root that is already cached, or whose `svn info -R`
   reply is shorter than two characters, ends the probe with a miss. A new root is
   listed once, registered even when its listing is empty, and looked up.
   */
  function IsInSvn(file: string, cache: RootCache, host: Host): (r: Probe)
    requires cache.Valid()
    ensures r.cache.Valid()
    ensures forall k :: k in cache.m ==> k in r.cache.m && r.cache.m[k] == cache.m[k]
    ensures r.cache.keys == cache.keys
      || (RootOf(file, ".svn", host).Some? && RootOf(file, ".svn", host).value !in cache.m
          && r.cache.keys == cache.keys + [RootOf(file, ".svn", host).value])
    ensures r.hit.Some? ==> exists root :: root in r.cache.m && file in r.cache.m[root] && r.hit.value == r.cache.m[root][file]
    ensures r.hit.Some? ==> r.hit.value.SvnRecord? || CachedHit(cache.keys, cache.m, file).Some?
    ensures CachedHit(cache.keys, cache.m, file).Some? ==> r == Probe(CachedHit(cache.keys, cache.m, file), cache)
    ensures RootOf(file, ".svn", host).Some? && RootOf(file, ".svn", host).value in cache.m ==>
      r.cache == cache && r.hit == CachedHit(cache.keys, cache.m, file)
    ensures CachedHit(cache.keys, cache.m, file).None? && RootOf(file, ".svn", host).None? ==> r == Probe(None, cache)
    ensures var root := RootOf(file, ".svn", host);
      CachedHit(cache.keys, cache.m, file).None? && root.Some? && root.value !in cache.m ==>
        if |host.svnInfo(root.value)| < 2 then r == Probe(None, cache)
        else
          var listing := SvnInfo.Parse(SplitLines(host.svnInfo(root.value)), root.value, host);
          && r.cache == Put(cache, root.value, listing)
          && r.hit == (if file in listing then Some(listing[file]) else None)
  {
    match CachedHit(cache.keys, cache.m, file)
    case Some(rec) => Probe(Some(rec), cache)
    case None =>
      match RootOf(file, ".svn", host)
      case None => Probe(None, cache)
      case Some(root) =>
        if root in cache.m then Probe(None, cache)
        else
          var reply := host.svnInfo(root);
          if |reply| < 2 then Probe(None, cache)
          else
            var listing := SvnInfo.Parse(SplitLines(reply), root, host);
            var cache' := Put(cache, root, listing);
            assert cache'.m[root] == listing;
            Probe(if file in listing then Some(listing[file]) else None, cache')
  }

  /** The `git ls-files -s` replies that end the probe before the root is registered. */
  predicate LsRefused(reply: string) {
    |reply| == 0 || StartsWith(reply, "fatal")
  }

  /**
   The listing of a git root: the records of its `git ls-files -s` reply, each carrying
   the last origin fetch URL and the raw commit id, and whether every line matched.
   */
  function GitListingOf(root: string, host: Host): (r: (map<string, Record>, bool))
    ensures forall k :: k in r.0 ==> r.0[k].GitRecord? && r.0[k].local == root && r.0[k].commitId == host.gitLog(root)
  {
    var remote := GitListing.OriginRemote(SplitLines(host.gitRemote(root)), None);
    var matches := GitListing.LsMatches(SplitLines(host.gitLsFiles(root)));
    GitListing.ListFiles(matches, root, remote, host.gitLog(root), host, map[])
  }

  /**
   `is_in_git`. A file listed by a cached root is served from the cache. Otherwise the
   file's `.git` root is listed again, even when it is cached already: an empty or `fatal`
   reply leaves the cache alone; any other reply replaces the root's records by the new
   listing, and the file is a hit only when every line matched and the file is listed.
   */
  function IsInGit(file: string, cache: RootCache, host: Host): (r: Probe)
    requires cache.Valid()
    ensures r.cache.Valid()
    ensures CachedHit(cache.keys, cache.m, file).Some? ==> r == Probe(CachedHit(cache.keys, cache.m, file), cache)
    ensures r.cache == cache || (
      && RootOf(file, ".git", host).Some?
      && !LsRefused(host.gitLsFiles(RootOf(file, ".git", host).value))
      && r.cache.m == cache.m[RootOf(file, ".git", host).value := GitListingOf(RootOf(file, ".git", host).value, host).0])
    ensures RootOf(file, ".git", host).Some? && RootOf(file, ".git", host).value in cache.m ==> r.cache.keys == cache.keys
    ensures r.hit.Some? ==> exists root :: root in r.cache.m && file in r.cache.m[root] && r.hit.value == r.cache.m[root][file]
    ensures r.hit.Some? && CachedHit(cache.keys, cache.m, file).None? ==>
      && RootOf(file, ".git", host).Some? && GitListingOf(RootOf(file, ".git", host).value, host).1
      && r.hit.value.GitRecord? && r.hit.value.local == RootOf(file, ".git", host).value
    ensures CachedHit(cache.keys, cache.m, file).None? && RootOf(file, ".git", host).None? ==> r == Probe(None, cache)
    ensures var root := RootOf(file, ".git", host);
      CachedHit(cache.keys, cache.m, file).None? && root.Some? ==>
        if LsRefused(host.gitLsFiles(root.value)) then r == Probe(None, cache)
        else
          var listing := GitListingOf(root.value, host);
          && r.cache == Put(cache, root.value, listing.0)
          && r.hit == (if listing.1 && file in listing.0 then Some(listing.0[file]) else None)
  {
    match CachedHit(cache.keys, cache.m, file)
    case Some(rec) => Probe(Some(rec), cache)
    case None =>
      match RootOf(file, ".git", host)
      case None => Probe(None, cache)
      case Some(root) =>
        if LsRefused(host.gitLsFiles(root)) then Probe(None, cache)
        else
          var listing := GitListingOf(root, host);
          var cache' := Put(cache, root, listing.0);
          assert cache'.m[root] == listing.0;
          Probe(if listing.1 && file in listing.0 then Some(listing.0[file]) else None, cache')
  }

  /**
   A new svn root whose `svn info -R` reply is a well-formed listing is registered with
   exactly the reference records of that listing, and the file is a hit iff it is among them.
   */
  lemma SvnProbeOfListing(file: string, cache: RootCache, host: Host, url: string, items: seq<SvnInfo.Item>)
    requires cache.Valid() && CachedHit(cache.keys, cache.m, file).None?
    requires RootOf(file, ".svn", host).Some? && RootOf(file, ".svn", host).value !in cache.m
    requires |host.svnInfo(RootOf(file, ".svn", host).value)| >= 2
    requires SplitLines(host.svnInfo(RootOf(file, ".svn", host).value)) == SvnInfo.Listing(url, items)
    ensures var root := RootOf(file, ".svn", host).value;
            var expected := SvnInfo.Expected(url, items, root, host, map[]);
            var r := IsInSvn(file, cache, host);
            && r.cache.keys == cache.keys + [root]
            && r.cache.m == cache.m[root := expected]
            && r.hit == (if file in expected then Some(expected[file]) else None)
  {
    var root := RootOf(file, ".svn", host).value;
    SvnInfo.ParseListing(url, items, root, host);
  }

  /**
   A git root every line of whose `git ls-files -s` reply matches, giving the hash and path
   of one staged file after another (as the lines of well-formed files do, by
   `GitListing.LsMatchesOfStaged`), is (re)registered with exactly the reference records
   of those files, and the file is a hit iff it is among them.
   */
  lemma GitProbeOfStaged(file: string, cache: RootCache, host: Host, files: seq<GitListing.StagedFile>)
    requires cache.Valid() && CachedHit(cache.keys, cache.m, file).None?
    requires RootOf(file, ".git", host).Some?
    requires !LsRefused(host.gitLsFiles(RootOf(file, ".git", host).value))
    requires GitListing.LsMatches(SplitLines(host.gitLsFiles(RootOf(file, ".git", host).value))) == GitListing.Matched(files)
    ensures var root := RootOf(file, ".git", host).value;
            var remote := GitListing.OriginRemote(SplitLines(host.gitRemote(root)), None);
            var expected := GitListing.Stage(files, root, remote, host.gitLog(root), host, map[]);
            var r := IsInGit(file, cache, host);
            && r.cache.m == cache.m[root := expected]
            && r.hit == (if file in expected then Some(expected[file]) else None)
  {
    var root := RootOf(file, ".git", host).value;
    var remote := GitListing.OriginRemote(SplitLines(host.gitRemote(root)), None);
    GitListing.ListFilesMatched(files, root, remote, host.gitLog(root), host, map[]);
  }

  // ---------------------------------------------------------------------------
  // get_vcs_information
  // ---------------------------------------------------------------------------

  /**
   The state of one run: the records output so far (in output order), the per-file cache
   `vcs_cache`, and the svn and git root caches.
   */
  datatype State = State(data: Dict<string, Record>, vcs: map<string, Entry>, svn: RootCache, git: RootCache)

  /** Every output record is also the file's cached entry. */
  predicate Inv(st: State) {
    && st.data.Valid() && st.svn.Valid() && st.git.Valid()
    && forall f :: f in st.data.m ==> f in st.vcs && st.vcs[f] == Known(st.data.m[f])
  }

  /** What the run learns about a file it has not cached: svn first, then git, then the imports. */
  function Resolve(f: string, st: State, imports: map<string, Entry>, host: Host): (r: (Entry, RootCache, RootCache))
    requires st.svn.Valid() && st.git.Valid()
    ensures r.1.Valid() && r.2.Valid()
    ensures forall k :: k in st.svn.m ==> k in r.1.m && r.1.m[k] == st.svn.m[k]
    ensures r.1 == IsInSvn(f, st.svn, host).cache
    ensures IsInSvn(f, st.svn, host).hit.Some? ==> r.0 == Known(IsInSvn(f, st.svn, host).hit.value) && r.2 == st.git
    ensures r.0.NoVcs? ==>
      IsInSvn(f, st.svn, host).hit.None? && IsInGit(f, st.git, host).hit.None? && (f !in imports || imports[f] == NoVcs)
    ensures r.0.Known? ==>
      || IsInSvn(f, st.svn, host).hit == Some(r.0.rec)
      || IsInGit(f, st.git, host).hit == Some(r.0.rec)
      || (f in imports && imports[f] == r.0)
    ensures var s := IsInSvn(f, st.svn, host);
            var g := IsInGit(f, st.git, host);
            && (s.hit.None? ==> r.2 == g.cache)
            && (s.hit.None? && g.hit.Some? ==> r.0 == Known(g.hit.value))
            && (s.hit.None? && g.hit.None? ==> r.0 == (if f in imports then imports[f] else NoVcs))
  {
    var s := IsInSvn(f, st.svn, host);
    if s.hit.Some? then (Known(s.hit.value), s.cache, st.git)
    else
      var g := IsInGit(f, st.git, host);
      if g.hit.Some? then (Known(g.hit.value), s.cache, g.cache)
      else (if f in imports then imports[f] else NoVcs, s.cache, g.cache)
  }

  /**
   One file of `get_vcs_information`. A skipped file changes nothing. Otherwise its absolute
   path is looked up in `vcs_cache`: a `no-vcs` entry changes nothing, a record is output
   again, and an unknown path is resolved, cached, and output unless it resolved to `no-vcs`.
   */
  method ResolveFile(st: State, file: string, imports: map<string, Entry>, host: Host) returns (r: State)
    requires Inv(st)
    ensures Inv(r)
    ensures r.vcs.Keys == st.vcs.Keys + Seen(file, host)
    ensures r.data.m.Keys <= st.data.m.Keys + Seen(file, host)
    ensures forall k :: k in st.vcs ==> r.vcs[k] == st.vcs[k]
    ensures forall k :: k in st.svn.m ==> k in r.svn.m && r.svn.m[k] == st.svn.m[k]
    ensures forall k :: k in st.data.m ==> k in r.data.m && r.data.m[k] == st.data.m[k]
    ensures |st.svn.keys| <= |r.svn.keys| && r.svn.keys[..|st.svn.keys|] == st.svn.keys
    ensures SkipFile(file) ==> r == st
    ensures !SkipFile(file) ==> var f := host.abspath(file);
      && (f in st.vcs && st.vcs[f] == NoVcs ==> r == st)
      && (f in r.data.m <==> r.vcs[f].Known?)
      && (r.data.keys == st.data.keys || r.data.keys == st.data.keys + [f])
      && (f !in st.vcs ==> var res := Resolve(f, st, imports, host);
            r.vcs[f] == res.0 && r.svn == res.1 && r.git == res.2)
  {
    if SkipFile(file) {
      return st;
    }
    var f := host.abspath(file);
    if f in st.vcs {
      match st.vcs[f]
      case NoVcs => r := st;
      case Known(rec) => r := Reuse(st, f, rec);
    } else {
      var res := Resolve(f, st, imports, host);
      r := Admit(st, f, res.0, res.1, res.2);
    }
  }

  /** A file cached with a record is output again with that record. */
  function Reuse(st: State, f: string, rec: Record): (r: State)
    requires Inv(st) && f in st.vcs && st.vcs[f] == Known(rec)
    ensures Inv(r) && r.vcs == st.vcs && r.svn == st.svn && r.git == st.git && f in r.data.m
    ensures r.data.keys == st.data.keys || r.data.keys == st.data.keys + [f]
    ensures forall k :: k in st.data.m ==> k in r.data.m && r.data.m[k] == st.data.m[k]
    ensures r.data.m.Keys == st.data.m.Keys + {f}
  {
    st.(data := Put(st.data, f, rec))
  }

  /** A newly resolved file is cached with its entry and output unless the entry is `no-vcs`. */
  function Admit(st: State, f: string, e: Entry, svn: RootCache, git: RootCache): (r: State)
    requires Inv(st) && f !in st.vcs && svn.Valid() && git.Valid()
    ensures Inv(r) && r.vcs == st.vcs[f := e] && r.svn == svn && r.git == git
    ensures f in r.data.m <==> e.Known?
    ensures r.data.keys == st.data.keys || r.data.keys == st.data.keys + [f]
    ensures forall k :: k in st.data.m ==> k in r.data.m && r.data.m[k] == st.data.m[k]
    ensures r.data.m.Keys <= st.data.m.Keys + {f}
  {
    var data := if e.Known? then Put(st.data, f, e.rec) else st.data;
    State(data, st.vcs[f := e], svn, git)
  }

  /** The part of `ResolveFile`'s contract that the run over all files relies on. */
  method Advance(st: State, file: string, imports: map<string, Entry>, host: Host) returns (r: State)
    requires Inv(st)
    ensures Inv(r)
    ensures r.vcs.Keys == st.vcs.Keys + Seen(file, host)
    ensures r.data.m.Keys <= st.data.m.Keys + Seen(file, host)
    ensures forall k :: k in st.vcs ==> r.vcs[k] == st.vcs[k]
    ensures forall k :: k in st.svn.m ==> k in r.svn.m && r.svn.m[k] == st.svn.m[k]
    ensures forall k :: k in st.data.m ==> k in r.data.m && r.data.m[k] == st.data.m[k]
    ensures |st.svn.keys| <= |r.svn.keys| && r.svn.keys[..|st.svn.keys|] == st.svn.keys
    ensures !SkipFile(file) ==> (host.abspath(file) in r.data.m <==> r.vcs[host.abspath(file)].Known?)
    ensures !SkipFile(file) && host.abspath(file) !in st.vcs ==>
              r.vcs[host.abspath(file)] == Resolve(host.abspath(file), st, imports, host).0
    ensures var f := host.abspath(file);
            !SkipFile(file) && f !in st.vcs && CachedHit(st.svn.keys, st.svn.m, f).Some? ==>
              r.vcs[f] == Known(CachedHit(st.svn.keys, st.svn.m, f).value)
    ensures var f := host.abspath(file);
            !SkipFile(file) && f !in st.vcs && r.vcs[f].NoVcs? ==> f !in imports || imports[f] == NoVcs
  {
    r := ResolveFile(st, file, imports, host);
  }

  /** The cache key a file contributes: its absolute path, unless the file is skipped. */
  function Seen(file: string, host: Host): set<string> {
    if SkipFile(file) then {} else {host.abspath(file)}
  }

  /** The cache keys of a list of files. */
  function Visited(files: seq<string>, host: Host): set<string>
    decreases |files|
  {
    if |files| == 0 then {} else Visited(files[..|files| - 1], host) + Seen(files[|files| - 1], host)
  }

  /** The cache keys of the files are exactly the absolute paths of the files not skipped. */
  lemma {:induction false} VisitedMeans(files: seq<string>, host: Host, f: string)
    ensures f in Visited(files, host) <==> exists i :: 0 <= i < |files| && !SkipFile(files[i]) && host.abspath(files[i]) == f
    decreases |files|
  {
    if |files| > 0 {
      var n := |files| - 1;
      var pre := files[..n];
      VisitedMeans(pre, host, f);
      assert forall i :: 0 <= i < n ==> pre[i] == files[i];
      if !SkipFile(files[n]) && host.abspath(files[n]) == f {
        assert f in Seen(files[n], host);
      }
    }
  }

  /**
   What the run promises about the files it cached itself (those not in `vcs`): a file
   that a root listed before the run (in `svn`) lists has that record, and a file is
   `no-vcs` only when the imports have no record for it.
   */
  predicate NewEntries(cur: map<string, Entry>, vcs: map<string, Entry>, svn: RootCache, imports: map<string, Entry>) {
    && (forall f :: f in cur.Keys - vcs.Keys && CachedHit(svn.keys, svn.m, f).Some? ==>
          cur[f] == Known(CachedHit(svn.keys, svn.m, f).value))
    && (forall f :: f in cur.Keys - vcs.Keys && cur[f].NoVcs? ==> f !in imports || imports[f] == NoVcs)
  }

  /** One iteration of `get_vcs_information`, with the facts the run keeps about it. */
  method Step(st: State, file: string, imports: map<string, Entry>, host: Host,
              vcs: map<string, Entry>, svn: RootCache, visited: set<string>) returns (r: State)
    requires Inv(st) && svn.Valid()
    requires st.vcs.Keys == vcs.Keys + visited
    requires forall f :: f in st.data.m <==> f in visited && st.vcs[f].Known?
    requires forall f :: f in vcs ==> st.vcs[f] == vcs[f]
    requires forall k :: k in svn.m ==> k in st.svn.m && st.svn.m[k] == svn.m[k]
    requires |svn.keys| <= |st.svn.keys| && st.svn.keys[..|svn.keys|] == svn.keys
    requires NewEntries(st.vcs, vcs, svn, imports)
    ensures Inv(r)
    ensures r.data.m.Keys <= st.data.m.Keys + Seen(file, host)
    ensures r.vcs.Keys == vcs.Keys + visited + Seen(file, host)
    ensures forall f :: f in r.data.m <==> f in visited + Seen(file, host) && r.vcs[f].Known?
    ensures forall f :: f in vcs ==> r.vcs[f] == vcs[f]
    ensures forall k :: k in svn.m ==> k in r.svn.m && r.svn.m[k] == svn.m[k]
    ensures |svn.keys| <= |r.svn.keys| && r.svn.keys[..|svn.keys|] == svn.keys
    ensures NewEntries(r.vcs, vcs, svn, imports)
  {
    r := Advance(st, file, imports, host);
    PrefixOfPrefix(r.svn.keys, st.svn.keys, svn.keys);
    NewEntriesKept(st.vcs, r.vcs, st.svn.keys, st.svn.m, vcs, svn, imports, host.abspath(file));
  }

  lemma PrefixOfPrefix(a: seq<string>, b: seq<string>, c: seq<string>)
    requires |b| <= |a| && a[..|b|] == b
    requires |c| <= |b| && b[..|c|] == c
    ensures |c| <= |a| && a[..|c|] == c
  {
    assert forall j :: 0 <= j < |c| ==> a[j] == b[j] == c[j];
  }

  /** Caching at most one more path `f`, resolved svn first, keeps `NewEntries`. */
  lemma NewEntriesKept(cur: map<string, Entry>, next: map<string, Entry>, keys: seq<string>,
                       cache: map<string, map<string, Record>>, vcs: map<string, Entry>, svn: RootCache,
                       imports: map<string, Entry>, f: string)
    requires svn.Valid()
    requires NewEntries(cur, vcs, svn, imports)
    requires next.Keys <= cur.Keys + {f}
    requires forall k :: k in cur ==> k in next && next[k] == cur[k]
    requires forall k :: k in svn.m ==> k in cache && cache[k] == svn.m[k]
    requires |svn.keys| <= |keys| && keys[..|svn.keys|] == svn.keys
    requires f in next && f !in cur && CachedHit(keys, cache, f).Some? ==>
               next[f] == Known(CachedHit(keys, cache, f).value)
    requires f in next && f !in cur && next[f].NoVcs? ==> f !in imports || imports[f] == NoVcs
    ensures NewEntries(next, vcs, svn, imports)
  {
    if f in next && f !in cur && CachedHit(svn.keys, svn.m, f).Some? {
      assert forall j :: 0 <= j < |svn.keys| ==> svn.keys[j] in svn.m;
      CachedHitExtend(svn.keys, keys, svn.m, cache, f);
    }
    forall g | g in next.Keys - vcs.Keys && CachedHit(svn.keys, svn.m, g).Some?
      ensures next[g] == Known(CachedHit(svn.keys, svn.m, g).value)
    {
      if g in cur { assert g in cur.Keys - vcs.Keys; }
    }
    forall g | g in next.Keys - vcs.Keys && next[g].NoVcs?
      ensures g !in imports || imports[g] == NoVcs
    {
      if g in cur { assert g in cur.Keys - vcs.Keys; }
    }
  }

  /**
   `get_vcs_information`: returns the output records in output order, with the updated
   `vcs_cache` and root caches. Every output record is the file's cached entry; exactly
   the non-skipped files whose entry is a record are output; every non-skipped file ends
   up in `vcs_cache`; nothing else enters it; entries already cached and svn roots
   already listed are never changed. A newly cached file is resolved svn first: a root
   listed before the run that lists it gives its record; it is `no-vcs` only when the
   imports have no record for it.
   */
  method GetVcsInformation(files: seq<string>, vcs: map<string, Entry>, imports: map<string, Entry>,
                           svn: RootCache, git: RootCache, host: Host)
    returns (data: Dict<string, Record>, vcs': map<string, Entry>, svn': RootCache, git': RootCache)
    requires svn.Valid() && git.Valid()
    ensures data.Valid()
    ensures forall f :: f in data.m ==> f in vcs' && vcs'[f] == Known(data.m[f])
    ensures data.m.Keys <= Visited(files, host) <= vcs'.Keys
    ensures forall f :: f in data.m <==> f in Visited(files, host) && vcs'[f].Known?
    ensures vcs'.Keys == vcs.Keys + Visited(files, host)
    ensures forall f :: f in vcs ==> vcs'[f] == vcs[f]
    ensures forall k :: k in svn.m ==> k in svn'.m && svn'.m[k] == svn.m[k]
    ensures forall f :: f in vcs'.Keys - vcs.Keys && CachedHit(svn.keys, svn.m, f).Some? ==>
              vcs'[f] == Known(CachedHit(svn.keys, svn.m, f).value)
    ensures forall f :: f in vcs'.Keys - vcs.Keys && vcs'[f].NoVcs? ==> f !in imports || imports[f] == NoVcs
    ensures forall f :: f in vcs'.Keys - vcs.Keys && f in imports && imports[f].Known? ==> vcs'[f].Known?
  {
    var st := State(Empty(), vcs, svn, git);
    var i := 0;
    assert files[..0] == [];
    while i < |files|
      invariant i <= |files|
      invariant Inv(st)
      invariant st.data.m.Keys <= Visited(files[..i], host)
      invariant st.vcs.Keys == vcs.Keys + Visited(files[..i], host)
      invariant forall f :: f in st.data.m <==> f in Visited(files[..i], host) && st.vcs[f].Known?
      invariant forall f :: f in vcs ==> st.vcs[f] == vcs[f]
      invariant forall k :: k in svn.m ==> k in st.svn.m && st.svn.m[k] == svn.m[k]
      invariant |svn.keys| <= |st.svn.keys| && st.svn.keys[..|svn.keys|] == svn.keys
      invariant NewEntries(st.vcs, vcs, svn, imports)
    {
      assert files[..i + 1][..i] == files[..i] && files[..i + 1][i] == files[i];
      assert Visited(files[..i + 1], host) == Visited(files[..i], host) + Seen(files[i], host);
      st := Step(st, files[i], imports, host, vcs, svn, Visited(files[..i], host));
      i := i + 1;
    }
    assert files[..i] == files;
    data, vcs', svn', git' := st.data, st.vcs, st.svn, st.git;
  }
}
