/**
 The batch driver's pure steps: which pdbs of a directory tree are indexed as
 executables and which as static libraries, the `--under_test` selection, the merge
 of earlier runs' cache files into the imports, and the repository roots it records.
 */
module IndexPdbs {
  import opened Strs
  import opened Dicts
  import opened Records
  import Resolver

  // ---------------------------------------------------------------------------
  // The compiler's own vcNNN.pdb files
  // ---------------------------------------------------------------------------

  /** `\\vc\d+\.pdb$` from the start of `t`: `$` also matches before a final newline. */
  predicate VcTail(t: string) {
    StartsWith(t, "\\vc")
    && exists j :: 3 < j <= |t| && AllDigits(t[3..j]) && (t[j..] == ".pdb" || t[j..] == ".pdb\n")
  }

  /**
   `re.match(r'.*\\vc\d+\.pdb$', path)`: some prefix without a newline (what `.*`
   can consume) is followed by the tail.
   */
  predicate InternalPdb(p: string) {
    exists k :: 0 <= k <= |p| && '\n' !in p[..k] && VcTail(p[k..])
  }

  /** The pattern needs a backslash before `vc`, so forward-slash paths are never excluded. */
  lemma ForwardSlashNotInternal(p: string)
    requires '\\' !in p
    ensures !InternalPdb(p)
  {
    forall k | 0 <= k <= |p| ensures !VcTail(p[k..]) {
      if k < |p| {
        assert p[k..][0] == p[k] && p[k] in p;
      }
    }
  }

  /** A compiler pdb under a backslash directory is excluded. */
  lemma CompilerPdbExcluded()
    ensures InternalPdb("C:\\out\\vc143.pdb")
  {
    var p := "C:\\out\\vc143.pdb";
    var t := p[6..];
    assert t == "\\vc143.pdb";
    assert StartsWith(t, "\\vc");
    assert t[3..6] == "143" && AllDigits(t[3..6]);
    assert t[6..] == ".pdb";
    assert '\n' !in p[..6];
  }

  // ---------------------------------------------------------------------------
  // filter_pdbs
  // ---------------------------------------------------------------------------

  datatype Kind = Internal | Exe | Lib | Neither

  /**
   The source's own classification: compiler pdbs are skipped; a pdb that srctool
   lists files for is an executable's; otherwise, when cvdump is available, it is a
   library's if the cvdump scrape finds files.
   */
  function Classify(p: string, hasCvdump: bool, srctool: string -> seq<string>, cvdump: string -> seq<string>): (k: Kind)
    ensures k == Exe <==> !InternalPdb(p) && |srctool(p)| > 0
    ensures k == Lib <==> !InternalPdb(p) && |srctool(p)| == 0 && hasCvdump && |cvdump(p)| > 0
  {
    if InternalPdb(p) then Internal
    else if |srctool(p)| > 0 then Exe
    else if hasCvdump && |cvdump(p)| > 0 then Lib
    else Neither
  }

  /** The pdbs of one kind, in input order. */
  function Select(pdbs: seq<string>, k: Kind, hasCvdump: bool, srctool: string -> seq<string>, cvdump: string -> seq<string>): (r: seq<string>)
    ensures |r| <= |pdbs|
    decreases |pdbs|
  {
    if |pdbs| == 0 then []
    else
      var n := |pdbs| - 1;
      Select(pdbs[..n], k, hasCvdump, srctool, cvdump)
      + (if Classify(pdbs[n], hasCvdump, srctool, cvdump) == k then [pdbs[n]] else [])
  }

  /** A pdb is selected for a kind exactly when it is in the input and classified so. */
  lemma {:induction false} SelectMeans(pdbs: seq<string>, k: Kind, hasCvdump: bool, srctool: string -> seq<string>, cvdump: string -> seq<string>, p: string)
    ensures p in Select(pdbs, k, hasCvdump, srctool, cvdump) <==> p in pdbs && Classify(p, hasCvdump, srctool, cvdump) == k
    decreases |pdbs|
  {
    if |pdbs| > 0 {
      var n := |pdbs| - 1;
      SelectMeans(pdbs[..n], k, hasCvdump, srctool, cvdump, p);
      assert pdbs == pdbs[..n] + [pdbs[n]];
    }
  }

  /** No pdb is both an executable's and a library's. */
  lemma FilterDisjoint(pdbs: seq<string>, hasCvdump: bool, srctool: string -> seq<string>, cvdump: string -> seq<string>, p: string)
    ensures !(p in Select(pdbs, Exe, hasCvdump, srctool, cvdump) && p in Select(pdbs, Lib, hasCvdump, srctool, cvdump))
  {
    SelectMeans(pdbs, Exe, hasCvdump, srctool, cvdump, p);
    SelectMeans(pdbs, Lib, hasCvdump, srctool, cvdump, p);
  }

  /** `filter_pdbs`: one pass that appends each pdb to the list of its kind. */
  method FilterPdbs(pdbs: seq<string>, hasCvdump: bool, srctool: string -> seq<string>, cvdump: string -> seq<string>)
    returns (libPdbs: seq<string>, exePdbs: seq<string>)
    ensures libPdbs == Select(pdbs, Lib, hasCvdump, srctool, cvdump)
    ensures exePdbs == Select(pdbs, Exe, hasCvdump, srctool, cvdump)
  {
    libPdbs, exePdbs := [], [];
    var i := 0;
    while i < |pdbs|
      invariant 0 <= i <= |pdbs|
      invariant libPdbs == Select(pdbs[..i], Lib, hasCvdump, srctool, cvdump)
      invariant exePdbs == Select(pdbs[..i], Exe, hasCvdump, srctool, cvdump)
    {
      var p := pdbs[i];
      assert pdbs[..i + 1][..i] == pdbs[..i] && pdbs[..i + 1][i] == p;
      if InternalPdb(p) {
      } else if |srctool(p)| > 0 {
        exePdbs := exePdbs + [p];
      } else if hasCvdump && |cvdump(p)| > 0 {
        libPdbs := libPdbs + [p];
      }
      i := i + 1;
    }
    assert pdbs[..i] == pdbs;
  }

  /**
   `--under_test`: a named pdb must be among the executables' and then becomes the only
   one processed (`None`: main returns 3); without the option nothing changes.
   */
  function UnderTest(libPdbs: seq<string>, exePdbs: seq<string>, underTest: Option<string>): (r: Option<(seq<string>, seq<string>)>)
    ensures !Truthy(underTest) ==> r == Some((libPdbs, exePdbs))
    ensures Truthy(underTest) && underTest.value in exePdbs ==> r == Some(([], [underTest.value]))
    ensures Truthy(underTest) && underTest.value !in exePdbs ==> r.None?
  {
    if !Truthy(underTest) then Some((libPdbs, exePdbs))
    else if underTest.value in exePdbs then Some(([], [underTest.value]))
    else None
  }

  // ---------------------------------------------------------------------------
  // accumulate_processed
  // ---------------------------------------------------------------------------

  /** The cache files found under each directory, directories in order. */
  function CacheFiles(roots: seq<string>, listFiles: string -> seq<string>): (r: seq<string>)
    ensures forall f :: f in r <==> exists i :: 0 <= i < |roots| && f in listFiles(roots[i])
    decreases |roots|
  {
    if |roots| == 0 then []
    else
      var n := |roots| - 1;
      var r := CacheFiles(roots[..n], listFiles) + listFiles(roots[n]);
      assert forall i :: 0 <= i < n ==> roots[..n][i] == roots[i];
      r
  }

  /** The loaded content of each cache file, in order. */
  function Loaded(files: seq<string>, load: string -> Dict<string, Entry>): (r: seq<Dict<string, Entry>>)
    ensures |r| == |files| && forall i :: 0 <= i < |files| ==> r[i] == load(files[i])
  {
    seq(|files|, i requires 0 <= i < |files| => load(files[i]))
  }

  predicate AllValid<V>(ds: seq<Dict<string, V>>) {
    forall i :: 0 <= i < |ds| ==> ds[i].Valid()
  }

  /** `update` with each loaded dictionary in turn. */
  function Merge<V>(ds: seq<Dict<string, V>>): (r: Dict<string, V>)
    requires AllValid(ds)
    ensures r.Valid()
    decreases |ds|
  {
    if |ds| == 0 then Empty()
    else Update(Merge(ds[..|ds| - 1]), ds[|ds| - 1])
  }

  /** The pairs of all dictionaries, a later one's value winning: what `Merge` computes, without the key order. */
  function Overlay<V>(ds: seq<Dict<string, V>>): map<string, V>
    decreases |ds|
  {
    if |ds| == 0 then map[] else Overlay(ds[..|ds| - 1]) + ds[|ds| - 1].m
  }

  lemma {:induction false} MergeIsOverlay<V>(ds: seq<Dict<string, V>>)
    requires AllValid(ds)
    ensures Merge(ds).m == Overlay(ds)
    decreases |ds|
  {
    if |ds| > 0 {
      var prev := ds[..|ds| - 1];
      assert AllValid(prev);
      MergeIsOverlay(prev);
    }
  }

  /** A key is imported exactly when some cache file holds it. */
  lemma {:induction false} MergeKeys<V>(ds: seq<Dict<string, V>>, k: string)
    ensures k in Overlay(ds) <==> exists j :: 0 <= j < |ds| && k in ds[j].m
    decreases |ds|
  {
    if |ds| > 0 {
      var n := |ds| - 1;
      var prev := ds[..n];
      MergeKeys(prev, k);
      assert forall j :: 0 <= j < n ==> prev[j] == ds[j];
    }
  }

  /** The last cache file holding a key decides its value: later files override earlier ones. */
  lemma {:induction false} MergeLastWins<V>(ds: seq<Dict<string, V>>, k: string, j: nat)
    requires j < |ds| && k in ds[j].m
    requires forall j' :: j < j' < |ds| ==> k !in ds[j'].m
    ensures k in Overlay(ds) && Overlay(ds)[k] == ds[j].m[k]
    decreases |ds|
  {
    var n := |ds| - 1;
    var prev := ds[..n];
    if j < n {
      assert forall j' :: j < j' < n ==> prev[j'] == ds[j'];
      MergeLastWins(prev, k, j);
      assert prev[j] == ds[j];
    }
  }

  /** `accumulate_processed`: the directories are split on `;` and their cache files merged in order. */
  function AccumulateProcessed(processedDir: string, listFiles: string -> seq<string>, load: string -> Dict<string, Entry>): (r: Dict<string, Entry>)
    requires forall f :: load(f).Valid()
    ensures r.Valid()
    ensures var files := CacheFiles(Split(processedDir, ';'), listFiles);
            forall k :: k in r.m <==> exists j :: 0 <= j < |files| && k in load(files[j]).m
  {
    var ds := Loaded(CacheFiles(Split(processedDir, ';'), listFiles), load);
    var r := Merge(ds);
    MergeIsOverlay(ds);
    forall k ensures k in r.m <==> exists j :: 0 <= j < |ds| && k in ds[j].m {
      MergeKeys(ds, k);
    }
    r
  }

  /** Of the cache files holding a key, the last one listed decides the imported value. */
  lemma AccumulateLastWins(processedDir: string, listFiles: string -> seq<string>, load: string -> Dict<string, Entry>, k: string, j: nat)
    requires forall f :: load(f).Valid()
    requires var files := CacheFiles(Split(processedDir, ';'), listFiles);
             j < |files| && k in load(files[j]).m && forall j' :: j < j' < |files| ==> k !in load(files[j']).m
    ensures var files := CacheFiles(Split(processedDir, ';'), listFiles);
            k in AccumulateProcessed(processedDir, listFiles, load).m
            && AccumulateProcessed(processedDir, listFiles, load).m[k] == load(files[j]).m[k]
  {
    var ds := Loaded(CacheFiles(Split(processedDir, ';'), listFiles), load);
    MergeIsOverlay(ds);
    MergeLastWins(ds, k, j);
  }

  // ---------------------------------------------------------------------------
  // repo_roots.json
  // ---------------------------------------------------------------------------

  /** The roots of both caches, svn first, each root listed once. */
  function RepoRoots(svn: Resolver.RootCache, git: Resolver.RootCache): (r: Dict<string, seq<string>>)
    requires svn.Valid() && git.Valid()
    ensures r.Valid() && r.keys == ["svn", "git"]
    ensures forall x :: x in r.m["svn"] <==> x in svn.m
    ensures forall x :: x in r.m["git"] <==> x in git.m
    ensures forall i, j :: 0 <= i < j < |r.m["svn"]| ==> r.m["svn"][i] != r.m["svn"][j]
    ensures forall i, j :: 0 <= i < j < |r.m["git"]| ==> r.m["git"][i] != r.m["git"][j]
  {
    Dict(["svn", "git"], map["svn" := svn.keys, "git" := git.keys])
  }
}
