/**
 The regression checker that compares an indexed build against an earlier one: which
 pdbs each tree holds, the files srctool still reports as unindexed, the sorted listing
 of them, and the listing of such files under each recorded repository root.
 */
module ComparePdbs {
  import opened Strs
  import opened Paths
  import opened Dicts
  import opened Ordering
  import IndexPdbs
  import Resolver

  // ---------------------------------------------------------------------------
  // collect_all_pdb_files
  // ---------------------------------------------------------------------------

  /** A file name that is collected: a `.pdb`, but not a localised `.ENU.pdb` or `.JPN.pdb`. */
  predicate Wanted(name: string) {
    EndsWith(name, ".pdb") && !EndsWith(name, ".ENU.pdb") && !EndsWith(name, ".JPN.pdb")
  }

  /** The (directory, file name) pairs of a directory walk, in walk order. */
  function Flatten(walk: seq<(string, seq<string>)>): (r: seq<(string, string)>)
    ensures forall i :: 0 <= i < |r| ==> exists w :: 0 <= w < |walk| && r[i].0 == walk[w].0 && r[i].1 in walk[w].1
    ensures forall w, f :: 0 <= w < |walk| && f in walk[w].1 ==> (walk[w].0, f) in r
    decreases |walk|
  {
    if |walk| == 0 then []
    else
      var n := |walk| - 1;
      var prev := Flatten(walk[..n]);
      var here := seq(|walk[n].1|, j requires 0 <= j < |walk[n].1| => (walk[n].0, walk[n].1[j]));
      assert forall w :: 0 <= w < n ==> walk[..n][w] == walk[w];
      assert forall f :: f in walk[n].1 ==> (walk[n].0, f) in here by {
        forall f | f in walk[n].1 ensures (walk[n].0, f) in here {
          var j :| 0 <= j < |walk[n].1| && walk[n].1[j] == f;
          assert here[j] == (walk[n].0, f);
        }
      }
      var r := prev + here;
      assert forall i :: |prev| <= i < |r| ==> r[i] == here[i - |prev|];
      r
  }

  /** Wanted files keyed by name, each mapped to its path; a later file of the same name overwrites. */
  function Collect(pairs: seq<(string, string)>): map<string, string>
    decreases |pairs|
  {
    if |pairs| == 0 then map[]
    else
      var n := |pairs| - 1;
      var (root, file) := pairs[n];
      if Wanted(file) then Collect(pairs[..n])[file := JoinPath(root, file)] else Collect(pairs[..n])
  }

  /** A name is collected exactly when it is wanted and some pair carries it. */
  lemma {:induction false} CollectKeys(pairs: seq<(string, string)>, name: string)
    ensures name in Collect(pairs) <==> Wanted(name) && exists i :: 0 <= i < |pairs| && pairs[i].1 == name
    decreases |pairs|
  {
    if |pairs| > 0 {
      var n := |pairs| - 1;
      var prev := pairs[..n];
      CollectKeys(prev, name);
      assert forall i :: 0 <= i < n ==> prev[i] == pairs[i];
    }
  }

  /** The last pair carrying a wanted name decides the path it maps to. */
  lemma {:induction false} CollectLastWins(pairs: seq<(string, string)>, j: nat)
    requires j < |pairs| && Wanted(pairs[j].1)
    requires forall i :: j < i < |pairs| ==> pairs[i].1 != pairs[j].1
    ensures pairs[j].1 in Collect(pairs) && Collect(pairs)[pairs[j].1] == JoinPath(pairs[j].0, pairs[j].1)
    decreases |pairs|
  {
    var n := |pairs| - 1;
    if j < n {
      var prev := pairs[..n];
      assert forall i :: j < i < n ==> prev[i] == pairs[i];
      CollectLastWins(prev, j);
      assert prev[j] == pairs[j];
    }
  }

  /**
   `collect_all_pdb_files`: every wanted file name found anywhere in the walk is a key,
   and every key is such a name.
   */
  function CollectAllPdbFiles(walk: seq<(string, seq<string>)>): (r: map<string, string>)
    ensures forall name :: name in r ==> Wanted(name) && exists w :: 0 <= w < |walk| && name in walk[w].1
    ensures forall w, name :: 0 <= w < |walk| && name in walk[w].1 && Wanted(name) ==> name in r
  {
    var pairs := Flatten(walk);
    var r := Collect(pairs);
    forall name ensures name in r ==> Wanted(name) && exists w :: 0 <= w < |walk| && name in walk[w].1 {
      CollectKeys(pairs, name);
      if name in r {
        var i :| 0 <= i < |pairs| && pairs[i].1 == name;
        assert exists w :: 0 <= w < |walk| && pairs[i].0 == walk[w].0 && pairs[i].1 in walk[w].1;
      }
    }
    forall w, name | 0 <= w < |walk| && name in walk[w].1 && Wanted(name) ensures name in r {
      CollectKeys(pairs, name);
      var p := (walk[w].0, name);
      assert p in pairs;
      var i :| 0 <= i < |pairs| && pairs[i] == p;
    }
    r
  }

  // ---------------------------------------------------------------------------
  // compare_population
  // ---------------------------------------------------------------------------

  /** The pdb names only in the earlier tree, and those only in the tree under test. */
  function ComparePopulation(test: map<string, string>, facit: map<string, string>): (r: (set<string>, set<string>))
    ensures r.0 <= facit.Keys && r.1 <= test.Keys
    ensures r.0 !! r.1
    ensures r.0 !! test.Keys && r.1 !! facit.Keys
  {
    (facit.Keys - test.Keys, test.Keys - facit.Keys)
  }

  /** Both differences are empty exactly when the two trees hold the same pdb names. */
  lemma SamePopulation(test: map<string, string>, facit: map<string, string>)
    ensures ComparePopulation(test, facit) == ({}, {}) <==> test.Keys == facit.Keys
  {
    var (a, b) := ComparePopulation(test, facit);
    if a == {} && b == {} {
      forall x | x in test.Keys ensures x in facit.Keys {
        assert x !in b;
      }
      forall x | x in facit.Keys ensures x in test.Keys {
        assert x !in a;
      }
    }
  }

  /** The names under test split into those only under test and those in both trees. */
  lemma PopulationPartition(test: map<string, string>, facit: map<string, string>)
    ensures test.Keys == ComparePopulation(test, facit).1 + (test.Keys * facit.Keys)
    ensures facit.Keys == ComparePopulation(test, facit).0 + (test.Keys * facit.Keys)
  {
  }

  // ---------------------------------------------------------------------------
  // accumulate_srctool_reply
  // ---------------------------------------------------------------------------

  /** All lines of a srctool reply but the last, which is its summary line. */
  function Unindexed(reply: string): (r: seq<string>)
    ensures |r| == if |SplitLines(reply)| == 0 then 0 else |SplitLines(reply)| - 1
    ensures forall i :: 0 <= i < |r| ==> r[i] == SplitLines(reply)[i]
  {
    var lines := SplitLines(reply);
    if |lines| == 0 then [] else lines[..|lines| - 1]
  }

  /**
   `accumulate_srctool_reply`: the set so far grows by every line of the reply but the
   last, which is srctool's summary line, and by nothing else.
   */
  function AccumulateSrctoolReply(reply: string, acc: set<string>): (r: set<string>)
    ensures acc <= r
    ensures var lines := SplitLines(reply);
            forall i :: 0 <= i < |lines| - 1 ==> lines[i] in r
    ensures var lines := SplitLines(reply);
            forall x :: x in r ==> x in acc || exists i :: 0 <= i < |lines| - 1 && lines[i] == x
  {
    var u := Unindexed(reply);
    var r := acc + set x | x in u;
    assert forall x :: x in u ==> exists i :: 0 <= i < |u| && u[i] == x;
    assert forall i :: 0 <= i < |u| ==> u[i] in u;
    r
  }

  // ---------------------------------------------------------------------------
  // write_set_to_file
  // ---------------------------------------------------------------------------

  /** A listing line that is written: non-empty and not a `*` reference to a missing `.inj` file. */
  predicate Keep(line: string) {
    |line| > 0 && line[0] != '*'
  }

  /** `write_set_to_file`: the kept members in sorted order, each terminated by `\n`. */
  function WriteSetToFile(s: set<string>): (text: string)
    ensures |s| == 0 ==> text == ""
  {
    JoinLines(Filter(Sorted(s), Keep))
  }

  /**
   Reading the file back line by line gives exactly the kept members of the set, each once,
   in increasing order.
   */
  lemma WrittenLines(s: set<string>)
    requires forall x | x in s :: NoLineBreak(x)
    ensures StrictlySorted(SplitLines(WriteSetToFile(s)))
    ensures forall x :: x in SplitLines(WriteSetToFile(s)) <==> x in s && Keep(x)
  {
    var kept := Filter(Sorted(s), Keep);
    forall i | 0 <= i < |kept| ensures NoLineBreak(kept[i]) {
      assert kept[i] in kept;
      FilterMeans(Sorted(s), Keep, kept[i]);
    }
    SplitLinesOfJoinLines(kept);
    FilterKeepsOrder(Sorted(s), Keep);
    forall x ensures x in kept <==> x in s && Keep(x) {
      FilterMeans(Sorted(s), Keep, x);
    }
  }

  // ---------------------------------------------------------------------------
  // list_unprocessed
  // ---------------------------------------------------------------------------

  /** The roots of all version-control kinds, kind by kind in the recorded order. */
  function RootPaths(roots: Dict<string, seq<string>>): (r: seq<string>)
    requires roots.Valid()
    ensures forall x :: x in r <==> exists k :: k in roots.m && x in roots.m[k]
  {
    Flat(roots.keys, roots.m)
  }

  function Flat(keys: seq<string>, m: map<string, seq<string>>): (r: seq<string>)
    requires forall k | k in keys :: k in m
    ensures forall x :: x in r <==> exists k :: k in keys && x in m[k]
    decreases |keys|
  {
    if |keys| == 0 then [] else m[keys[0]] + Flat(keys[1..], m)
  }

  /** The roots recorded by the indexing run are its svn roots followed by its git roots. */
  lemma RootPathsOfRepoRoots(svn: Resolver.RootCache, git: Resolver.RootCache)
    requires svn.Valid() && git.Valid()
    ensures RootPaths(IndexPdbs.RepoRoots(svn, git)) == svn.keys + git.keys
  {
    var d := IndexPdbs.RepoRoots(svn, git);
    assert d.keys[1..] == ["git"] && d.keys[1..][1..] == [];
    assert Flat(d.keys, d.m) == d.m["svn"] + (d.m["git"] + Flat([], d.m));
  }

  /** A file is under a root when its path continues the root past a path separator. */
  predicate Under(data: string, root: string) {
    StartsWith(data, root) && |data| > |root| && (data[|root|] == '\\' || data[|root|] == '/')
  }

  /**
   The files under one root, as the loop does it: a file that starts with the root is
   indexed at the root's length, which raises (`None`) when the file is the root itself.
   */
  function MatchesAsWritten(data: seq<string>, root: string): (r: Option<seq<string>>)
    ensures r.None? <==> root in data
    ensures r.Some? ==> r.value == FilesUnder(data, root)
    decreases |data|
  {
    if |data| == 0 then Some([])
    else
      var d := data[0];
      var rest := MatchesAsWritten(data[1..], root);
      assert root in data <==> d == root || root in data[1..];
      if StartsWith(d, root) && |d| <= |root| then
        assert d == root;
        None
      else if rest.None? then None
      else if Under(d, root) then Some([d] + rest.value)
      else Some(rest.value)
  }

  /** The block written for one root: heading, its files, `- OK -` when none, and an empty line. */
  function Block(root: string, matches: seq<string>): (r: seq<string>)
    ensures |r| >= 3 && r[0] == "VCS root " + root + ":" && r[|r| - 1] == ""
    ensures |matches| > 0 ==> r[1..|r| - 1] == matches
    ensures |matches| == 0 ==> r[1..|r| - 1] == ["- OK -"]
  {
    ["VCS root " + root + ":"] + (if |matches| == 0 then ["- OK -"] else matches) + [""]
  }

  /** The lines of `suspects.list` as written: `None` when some root is itself one of the files. */
  function ListUnprocessedAsWritten(roots: seq<string>, data: seq<string>): (r: Option<seq<string>>)
    ensures r.None? <==> exists i :: 0 <= i < |roots| && roots[i] in data
    decreases |roots|
  {
    if |roots| == 0 then Some([])
    else match MatchesAsWritten(data, roots[0])
      case None => None
      case Some(m) =>
        var rest := ListUnprocessedAsWritten(roots[1..], data);
        assert forall i :: 1 <= i < |roots| ==> roots[1..][i - 1] == roots[i];
        if rest.None? then
          var i :| 0 <= i < |roots[1..]| && roots[1..][i] in data;
          assert roots[i + 1] in data;
          None
        else Some(Block(roots[0], m) + rest.value)
  }

  /** The lines of `suspects.list` with a file equal to a root treated as not under it. */
  function ListUnprocessed(roots: seq<string>, data: seq<string>): (r: seq<string>)
    ensures ListUnprocessedAsWritten(roots, data).Some? ==> ListUnprocessedAsWritten(roots, data).value == r
    ensures |roots| == 0 <==> |r| == 0
    decreases |roots|
  {
    if |roots| == 0 then []
    else Block(roots[0], FilesUnder(data, roots[0])) + ListUnprocessed(roots[1..], data)
  }

  /** The entries under a root, in their order. */
  function FilesUnder(data: seq<string>, root: string): seq<string> {
    Filter(data, d => Under(d, root))
  }

  /** The listing of two runs of roots is the listing of the first followed by that of the second. */
  lemma {:induction false} ListUnprocessedAppend(a: seq<string>, b: seq<string>, data: seq<string>)
    ensures ListUnprocessed(a + b, data) == ListUnprocessed(a, data) + ListUnprocessed(b, data)
    decreases |a|
  {
    if |a| == 0 {
      assert a + b == b;
    } else {
      assert (a + b)[1..] == a[1..] + b;
      ListUnprocessedAppend(a[1..], b, data);
    }
  }

  /** The listing splits at the `i`-th root: the blocks before it, its block, the blocks after it. */
  lemma BlockAt(roots: seq<string>, data: seq<string>, i: nat)
    requires i < |roots|
    ensures ListUnprocessed(roots, data)
            == ListUnprocessed(roots[..i], data) + Block(roots[i], FilesUnder(data, roots[i])) + ListUnprocessed(roots[i + 1..], data)
  {
    var tail := [roots[i]] + roots[i + 1..];
    assert roots == roots[..i] + tail;
    ListUnprocessedAppend(roots[..i], tail, data);
    assert tail[1..] == roots[i + 1..];
  }

  lemma SliceMiddle<T>(p: seq<T>, b: seq<T>, q: seq<T>)
    ensures (p + b + q)[|p|..|p| + |b|] == b
  {
  }

  /**
   The block of the `i`-th root follows the blocks of the roots before it and lists, in
   sorted order, exactly the files under that root; `- OK -` stands in when there are none.
   */
  lemma BlockListsFilesUnder(roots: seq<string>, testData: set<string>, i: nat, x: string)
    requires i < |roots|
    ensures var data := Sorted(testData);
            var m := FilesUnder(data, roots[i]);
            var start := |ListUnprocessed(roots[..i], data)|;
            && start + |Block(roots[i], m)| <= |ListUnprocessed(roots, data)|
            && ListUnprocessed(roots, data)[start..start + |Block(roots[i], m)|] == Block(roots[i], m)
            && StrictlySorted(m)
            && (x in m <==> x in testData && Under(x, roots[i]))
  {
    var data := Sorted(testData);
    FilterKeepsOrder(data, d => Under(d, roots[i]));
    FilterMeans(data, d => Under(d, roots[i]), x);
    BlockAt(roots, data, i);
    SliceMiddle(ListUnprocessed(roots[..i], data), Block(roots[i], FilesUnder(data, roots[i])), ListUnprocessed(roots[i + 1..], data));
  }

  /** A root that equals a collected file makes the listing as written raise. */
  lemma RootEqualToFileRaises(roots: seq<string>, testData: set<string>, i: nat)
    requires i < |roots| && roots[i] in testData
    ensures ListUnprocessedAsWritten(roots, Sorted(testData)).None?
  {
    assert roots[i] in Sorted(testData);
  }

  // ---------------------------------------------------------------------------
  // compare_srcsrv_content
  // ---------------------------------------------------------------------------

  /** Which two pdbs are compared, or why nothing is. */
  datatype Comparison = NotInBoth | Compare(testPdb: string, facitPdb: string)

  /** `compare_srcsrv_content`: the requested name must be in both trees (otherwise it returns 3). */
  function CompareSrcsrvContent(test: map<string, string>, facit: map<string, string>, pdbToFind: string): (r: Comparison)
    ensures r.NotInBoth? <==> pdbToFind !in test.Keys * facit.Keys
    ensures r.Compare? ==> pdbToFind in test && pdbToFind in facit
                           && r.testPdb == test[pdbToFind] && r.facitPdb == facit[pdbToFind]
  {
    if pdbToFind in test && pdbToFind in facit then Compare(test[pdbToFind], facit[pdbToFind]) else NotInBoth
  }

  function ExitCode(c: Comparison): (code: int)
    ensures code == 3 <==> c.NotInBoth?
    ensures code == 0 <==> c.Compare?
  {
    if c.NotInBoth? then 3 else 0
  }

  /** The `pdbstr` command that reads a pdb's srcsrv stream. */
  function PdbstrCommand(pdbstr: string, pdb: string): (r: seq<string>)
    ensures |r| == 4 && r[0] == pdbstr && StartsWith(r[3], "-p:") && r[3][3..] == pdb
  {
    [pdbstr, "-r", "-s:srcsrv", "-p:" + pdb]
  }
}
