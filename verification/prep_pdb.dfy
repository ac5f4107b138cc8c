/**
 The smaller steps of prepPDB around the resolver: which srctool lines name source
 files, where the per-pdb cache file lives and when it is fresh enough to reuse, the
 per-vcs summary, and the presoak registry update.
 */
module PrepPdb {
  import opened Strs
  import opened Paths
  import opened Dicts
  import opened Records

  /** `plural_files`: the noun for a count of files. */
  function PluralFiles(n: int): (r: string)
    ensures r == "file" <==> n == 1
    ensures r == "file" || r == "files"
  {
    if n == 1 then "file" else "files"
  }

  // ---------------------------------------------------------------------------
  // get_non_indexed_files: the source files srctool reports
  // ---------------------------------------------------------------------------

  /** The lines of a `srctool -r` reply that may name files: all but the last. */
  function ReplyLines(reply: string): (r: seq<string>)
    ensures |SplitLines(reply)| > 0 ==> r == SplitLines(reply)[..|SplitLines(reply)| - 1]
    ensures |SplitLines(reply)| == 0 ==> r == []
  {
    var lines := SplitLines(reply);
    if |lines| == 0 then [] else lines[..|lines| - 1]
  }

  /** A line that names a source file: neither empty nor starting with `*`. */
  predicate Listed(line: string) {
    |line| > 0 && line[0] != '*'
  }

  /** The absolute paths of the listed lines, in order. */
  function SourceFiles(lines: seq<string>, abspath: string -> string): (r: seq<string>)
    ensures |r| <= |lines|
    decreases |lines|
  {
    if |lines| == 0 then []
    else
      var rest := SourceFiles(lines[1..], abspath);
      if Listed(lines[0]) then [abspath(lines[0])] + rest else rest
  }

  /** Every path in the result comes from a listed line. */
  lemma {:induction false} SourceFilesSound(lines: seq<string>, abspath: string -> string, f: string)
    requires f in SourceFiles(lines, abspath)
    ensures exists i :: 0 <= i < |lines| && Listed(lines[i]) && f == abspath(lines[i])
    decreases |lines|
  {
    if !(Listed(lines[0]) && f == abspath(lines[0])) {
      SourceFilesSound(lines[1..], abspath, f);
      var i :| 0 <= i < |lines[1..]| && Listed(lines[1..][i]) && f == abspath(lines[1..][i]);
      assert lines[1..][i] == lines[i + 1];
    }
  }

  /** Every listed line contributes its absolute path. */
  lemma {:induction false} SourceFilesComplete(lines: seq<string>, abspath: string -> string, i: nat)
    requires i < |lines| && Listed(lines[i])
    ensures abspath(lines[i]) in SourceFiles(lines, abspath)
    decreases i
  {
    if i > 0 {
      SourceFilesComplete(lines[1..], abspath, i - 1);
      assert lines[1..][i - 1] == lines[i];
    }
  }

  /**
   `get_non_indexed_files` as written: `file[0]` raises IndexError on an empty line
   (`None` here); otherwise the star lines are dropped and the rest made absolute.
   */
  function NonIndexedAsWritten(lines: seq<string>, abspath: string -> string): (r: Option<seq<string>>)
    ensures r.None? <==> exists i :: 0 <= i < |lines| && lines[i] == ""
    ensures r.Some? ==> r.value == SourceFiles(lines, abspath)
    decreases |lines|
  {
    if |lines| == 0 then Some([])
    else if lines[0] == "" then None
    else
      var rest := NonIndexedAsWritten(lines[1..], abspath);
      assert (exists i :: 0 <= i < |lines| && lines[i] == "") <==> (exists i :: 0 <= i < |lines[1..]| && lines[1..][i] == "") by {
        if exists i :: 0 <= i < |lines| && lines[i] == "" {
          var i :| 0 <= i < |lines| && lines[i] == "";
          assert lines[1..][i - 1] == lines[i];
        }
      }
      match rest
      case None => None
      case Some(fs) => Some(if lines[0][0] == '*' then fs else [abspath(lines[0])] + fs)
  }

  /** An empty line among the candidates makes the as-written filter raise. */
  lemma EmptyLineRaises(abspath: string -> string)
    ensures NonIndexedAsWritten(["a.c", ""], abspath).None?
    ensures SourceFiles(["a.c", ""], abspath) == [abspath("a.c")]
  {
    assert ["a.c", ""][1] == "";
    assert ["a.c", ""][1..] == [""];
  }

  /** The corrected `get_non_indexed_files`: empty lines are skipped like star lines. */
  function NonIndexedFiles(reply: string, abspath: string -> string): (r: seq<string>)
    ensures forall f :: f in r <==> exists i :: 0 <= i < |ReplyLines(reply)| && Listed(ReplyLines(reply)[i]) && f == abspath(ReplyLines(reply)[i])
    ensures NonIndexedAsWritten(ReplyLines(reply), abspath).Some? ==> NonIndexedAsWritten(ReplyLines(reply), abspath).value == r
  {
    var lines := ReplyLines(reply);
    var r := SourceFiles(lines, abspath);
    forall i | 0 <= i < |lines| && Listed(lines[i]) ensures abspath(lines[i]) in r {
      SourceFilesComplete(lines, abspath, i);
    }
    forall f | f in r ensures exists i :: 0 <= i < |lines| && Listed(lines[i]) && f == abspath(lines[i]) {
      SourceFilesSound(lines, abspath, f);
    }
    r
  }

  // ---------------------------------------------------------------------------
  // The per-pdb cache file
  // ---------------------------------------------------------------------------

  const CacheSuffix := ".simur.json"

  /** `make_cache_file`: the pdb path with its extension replaced by `.simur.json`. */
  function MakeCacheFile(pdb: string): (r: string)
    ensures EndsWith(r, CacheSuffix)
    ensures StartsWith(pdb, r[..|r| - |CacheSuffix|])
    ensures pdb[|r| - |CacheSuffix|..] == SplitExt(pdb).1
  {
    var stem := SplitExt(pdb).0;
    var r := stem + CacheSuffix;
    assert r[..|r| - |CacheSuffix|] == stem;
    r
  }

  /** Two names that differ only in their extension share a cache file. */
  lemma SameStemSameCache(a: string, b: string)
    requires SplitExt(a).0 == SplitExt(b).0
    ensures MakeCacheFile(a) == MakeCacheFile(b)
  {
    assert MakeCacheFile(a)[..|MakeCacheFile(a)| - |CacheSuffix|] == SplitExt(a).0;
    assert MakeCacheFile(b)[..|MakeCacheFile(b)| - |CacheSuffix|] == SplitExt(b).0;
  }

  /**
   `check_indexed_lib`: the cache file is reused when it exists and is not older than
   the pdb; otherwise the answer is the empty string.
   */
  function CheckIndexedLib(pdb: string, exists_: string -> bool, mtime: string -> int): (r: string)
    ensures r == "" || r == MakeCacheFile(pdb)
    ensures r != "" <==> exists_(MakeCacheFile(pdb)) && mtime(MakeCacheFile(pdb)) >= mtime(pdb)
  {
    var cache := MakeCacheFile(pdb);
    if exists_(cache) && mtime(cache) >= mtime(pdb) then cache else ""
  }

  // ---------------------------------------------------------------------------
  // report_vcsdata: files per version-control system
  // ---------------------------------------------------------------------------

  function VcsOf(data: Dict<string, Record>, i: nat): string
    requires data.Valid() && i < |data.keys|
  {
    assert data.keys[i] in data.m;
    VcsName(data.m[data.keys[i]].Kind())
  }

  /** How many of the first `n` files use `vcs`. */
  function Count(data: Dict<string, Record>, n: nat, vcs: string): (c: nat)
    requires data.Valid() && n <= |data.keys|
    ensures c <= n
    decreases n
  {
    if n == 0 then 0
    else Count(data, n - 1, vcs) + (if VcsOf(data, n - 1) == vcs then 1 else 0)
  }

  /** Every file uses exactly one of the two systems. */
  lemma {:induction false} CountsCover(data: Dict<string, Record>, n: nat)
    requires data.Valid() && n <= |data.keys|
    ensures Count(data, n, "svn") + Count(data, n, "git") == n
    decreases n
  {
    if n > 0 {
      CountsCover(data, n - 1);
    }
  }

  /** The index of the first of the first `n` files that uses `vcs`, or `n` when none does. */
  function FirstUse(data: Dict<string, Record>, n: nat, vcs: string): (r: nat)
    requires data.Valid() && n <= |data.keys|
    ensures r <= n
    ensures r < n ==> VcsOf(data, r) == vcs
    ensures forall i :: 0 <= i < r ==> VcsOf(data, i) != vcs
    decreases n
  {
    if n == 0 then 0
    else
      var p := FirstUse(data, n - 1, vcs);
      if p < n - 1 || VcsOf(data, n - 1) == vcs then p else n
  }

  /** `keys` lists systems in the order they are first used among the first `n` files. */
  predicate FirstSeenOrder(data: Dict<string, Record>, n: nat, keys: seq<string>)
    requires data.Valid() && n <= |data.keys|
  {
    forall j, k :: 0 <= j < k < |keys| ==> FirstUse(data, n, keys[j]) < FirstUse(data, n, keys[k])
  }

  /**
   The tally of the first `n` files: a system is listed once it has been seen, in the
   order first seen, with the number of files that use it.
   */
  function Tally(data: Dict<string, Record>, n: nat): (r: Dict<string, nat>)
    requires data.Valid() && n <= |data.keys|
    ensures r.Valid()
    ensures forall v | v in r.m :: r.m[v] == Count(data, n, v) && r.m[v] > 0
    ensures forall i :: 0 <= i < n ==> VcsOf(data, i) in r.m
    ensures FirstSeenOrder(data, n, r.keys)
    decreases n
  {
    if n == 0 then Empty()
    else
      var prev := Tally(data, n - 1);
      var v := VcsOf(data, n - 1);
      TallyStep(data, n, prev);
      TallyOrderStep(data, n, prev);
      Put(prev, v, if v in prev.m then prev.m[v] + 1 else 1)
  }

  /** Adding the `n`-th file to a correct tally of the first `n - 1` gives a correct tally. */
  lemma TallyStep(data: Dict<string, Record>, n: nat, prev: Dict<string, nat>)
    requires data.Valid() && 0 < n <= |data.keys| && prev.Valid()
    requires forall w | w in prev.m :: prev.m[w] == Count(data, n - 1, w) && prev.m[w] > 0
    requires forall i :: 0 <= i < n - 1 ==> VcsOf(data, i) in prev.m
    ensures var v := VcsOf(data, n - 1);
            var r := Put(prev, v, if v in prev.m then prev.m[v] + 1 else 1);
            && (forall w | w in r.m :: r.m[w] == Count(data, n, w) && r.m[w] > 0)
            && (forall i :: 0 <= i < n ==> VcsOf(data, i) in r.m)
  {
    var v := VcsOf(data, n - 1);
    if v !in prev.m && Count(data, n - 1, v) > 0 {
      CountPositive(data, n - 1, v);
    }
    var r := Put(prev, v, if v in prev.m then prev.m[v] + 1 else 1);
    forall w | w in r.m ensures r.m[w] == Count(data, n, w) {
      assert Count(data, n, w) == Count(data, n - 1, w) + (if v == w then 1 else 0);
    }
  }

  /** A system first used by the `n`-th file goes after every system used before it. */
  lemma TallyOrderStep(data: Dict<string, Record>, n: nat, prev: Dict<string, nat>)
    requires data.Valid() && 0 < n <= |data.keys| && prev.Valid()
    requires forall w | w in prev.m :: Count(data, n - 1, w) > 0
    requires forall i :: 0 <= i < n - 1 ==> VcsOf(data, i) in prev.m
    requires FirstSeenOrder(data, n - 1, prev.keys)
    ensures var v := VcsOf(data, n - 1);
            FirstSeenOrder(data, n, if v in prev.m then prev.keys else prev.keys + [v])
  {
    var v := VcsOf(data, n - 1);
    var keys := if v in prev.m then prev.keys else prev.keys + [v];
    forall j, k | 0 <= j < k < |keys|
      ensures FirstUse(data, n, keys[j]) < FirstUse(data, n, keys[k])
    {
      assert keys[j] == prev.keys[j] && keys[j] in prev.m;
      FirstUseKept(data, n, keys[j]);
      if k < |prev.keys| {
        assert keys[k] == prev.keys[k] && keys[k] in prev.m;
        FirstUseKept(data, n, keys[k]);
      } else {
        assert keys[k] == v && v !in prev.m;
        assert FirstUse(data, n - 1, v) == n - 1;
      }
    }
  }

  /** A system already used by the first `n - 1` files keeps its first use. */
  lemma FirstUseKept(data: Dict<string, Record>, n: nat, w: string)
    requires data.Valid() && 0 < n <= |data.keys| && Count(data, n - 1, w) > 0
    ensures FirstUse(data, n - 1, w) < n - 1 && FirstUse(data, n, w) == FirstUse(data, n - 1, w)
  {
    CountPositive(data, n - 1, w);
  }

  /** One summary line of `report_vcsdata`: `Found {n} {plural_files(n)} using {vcs}`. */
  function FoundLine(n: nat, vcs: string): string {
    "Found " + Decimal(n) + " " + PluralFiles(n) + " using " + vcs
  }

  /** What `report_vcsdata` returns, and the lines it prints. */
  datatype Report = Report(counts: Dict<string, nat>, printed: seq<string>)

  /**
   `report_vcsdata`: the tally over all files, and one printed summary line per system,
   in the order the systems are first used.
   */
  function ReportVcsData(data: Dict<string, Record>): (r: Report)
    requires data.Valid()
    ensures r.counts.Valid()
    ensures forall v | v in r.counts.m :: r.counts.m[v] == Count(data, |data.keys|, v) && r.counts.m[v] > 0
    ensures forall v :: v in r.counts.m <==> exists i :: 0 <= i < |data.keys| && VcsOf(data, i) == v
    ensures FirstSeenOrder(data, |data.keys|, r.counts.keys)
    ensures |r.printed| == |r.counts.keys|
    ensures forall j :: 0 <= j < |r.printed| ==>
              r.printed[j] == FoundLine(Count(data, |data.keys|, r.counts.keys[j]), r.counts.keys[j])
  {
    var t := Tally(data, |data.keys|);
    forall v | v in t.m ensures exists i :: 0 <= i < |data.keys| && VcsOf(data, i) == v {
      CountPositive(data, |data.keys|, v);
    }
    var lines := seq(|t.keys|, j requires 0 <= j < |t.keys| => FoundLine(t.m[t.keys[j]], t.keys[j]));
    Report(t, lines)
  }

  /** The first summary line names the system of the first file, with its full count. */
  lemma FirstLineNamesFirstFile(data: Dict<string, Record>)
    requires data.Valid() && |data.keys| > 0
    ensures var r := ReportVcsData(data);
            var v := VcsOf(data, 0);
            |r.printed| > 0 && r.printed[0] == FoundLine(Count(data, |data.keys|, v), v)
  {
    var r := ReportVcsData(data);
    var v := VcsOf(data, 0);
    assert v in r.counts.m;
    var k :| 0 <= k < |r.counts.keys| && r.counts.keys[k] == v;
    assert FirstUse(data, |data.keys|, v) == 0;
    assert r.counts.keys[0] == v;
  }

  lemma {:induction false} CountPositive(data: Dict<string, Record>, n: nat, vcs: string)
    requires data.Valid() && n <= |data.keys| && Count(data, n, vcs) > 0
    ensures exists i :: 0 <= i < n && VcsOf(data, i) == vcs
    decreases n
  {
    if VcsOf(data, n - 1) != vcs {
      CountPositive(data, n - 1, vcs);
    }
  }

  // ---------------------------------------------------------------------------
  // update_presoak_file: remotes to mirror ahead of time
  // ---------------------------------------------------------------------------

  /** A record whose remote is registered: git, with a non-empty remote. */
  predicate Offers(rec: Record) {
    rec.GitRecord? && Truthy(rec.remote)
  }

  function RecordAt(data: Dict<string, Record>, i: nat): Record
    requires data.Valid() && i < |data.keys|
  {
    assert data.keys[i] in data.m;
    data.m[data.keys[i]]
  }

  /**
   The registry after the first `n` files: a remote not yet present is added with the
   value `presoak`; everything already present stays as it was.
   */
  function Presoak(data: Dict<string, Record>, registry: Dict<string, string>, n: nat): (r: Dict<string, string>)
    requires data.Valid() && registry.Valid() && n <= |data.keys|
    ensures r.Valid()
    ensures |registry.keys| <= |r.keys| && r.keys[..|registry.keys|] == registry.keys
    ensures forall k | k in registry.m :: k in r.m && r.m[k] == registry.m[k]
    ensures forall k | k in r.m && k !in registry.m ::
              r.m[k] == "presoak" && exists i :: 0 <= i < n && Offers(RecordAt(data, i)) && RecordAt(data, i).remote.value == k
    ensures forall i :: 0 <= i < n && Offers(RecordAt(data, i)) ==> RecordAt(data, i).remote.value in r.m
    decreases n
  {
    if n == 0 then registry
    else
      var prev := Presoak(data, registry, n - 1);
      var rec := RecordAt(data, n - 1);
      if Offers(rec) && rec.remote.value !in prev.m then Put(prev, rec.remote.value, "presoak") else prev
  }

  /** `update_presoak_file` over all files (loading and storing the file are left out). */
  function UpdatePresoak(data: Dict<string, Record>, registry: Dict<string, string>): (r: Dict<string, string>)
    requires data.Valid() && registry.Valid()
    ensures r.Valid()
    ensures forall k | k in registry.m :: k in r.m && r.m[k] == registry.m[k]
    ensures forall k :: k in r.m && k !in registry.m <==>
              k !in registry.m && exists i :: 0 <= i < |data.keys| && Offers(RecordAt(data, i)) && RecordAt(data, i).remote.value == k
    ensures forall k | k in r.m && k !in registry.m :: r.m[k] == "presoak"
  {
    Presoak(data, registry, |data.keys|)
  }

  /** Without a git record that has a remote, the registry comes back unchanged. */
  lemma {:induction false} PresoakKeepsWithoutRemotes(data: Dict<string, Record>, registry: Dict<string, string>, n: nat)
    requires data.Valid() && registry.Valid() && n <= |data.keys|
    requires forall i :: 0 <= i < n ==> !Offers(RecordAt(data, i))
    ensures Presoak(data, registry, n) == registry
    decreases n
  {
    if n > 0 {
      PresoakKeepsWithoutRemotes(data, registry, n - 1);
    }
  }
}
