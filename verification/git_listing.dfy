/**
 The two git replies the resolver parses (script/prepPDB.py, is_in_git): the origin
 fetch URL from `git remote -v`, and the per-file blob hashes from `git ls-files -s`.
 */
module GitListing {
  import opened Strs
  import opened Regex
  import opened Records

  /** `^origin\s*(.+)\s+\(fetch\)$`; the URL is the third atom. */
  function OriginPattern(): seq<Atom> { [Lit("origin"), Rep(Space, 0), Rep(Any, 1), Rep(Space, 1), Lit("(fetch)")] }

  /** `^\d+\s*([a-fA-F0-9]+)\s*\d+\s*(.+)$`; the hash is the third atom, the path the seventh. */
  function LsPattern(): seq<Atom> { [Rep(Digit, 1), Rep(Space, 0), Rep(Hex, 1), Rep(Space, 0), Rep(Digit, 1), Rep(Space, 0), Rep(Any, 1)] }

  /** The first group of the origin pattern on one line, when the line matches. */
  function OriginUrl(line: string): (r: Option<string>)
    ensures r.Some? ==> StartsWith(line, "origin") && EndsWith(line, "(fetch)") && |r.value| > 0
  {
    match MatchAt(OriginPattern(), line, 0)
    case None => None
    case Some(bs) =>
      OriginFits(line, bs);
      Some(line[bs[1]..bs[2]])
  }

  /** What a cut of a line by the origin pattern says about the line. */
  lemma OriginFits(line: string, bs: seq<nat>)
    requires Fits(OriginPattern(), line, 0, bs)
    ensures bs[0] == 6 && line[..6] == "origin"
    ensures 6 <= bs[1] && bs[1] < bs[2] && bs[2] + 8 <= |line| && bs[3] + 7 == |line|
    ensures AllIn(line[6..bs[1]], Space)
    ensures line[bs[3]..] == "(fetch)"
  {
    var p := OriginPattern();
    assert p[1..] == [Rep(Space, 0), Rep(Any, 1), Rep(Space, 1), Lit("(fetch)")];
    assert p[1..][1..] == [Rep(Any, 1), Rep(Space, 1), Lit("(fetch)")];
    assert p[1..][1..][1..] == [Rep(Space, 1), Lit("(fetch)")];
    assert p[1..][1..][1..][1..] == [Lit("(fetch)")];
    assert p[1..][1..][1..][1..][1..] == [];
  }

  /**
   A remote line as git prints it, `origin`, whitespace, the URL, one whitespace
   character and `(fetch)`, gives back the URL when the URL does not start with
   whitespace.
   */
  lemma OriginLine(ws: string, url: string, sp: char)
    requires AllSpace(ws) && IsSpace(sp)
    requires |url| > 0 && !IsSpace(url[0]) && '\n' !in url
    ensures OriginUrl("origin" + ws + url + [sp] + "(fetch)") == Some(url)
  {
    var line := "origin" + ws + url + [sp] + "(fetch)";
    var p1 := 6 + |ws|;
    var p2 := p1 + |url|;
    var cut := [6, p1, p2, p2 + 1, |line|];
    OriginLineFits(ws, url, sp);
    MatchGreatest(OriginPattern(), line, 0, cut);
    var bs := MatchAt(OriginPattern(), line, 0).value;
    OriginFits(line, bs);
    LexLeAt(cut, bs, 1);
    AllInSlice(line, 6, bs[1], Space);
    assert bs[1] == p1;
    LexLeAt(cut, bs, 2);
  }

  lemma OriginLineFits(ws: string, url: string, sp: char)
    requires AllSpace(ws) && IsSpace(sp)
    requires |url| > 0 && '\n' !in url
    ensures var line := "origin" + ws + url + [sp] + "(fetch)";
      && Fits(OriginPattern(), line, 0, [6, 6 + |ws|, 6 + |ws| + |url|, 7 + |ws| + |url|, |line|])
      && line[6 + |ws|] == url[0] && line[6 + |ws|..6 + |ws| + |url|] == url
  {
    var line := "origin" + ws + url + [sp] + "(fetch)";
    var p1 := 6 + |ws|;
    var p2 := p1 + |url|;
    assert line[..6] == "origin";
    assert line[6..p1] == ws;
    assert line[p1..p2] == url;
    assert line[p2..p2 + 1] == [sp];
    assert line[p2 + 1..] == "(fetch)";
    var p := OriginPattern();
    assert p[1..] == [Rep(Space, 0), Rep(Any, 1), Rep(Space, 1), Lit("(fetch)")];
    assert p[1..][1..] == [Rep(Any, 1), Rep(Space, 1), Lit("(fetch)")];
    assert p[1..][1..][1..] == [Rep(Space, 1), Lit("(fetch)")];
    assert p[1..][1..][1..][1..] == [Lit("(fetch)")];
    assert p[1..][1..][1..][1..][1..] == [];
  }

  /**
   The `git_remote` of a root: the loop over the reply's lines keeps the URL of the last
   line that matches, and stays `None` when none does.
   */
  function OriginRemote(lines: seq<string>, cur: Option<string>): (r: Option<string>)
    ensures r == cur || exists i :: 0 <= i < |lines| && OriginUrl(lines[i]) == r
    ensures r != cur ==> r.Some?
    ensures (exists i :: 0 <= i < |lines| && OriginUrl(lines[i]).Some?) ==> r.Some?
    decreases |lines|
  {
    if |lines| == 0 then cur
    else
      var u := OriginUrl(lines[0]);
      var r := OriginRemote(lines[1..], if u.Some? then u else cur);
      assert forall i :: 0 < i < |lines| ==> lines[i] == lines[1..][i - 1];
      r
  }

  /** The last matching line decides: the lines after it match nothing. */
  lemma {:induction false} OriginRemoteLast(lines: seq<string>, i: nat, cur: Option<string>)
    requires i < |lines| && OriginUrl(lines[i]).Some?
    requires forall j :: i < j < |lines| ==> OriginUrl(lines[j]).None?
    ensures OriginRemote(lines, cur) == OriginUrl(lines[i])
    decreases |lines|
  {
    var u := OriginUrl(lines[0]);
    var cur' := if u.Some? then u else cur;
    if i == 0 {
      OriginRemoteNone(lines[1..], cur');
    } else {
      OriginRemoteLast(lines[1..], i - 1, cur');
    }
  }

  lemma {:induction false} OriginRemoteNone(lines: seq<string>, cur: Option<string>)
    requires forall j :: 0 <= j < |lines| ==> OriginUrl(lines[j]).None?
    ensures OriginRemote(lines, cur) == cur
    decreases |lines|
  {
    if |lines| > 0 {
      OriginRemoteNone(lines[1..], cur);
    }
  }

  // ---------------------------------------------------------------------------
  // git ls-files -s
  // ---------------------------------------------------------------------------

  /** The hash and the relative path of one `git ls-files -s` line, when the line matches. */
  function LsFilesLine(line: string): (r: Option<(string, string)>)
    ensures r.Some? ==> |r.value.0| > 0 && AllHex(r.value.0) && |r.value.1| > 0
  {
    match MatchAt(LsPattern(), line, 0)
    case None => None
    case Some(bs) =>
      LsFits(line, bs);
      Some((line[bs[1]..bs[2]], line[bs[5]..bs[6]]))
  }

  lemma LsFits(line: string, bs: seq<nat>)
    requires Fits(LsPattern(), line, 0, bs)
    ensures 0 < bs[0] <= bs[1] < bs[2] <= bs[3] < bs[4] <= bs[5] < bs[6] == |line|
    ensures AllIn(line[..bs[0]], Digit) && AllIn(line[bs[0]..bs[1]], Space)
    ensures AllIn(line[bs[1]..bs[2]], Hex) && AllIn(line[bs[2]..bs[3]], Space)
    ensures AllIn(line[bs[3]..bs[4]], Digit) && AllIn(line[bs[4]..bs[5]], Space)
  {
    var p := LsPattern();
    assert p[1..] == [Rep(Space, 0), Rep(Hex, 1), Rep(Space, 0), Rep(Digit, 1), Rep(Space, 0), Rep(Any, 1)];
    assert p[1..][1..] == [Rep(Hex, 1), Rep(Space, 0), Rep(Digit, 1), Rep(Space, 0), Rep(Any, 1)];
    assert p[1..][1..][1..] == [Rep(Space, 0), Rep(Digit, 1), Rep(Space, 0), Rep(Any, 1)];
    assert p[1..][1..][1..][1..] == [Rep(Digit, 1), Rep(Space, 0), Rep(Any, 1)];
    assert p[1..][1..][1..][1..][1..] == [Rep(Space, 0), Rep(Any, 1)];
    assert p[1..][1..][1..][1..][1..][1..] == [Rep(Any, 1)];
    assert p[1..][1..][1..][1..][1..][1..][1..] == [];
    var h := line[bs[1]..bs[2]];
    forall j | 0 <= j < |h| ensures IsHex(h[j]) {
      assert InClass(h[j], Hex);
    }
  }


  /** One line of `git ls-files -s` as git prints it: mode, hash, stage, a tab, the path. */
  datatype StagedFile = StagedFile(mode: string, hash: string, stage: string, path: string)

  predicate WellFormed(f: StagedFile) {
    && |f.mode| > 0 && AllDigits(f.mode)
    && |f.hash| > 0 && AllHex(f.hash)
    && |f.stage| > 0 && AllDigits(f.stage)
    && |f.path| > 0 && !IsSpace(f.path[0]) && '\n' !in f.path
  }

  function LsLine(f: StagedFile): string {
    f.mode + (" " + (f.hash + (" " + (f.stage + ("\t" + f.path)))))
  }

  /** The cut of a printed line that puts every field under its own atom. */
  function LsCut(f: StagedFile): seq<nat> {
    var c2 := |f.mode| + 1 + |f.hash|;
    var c4 := c2 + 1 + |f.stage|;
    [|f.mode|, |f.mode| + 1, c2, c2 + 1, c4, c4 + 1, c4 + 1 + |f.path|]
  }

  /** A well-formed line gives back its hash and its path. */
  lemma LsFilesLineOf(f: StagedFile)
    requires WellFormed(f)
    ensures LsFilesLine(LsLine(f)) == Some((f.hash, f.path))
  {
    var line := LsLine(f);
    var c := LsCut(f);
    LsLineParts(f);
    LsLineStops(f);
    Accepted(f);
    LsCutFits(line, c);
    GreedyCut(LsPattern(), line, 0, c);
  }

  /** Where the fields of a printed line sit. */
  lemma LsLineParts(f: StagedFile)
    ensures var line := LsLine(f); var c := LsCut(f);
      && |line| == c[6]
      && line[0..c[0]] == f.mode && line[c[0]..c[1]] == " " && line[c[1]..c[2]] == f.hash
      && line[c[2]..c[3]] == " " && line[c[3]..c[4]] == f.stage && line[c[4]..c[5]] == "\t"
      && line[c[5]..c[6]] == f.path
  {
    var line := LsLine(f);
    var t1 := " " + (f.hash + (" " + (f.stage + ("\t" + f.path))));
    var t3 := " " + (f.stage + ("\t" + f.path));
    var c := LsCut(f);
    Cut(f.mode, t1);
    Cut(" ", f.hash + t3);
    Cut(f.hash, t3);
    Shift(line, c[0], 1, |f.hash|);
    LsLineTail(f, line, t3);
  }

  lemma LsLineTail(f: StagedFile, line: string, t3: string)
    requires line == LsLine(f) && t3 == " " + (f.stage + ("\t" + f.path))
    requires line[LsCut(f)[2]..] == t3
    ensures var c := LsCut(f);
      && line[c[2]..c[3]] == " " && line[c[3]..c[4]] == f.stage && line[c[4]..c[5]] == "\t"
      && line[c[5]..c[6]] == f.path
  {
    var c := LsCut(f);
    var t5 := "\t" + f.path;
    Cut(" ", f.stage + t5);
    Cut(f.stage, t5);
    Cut("\t", f.path);
    Shift(line, c[2], 1, |f.stage|);
    Shift(line, c[3], |f.stage|, 1);
    assert line[c[5]..c[6]] == line[c[5]..];
  }

  /** The two halves of a concatenation. */
  lemma Cut(a: string, b: string)
    ensures (a + b)[..|a|] == a && (a + b)[|a|..] == b
  {
  }

  /** A slice behind an offset, seen from the offset or from the start. */
  lemma Shift(s: string, k: nat, m: nat, n: nat)
    requires k + m + n <= |s|
    ensures s[k..][..m] == s[k..k + m] && s[k..][m..] == s[k + m..]
    ensures s[k + m..][..n] == s[k + m..k + m + n]
  {
  }

  /**
   A cut of any line whose seven pieces the atoms accept, and after whose repetitions the
   next character is outside the class, is the pattern's match.
   */
  lemma LsCutFits(line: string, c: seq<nat>)
    requires |c| == 7 && c[6] == |line|
    requires 0 <= c[0] <= c[1] <= c[2] <= c[3] <= c[4] <= c[5] <= c[6]
    requires Accepts(Rep(Digit, 1), line[0..c[0]]) && Accepts(Rep(Space, 0), line[c[0]..c[1]])
    requires Accepts(Rep(Hex, 1), line[c[1]..c[2]]) && Accepts(Rep(Space, 0), line[c[2]..c[3]])
    requires Accepts(Rep(Digit, 1), line[c[3]..c[4]]) && Accepts(Rep(Space, 0), line[c[4]..c[5]])
    requires Accepts(Rep(Any, 1), line[c[5]..c[6]])
    requires c[5] < |line|
    requires !InClass(line[c[0]], Digit) && !InClass(line[c[1]], Space) && !InClass(line[c[2]], Hex)
    requires !InClass(line[c[3]], Space) && !InClass(line[c[4]], Digit) && !InClass(line[c[5]], Space)
    ensures Fits(LsPattern(), line, 0, c) && Maximal(LsPattern(), line, 0, c)
  {
    var q3 := [Rep(Space, 0), Rep(Digit, 1), Rep(Space, 0), Rep(Any, 1)];
    LsTailFits(line, c[2], c[3..]);
    var q2 := [Rep(Hex, 1)] + q3;
    var q1 := [Rep(Space, 0)] + q2;
    assert LsPattern() == [Rep(Digit, 1)] + q1;
    MaximalPrepend(Rep(Hex, 1), q3, line, c[1], c[2], c[3..]);
    MaximalPrepend(Rep(Space, 0), q2, line, c[0], c[1], c[2..]);
    MaximalPrepend(Rep(Digit, 1), q1, line, 0, c[0], c[1..]);
    assert c == [c[0]] + c[1..] && c[1..] == [c[1]] + c[2..] && c[2..] == [c[2]] + c[3..];
  }

  /** The last four atoms, from the end of the hash. */
  lemma LsTailFits(line: string, lo: nat, c: seq<nat>)
    requires |c| == 4 && c[3] == |line|
    requires lo <= c[0] <= c[1] <= c[2] < c[3]
    requires Accepts(Rep(Space, 0), line[lo..c[0]]) && Accepts(Rep(Digit, 1), line[c[0]..c[1]])
    requires Accepts(Rep(Space, 0), line[c[1]..c[2]]) && Accepts(Rep(Any, 1), line[c[2]..c[3]])
    requires !InClass(line[c[0]], Space) && !InClass(line[c[1]], Digit) && !InClass(line[c[2]], Space)
    ensures var q3 := [Rep(Space, 0), Rep(Digit, 1), Rep(Space, 0), Rep(Any, 1)];
      Fits(q3, line, lo, c) && Maximal(q3, line, lo, c)
  {
    var n := |line|;
    var q6: seq<Atom> := [Rep(Any, 1)];
    var q5 := [Rep(Space, 0)] + q6;
    var q4 := [Rep(Digit, 1)] + q5;
    MaximalPrepend(Rep(Any, 1), [], line, c[2], n, []);
    MaximalPrepend(Rep(Space, 0), q6, line, c[1], c[2], [n]);
    MaximalPrepend(Rep(Digit, 1), q5, line, c[0], c[1], [c[2], n]);
    MaximalPrepend(Rep(Space, 0), q4, line, lo, c[0], [c[1], c[2], n]);
    assert c == [c[0]] + [c[1], c[2], n];
  }

  /** The character after each field ends that field's run. */
  lemma LsLineStops(f: StagedFile)
    requires WellFormed(f)
    ensures var line := LsLine(f); var c := LsCut(f);
      && |line| > c[5]
      && !InClass(line[c[0]], Digit) && !InClass(line[c[1]], Space) && !InClass(line[c[2]], Hex)
      && !InClass(line[c[3]], Space) && !InClass(line[c[4]], Digit) && !InClass(line[c[5]], Space)
  {
    var line := LsLine(f);
    var c := LsCut(f);
    LsLineParts(f);
    assert line[c[0]] == line[c[0]..c[1]][0] == ' ';
    assert line[c[1]] == line[c[1]..c[2]][0] == f.hash[0];
    assert line[c[2]] == line[c[2]..c[3]][0] == ' ';
    assert line[c[3]] == line[c[3]..c[4]][0] == f.stage[0];
    assert line[c[4]] == line[c[4]..c[5]][0] == '\t';
    assert line[c[5]] == line[c[5]..c[6]][0] == f.path[0];
    assert IsHex(f.hash[0]) && IsDigit(f.stage[0]);
  }

  /** Each field of a well-formed line is accepted by its atom. */
  lemma Accepted(f: StagedFile)
    requires WellFormed(f)
    ensures Accepts(Rep(Digit, 1), f.mode) && Accepts(Rep(Hex, 1), f.hash) && Accepts(Rep(Digit, 1), f.stage)
    ensures Accepts(Rep(Space, 0), " ") && Accepts(Rep(Space, 0), "\t") && Accepts(Rep(Any, 1), f.path)
  {
  }

  // ---------------------------------------------------------------------------
  // The listing loop
  // ---------------------------------------------------------------------------

  /**
   Storing one listed file: its record goes under the file's cache key, and nothing is
   stored when the key cannot be formed.
   */
  function Store(acc: map<string, Record>, root: string, remote: Option<string>, commitId: string, host: Host,
                 rel: string, hash: string): (r: map<string, Record>)
    ensures acc.Keys <= r.Keys
    ensures forall k :: k in r ==>
      (k in acc && r[k] == acc[k]) || (r[k].GitRecord? && r[k].remote == remote && r[k].commitId == commitId && r[k].local == root)
    ensures CacheKey(host, root, rel).None? ==> r == acc
    ensures CacheKey(host, root, rel).Some? ==>
      r == acc[CacheKey(host, root, rel).value := GitRecord(remote, rel, hash, commitId, root)]
  {
    match CacheKey(host, root, rel)
    case None => acc
    case Some(k) => acc[k := GitRecord(remote, rel, hash, commitId, root)]
  }

  /** The match of every line of the reply, in order. */
  function LsMatches(lines: seq<string>): (r: seq<Option<(string, string)>>)
    ensures |r| == |lines| && forall i :: 0 <= i < |lines| ==> r[i] == LsFilesLine(lines[i])
    decreases |lines|
  {
    if |lines| == 0 then [] else [LsFilesLine(lines[0])] + LsMatches(lines[1..])
  }

  /**
   The loop over the matches of the lines of `git ls-files -s`. A matching line stores its
   record, the first line that does not match ends the loop with `false`, and the records
   stored before it stay.
   */
  function ListFiles(matches: seq<Option<(string, string)>>, root: string, remote: Option<string>, commitId: string,
                     host: Host, acc: map<string, Record>): (r: (map<string, Record>, bool))
    ensures acc.Keys <= r.0.Keys
    ensures forall k :: k in r.0 ==>
      (k in acc && r.0[k] == acc[k]) || (r.0[k].GitRecord? && r.0[k].remote == remote && r.0[k].commitId == commitId && r.0[k].local == root)
    decreases |matches|
  {
    if |matches| == 0 then (acc, true)
    else
      match matches[0]
      case None => (acc, false)
      case Some(hp) => ListFiles(matches[1..], root, remote, commitId, host, Store(acc, root, remote, commitId, host, hp.1, hp.0))
  }

  /** The loop reports success exactly when every line of the reply matches. */
  lemma {:induction false} ListFilesSucceeds(matches: seq<Option<(string, string)>>, root: string, remote: Option<string>,
                                             commitId: string, host: Host, acc: map<string, Record>)
    ensures ListFiles(matches, root, remote, commitId, host, acc).1 <==> forall i :: 0 <= i < |matches| ==> matches[i].Some?
    decreases |matches|
  {
    if |matches| > 0 && matches[0].Some? {
      var hp := matches[0].value;
      ListFilesSucceeds(matches[1..], root, remote, commitId, host, Store(acc, root, remote, commitId, host, hp.1, hp.0));
      assert forall i :: 0 < i < |matches| ==> matches[i] == matches[1..][i - 1];
    }
  }

  /**
   The reference rule, stated on the listed files rather than on lines: each file is stored
   under its cache key, later files overwriting earlier ones.
   */
  function Stage(files: seq<StagedFile>, root: string, remote: Option<string>, commitId: string, host: Host,
                 acc: map<string, Record>): map<string, Record>
    decreases |files|
  {
    if |files| == 0 then acc
    else Stage(files[1..], root, remote, commitId, host, Store(acc, root, remote, commitId, host, files[0].path, files[0].hash))
  }

  function LsLines(files: seq<StagedFile>): (r: seq<string>)
    ensures |r| == |files| && forall i :: 0 <= i < |files| ==> r[i] == LsLine(files[i])
    decreases |files|
  {
    if |files| == 0 then [] else [LsLine(files[0])] + LsLines(files[1..])
  }

  /** What the lines of well-formed files match: each file's hash and path. */
  function Matched(files: seq<StagedFile>): (r: seq<Option<(string, string)>>)
    ensures |r| == |files| && forall i :: 0 <= i < |files| ==> r[i] == Some((files[i].hash, files[i].path))
  {
    seq(|files|, i requires 0 <= i < |files| => Some((files[i].hash, files[i].path)))
  }

  lemma LsMatchesOfStaged(files: seq<StagedFile>)
    requires forall i :: 0 <= i < |files| ==> WellFormed(files[i])
    ensures LsMatches(LsLines(files)) == Matched(files)
  {
    var lines := LsLines(files);
    forall i | 0 <= i < |files| ensures LsFilesLine(lines[i]) == Some((files[i].hash, files[i].path)) {
      LsFilesLineOf(files[i]);
    }
  }

  /** The reply git prints for well-formed files parses into exactly the reference records. */
  lemma ListFilesOfStaged(files: seq<StagedFile>, root: string, remote: Option<string>, commitId: string,
                          host: Host, acc: map<string, Record>)
    requires forall i :: 0 <= i < |files| ==> WellFormed(files[i])
    ensures ListFiles(LsMatches(LsLines(files)), root, remote, commitId, host, acc) == (Stage(files, root, remote, commitId, host, acc), true)
  {
    LsMatchesOfStaged(files);
    ListFilesMatched(files, root, remote, commitId, host, acc);
  }

  lemma {:induction false} ListFilesMatched(files: seq<StagedFile>, root: string, remote: Option<string>, commitId: string,
                                            host: Host, acc: map<string, Record>)
    ensures ListFiles(Matched(files), root, remote, commitId, host, acc) == (Stage(files, root, remote, commitId, host, acc), true)
    decreases |files|
  {
    if |files| > 0 {
      var f := files[0];
      assert Matched(files)[1..] == Matched(files[1..]);
      ListFilesMatched(files[1..], root, remote, commitId, host, Store(acc, root, remote, commitId, host, f.path, f.hash));
    }
  }

  /**
   A line that does not match stops the loop: the result is the records of the lines before
   it, whatever follows.
   */
  lemma ListFilesStops(matches: seq<Option<(string, string)>>, i: nat, root: string, remote: Option<string>,
                       commitId: string, host: Host, acc: map<string, Record>)
    requires i < |matches| && matches[i].None?
    requires forall j :: 0 <= j < i ==> matches[j].Some?
    ensures ListFiles(matches, root, remote, commitId, host, acc) == (ListFiles(matches[..i], root, remote, commitId, host, acc).0, false)
  {
    ListFilesSucceeds(matches, root, remote, commitId, host, acc);
    ListFilesPrefix(matches, i, root, remote, commitId, host, acc);
  }

  lemma {:induction false} ListFilesPrefix(matches: seq<Option<(string, string)>>, i: nat, root: string, remote: Option<string>,
                                           commitId: string, host: Host, acc: map<string, Record>)
    requires i < |matches| && matches[i].None?
    requires forall j :: 0 <= j < i ==> matches[j].Some?
    ensures ListFiles(matches, root, remote, commitId, host, acc).0 == ListFiles(matches[..i], root, remote, commitId, host, acc).0
    decreases i
  {
    if i > 0 {
      var hp := matches[0].value;
      var pre := matches[..i];
      assert pre[0] == matches[0] && pre[1..] == matches[1..][..i - 1];
      ListFilesPrefix(matches[1..], i - 1, root, remote, commitId, host, Store(acc, root, remote, commitId, host, hp.1, hp.0));
    } else {
      assert matches[..0] == [];
    }
  }
}
