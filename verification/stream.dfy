/**
 The `srcsrv` stream that prepPDB writes into a pdb: a fixed header that tells the
 debugger how to fetch a file (through `vcget.cmd`), one `*`-separated data line per
 indexed source file in the order the files were resolved, and an end banner.
 */
module Stream {
  import opened Strs
  import opened Dicts
  import opened Records

  const IniBanner := "SRCSRV: ini -----------------------------------------------"
  const VariablesBanner := "SRCSRV: variables -----------------------------------------"
  const FilesBanner := "SRCSRV: source files --------------------------------------"
  const EndBanner := "SRCSRV: end -----------------------------------------------"

  /**
   How the debugger builds the local path of an extracted file: its scratch directory,
   `relpath` (var4) with forward slashes turned back, `sha1` (var6), the file name (var1).
   */
  const TargetLine := "VCGET_TARGET=%targ%\\%fnbksl%(%var4%)\\%var6%\\%fnfile%(%var1%)"

  /**
   How the debugger builds the extracting command: `vcs`, `reporoot`, `relpath` and
   `revision` (var2 to var5) become the four arguments of `vcget.cmd`.
   */
  const CommandLine := "VCGET_COMMAND=cmd /c vcget.cmd %var2% \"%var3%\" \"%var4%\" %var5% > \"%vcget_target%\""

  /** The ten lines before the data lines; only the fourth depends on the clock. */
  function Header(instant: string): (r: seq<string>)
    ensures |r| == 10
    ensures r[3] == "DATETIME=" + instant
  {
    [ IniBanner,
      "VERSION=1",
      "VERCTL=SvnGit",
      "DATETIME=" + instant,
      VariablesBanner,
      "SRCSRVTRG=%vcget_target%",
      "SRCSRVCMD=%vcget_command%",
      TargetLine,
      CommandLine,
      FilesBanner ]
  }

  // ---------------------------------------------------------------------------
  // Data lines and the whole stream
  // ---------------------------------------------------------------------------

  /** The six fields of a data line: var1 to var6 of the templates. */
  function Fields(file: string, rec: Record): (r: seq<string>)
    ensures |r| == 6 && r[0] == file && r[3] == rec.relpath && r[4] == rec.revision
    ensures r[1] == VcsName(rec.Kind())
    ensures r[2] == Show(rec.RepoRoot()) && r[5] == Show(rec.Sha1())
  {
    [file, VcsName(rec.Kind()), Show(rec.RepoRoot()), rec.relpath, rec.revision, Show(rec.Sha1())]
  }

  /** No field of the line contains the separator, so the line can be split back. */
  predicate Separable(file: string, rec: Record) {
    forall i :: 0 <= i < 6 ==> '*' !in Fields(file, rec)[i]
  }

  /** One data line: `file*vcs*reporoot*relpath*revision*sha1`. */
  function DataLine(file: string, rec: Record): (r: string)
    ensures Separable(file, rec) ==> Split(r, '*') == Fields(file, rec)
  {
    var fs := Fields(file, rec);
    assert Separable(file, rec) ==> Split(Join(fs, '*'), '*') == fs by {
      if Separable(file, rec) {
        JoinThenSplit(fs, '*');
      }
    }
    Join(fs, '*')
  }

  /** `init_the_stream_text`: header, one data line per file in resolution order, end banner. */
  function StreamText(data: Dict<string, Record>, instant: string): (r: seq<string>)
    requires data.Valid()
  {
    Header(instant)
    + seq(|data.keys|, i requires 0 <= i < |data.keys| => DataLine(data.keys[i], data.m[data.keys[i]]))
    + [EndBanner]
  }

  /**
   How the debugger reads the stream back: the fixed header lines, the time stamp, the
   data lines split on `*`, and the end banner last.
   */
  datatype Listing = Listing(instant: string, entries: seq<seq<string>>)

  function ReadStream(lines: seq<string>): (r: Option<Listing>)
    ensures r.Some? ==> |r.value.entries| == |lines| - 11
    ensures r.Some? ==> forall i :: 0 <= i < |r.value.entries| ==> Join(r.value.entries[i], '*') == lines[10 + i]
  {
    var h := Header("");
    if |lines| < 11 || lines[..3] != h[..3] || !StartsWith(lines[3], "DATETIME=")
       || lines[4..10] != h[4..10] || lines[|lines| - 1] != EndBanner
    then None
    else
      var entries := seq(|lines| - 11, i requires 0 <= i < |lines| - 11 => Split(lines[10 + i], '*'));
      assert forall i :: 0 <= i < |entries| ==> Join(entries[i], '*') == lines[10 + i] by {
        forall i | 0 <= i < |entries| ensures Join(entries[i], '*') == lines[10 + i] {
          SplitThenJoin(lines[10 + i], '*');
        }
      }
      Some(Listing(lines[3][9..], entries))
  }

  /**
   The stream has one line per file plus eleven, and reading it back gives the time
   stamp and, for every file in order, its six fields.
   */
  lemma StreamRoundTrip(data: Dict<string, Record>, instant: string)
    requires data.Valid()
    requires forall k :: k in data.m ==> Separable(k, data.m[k])
    ensures |StreamText(data, instant)| == 11 + |data.keys|
    ensures ReadStream(StreamText(data, instant))
         == Some(Listing(instant, seq(|data.keys|, i requires 0 <= i < |data.keys| => Fields(data.keys[i], data.m[data.keys[i]]))))
  {
    var s := StreamText(data, instant);
    var h := Header(instant);
    var blank := Header("");
    assert s[..10] == h;
    assert s[..3] == blank[..3] && s[4..10] == blank[4..10];
    assert StartsWith(s[3], "DATETIME=") && s[3][9..] == instant;
    assert s[|s| - 1] == EndBanner;
    var entries := seq(|s| - 11, i requires 0 <= i < |s| - 11 => Split(s[10 + i], '*'));
    var want := seq(|data.keys|, i requires 0 <= i < |data.keys| => Fields(data.keys[i], data.m[data.keys[i]]));
    assert ReadStream(s) == Some(Listing(instant, entries));
    forall i | 0 <= i < |data.keys|
      ensures entries[i] == want[i]
    {
      assert data.keys[i] in data.m;
      assert s[10 + i] == DataLine(data.keys[i], data.m[data.keys[i]]);
    }
    assert entries == want;
  }

  /** Two streams of the same data differ at most in the time-stamp line. */
  lemma OnlyTimeVaries(data: Dict<string, Record>, t1: string, t2: string, i: nat)
    requires data.Valid()
    requires i < |StreamText(data, t1)| && i != 3
    ensures i < |StreamText(data, t2)|
    ensures StreamText(data, t1)[i] == StreamText(data, t2)[i]
  {
  }
}
