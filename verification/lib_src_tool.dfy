/**
 Source files of a static library's pdb. srctool lists nothing for such a pdb, so the
 files are scraped from a cvdump listing instead: the line after each `LF_STRING_ID`
 record holds a string, and the strings that name existing files are kept.
 */
module LibSrcTool {
  import opened Strs

  const Marker := "LF_STRING_ID"

  predicate Marked(line: string) {
    Contains(line, Marker)
  }

  /**
   Line `i` follows a marker line and, cleaned, names an existing file. The scraper
   cleans with `str.strip`; the definitions take the cleaning as a parameter.
   */
  predicate Picks(lines: seq<string>, isFile: string -> bool, clean: string -> string, i: nat)
    requires i < |lines|
  {
    0 < i && Marked(lines[i - 1]) && isFile(clean(lines[i]))
  }

  /** The stripped candidates among the first `n` lines that name files, in order. */
  function Picked(lines: seq<string>, isFile: string -> bool, clean: string -> string, n: nat): (r: seq<string>)
    requires n <= |lines|
    decreases n
  {
    if n == 0 then []
    else Picked(lines, isFile, clean, n - 1) + (if Picks(lines, isFile, clean, n - 1) then [clean(lines[n - 1])] else [])
  }

  /** A string is scraped exactly when some line after a marker strips to it and names a file. */
  lemma {:induction false} PickedMeans(lines: seq<string>, isFile: string -> bool, clean: string -> string, n: nat, f: string)
    requires n <= |lines|
    ensures f in Picked(lines, isFile, clean, n) <==> exists i :: 0 <= i < n && Picks(lines, isFile, clean, i) && f == clean(lines[i])
    decreases n
  {
    if n > 0 {
      PickedMeans(lines, isFile, clean, n - 1, f);
      var prev := Picked(lines, isFile, clean, n - 1);
      var last := if Picks(lines, isFile, clean, n - 1) then [clean(lines[n - 1])] else [];
      assert Picked(lines, isFile, clean, n) == prev + last;
      if f !in prev && f in last {
        assert Picks(lines, isFile, clean, n - 1) && f == clean(lines[n - 1]);
      }
      if exists i :: 0 <= i < n && Picks(lines, isFile, clean, i) && f == clean(lines[i]) {
        var i :| 0 <= i < n && Picks(lines, isFile, clean, i) && f == clean(lines[i]);
        if i == n - 1 {
          assert f in last;
        }
      }
    }
  }

  /** Without any marker line nothing is scraped. */
  lemma {:induction false} NoMarkerNothingPicked(lines: seq<string>, isFile: string -> bool, clean: string -> string, n: nat)
    requires n <= |lines|
    requires forall i :: 0 <= i < |lines| ==> !Marked(lines[i])
    ensures Picked(lines, isFile, clean, n) == []
    decreases n
  {
    if n > 0 {
      NoMarkerNothingPicked(lines, isFile, clean, n - 1);
    }
  }

  /**
   `process_raw_cvdump_data`: one pass with a flag that a marker line raises and the
   next line consumes; a marker line right after a marker is a candidate itself and
   raises the flag again.
   */
  method ProcessRawCvdumpData(raw: string, isFile: string -> bool) returns (files: seq<string>)
    ensures files == Picked(SplitLines(raw), isFile, Strip, |SplitLines(raw)|)
  {
    var lines := SplitLines(raw);
    files := [];
    var nextLine := false;
    var i := 0;
    while i < |lines|
      invariant 0 <= i <= |lines|
      invariant files == Picked(lines, isFile, Strip, i)
      invariant nextLine <==> 0 < i && Marked(lines[i - 1])
    {
      var line := lines[i];
      if nextLine {
        var fileInSpe := Strip(line);
        if isFile(fileInSpe) {
          files := files + [fileInSpe];
        }
        nextLine := false;
      }
      if Marked(line) {
        nextLine := true;
      }
      i := i + 1;
    }
  }

  /**
   `get_lib_source_files`: a pdb for which srctool lists any file is not a library pdb
   and gives no files; otherwise the cvdump listing is scraped.
   */
  method GetLibSourceFiles(srctoolFiles: seq<string>, cvdumpReply: string, isFile: string -> bool) returns (files: seq<string>)
    ensures |srctoolFiles| > 0 ==> files == []
    ensures |srctoolFiles| == 0 ==> files == Picked(SplitLines(cvdumpReply), isFile, Strip, |SplitLines(cvdumpReply)|)
  {
    if |srctoolFiles| > 0 {
      return [];
    }
    files := ProcessRawCvdumpData(cvdumpReply, isFile);
  }
}
