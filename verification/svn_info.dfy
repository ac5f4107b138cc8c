/**
 The parser of an `svn info -R` listing (script/prepPDB.py, is_in_svn).

 The listing is a run of blank-line-separated blocks. The first block describes the
 working-copy root and only supplies its `URL:`. Every later block is scanned for
 `Path:`, `Revision:`, `Checksum:` and `Node Kind:`; a block is handed to the commit
 rule when a blank line arrives, when three of Path/Revision/Checksum have been seen,
 or on the listing's last line, and the commit rule runs BEFORE the current line is
 scanned.
 */
module SvnInfo {
  import opened Strs
  import opened Records

  const PathTag := "Path: "
  const UrlTag := "URL: "
  const RevTag := "Revision: "
  const ShaTag := "Checksum: "
  const KindTag := "Node Kind: "

  /** The fields of the block being scanned, and how many Path/Revision/Checksum lines it had. */
  datatype Block = Block(path: Option<string>, rev: Option<string>, sha: Option<string>, kind: Option<string>, hits: nat)

  const Fresh := Block(None, None, None, None, 0)

  /** One line's effect on the block being scanned. */
  function ScanLine(b: Block, line: string): Block {
    var b1 := if StartsWith(line, PathTag) then b.(path := Some(line[|PathTag|..]), hits := b.hits + 1) else b;
    var b2 := if StartsWith(line, RevTag) then b1.(rev := Some(line[|RevTag|..]), hits := b1.hits + 1) else b1;
    var b3 := if StartsWith(line, ShaTag) then b2.(sha := Some(line[|ShaTag|..]), hits := b2.hits + 1) else b2;
    if StartsWith(line, KindTag) then b3.(kind := Some(line[|KindTag|..])) else b3
  }

  /**
   The first block: the last `URL:` value seen, and how many lines the block spans.
   It ends with (and includes) the first blank line, or runs to the end of the listing.
   */
  function FirstBlock(lines: seq<string>, url: Option<string>): (r: (Option<string>, nat))
    ensures r.1 <= |lines|
    ensures forall j :: 0 <= j < r.1 - 1 ==> lines[j] != ""
    ensures r.1 == |lines| || (r.1 > 0 && lines[r.1 - 1] == "")
    decreases |lines|
  {
    if |lines| == 0 then (url, 0)
    else
      var line := lines[0];
      var url' := if StartsWith(line, UrlTag) then Some(line[|UrlTag|..]) else url;
      if |line| == 0 then (url', 1)
      else
        var r := FirstBlock(lines[1..], url');
        (r.0, r.1 + 1)
  }

  /** The commit rule: Path, Revision, a first-block URL, and Node Kind `file`. */
  predicate Committable(b: Block, url: Option<string>) {
    Truthy(b.path) && Truthy(url) && Truthy(b.rev) && b.kind == Some("file")
  }

  /** The `relpath` of a record: the path relative to the root, with `/` separators. */
  function UrlRelPath(host: Host, path: string): string {
    ReplaceChar(host.relpath(path), '\\', '/')
  }

  function Commit(b: Block, url: Option<string>, root: string, host: Host, acc: map<string, Record>): (r: map<string, Record>)
    ensures forall k :: k in r ==> (k in acc && r[k] == acc[k]) || (r[k].SvnRecord? && Truthy(url) && r[k].reporoot == url.value)
  {
    if Committable(b, url) then
      match CacheKey(host, root, b.path.value)
      case None => acc
      case Some(k) => acc[k := SvnRecord(url.value, UrlRelPath(host, b.path.value), b.rev.value, b.sha)]
    else acc
  }

  /**
   The block loop over the lines after the first block. Every record it adds carries the
   first block's URL as its `reporoot`.
   */
  function Scan(lines: seq<string>, b: Block, url: Option<string>, root: string, host: Host,
                acc: map<string, Record>): (r: map<string, Record>)
    ensures forall k :: k in r ==> (k in acc && r[k] == acc[k]) || (r[k].SvnRecord? && Truthy(url) && r[k].reporoot == url.value)
    decreases |lines|
  {
    if |lines| == 0 then acc
    else
      var line := lines[0];
      var trigger := b.hits >= 3 || |lines| == 1 || |line| == 0;
      var acc' := if trigger then Commit(b, url, root, host, acc) else acc;
      var b' := if trigger then Fresh else b;
      Scan(lines[1..], ScanLine(b', line), url, root, host, acc')
  }

  /**
   The root cache built from one listing: every record's `reporoot` is the first
   block's URL, and a listing without a URL, or without any blank line, gives no record.
   */
  function Parse(lines: seq<string>, root: string, host: Host): (r: map<string, Record>)
    ensures forall k :: k in r ==>
      r[k].SvnRecord? && Truthy(FirstBlock(lines, None).0) && r[k].reporoot == FirstBlock(lines, None).0.value
    ensures !Truthy(FirstBlock(lines, None).0) ==> r == map[]
    ensures (forall j :: 0 <= j < |lines| ==> lines[j] != "") ==> r == map[]
  {
    var fb := FirstBlock(lines, None);
    var r := Scan(lines[fb.1..], Fresh, fb.0, root, host, map[]);
    assert !Truthy(fb.0) ==> r == map[];
    r
  }

  /**
   The listing parser as written: when the first block has no `URL:` line, `url` is never
   assigned, and the first commit check after it raises `UnboundLocalError`. `None`
   stands for that exception.
   */
  function ParseAsWritten(lines: seq<string>, root: string, host: Host): (r: Option<map<string, Record>>)
    ensures r.None? <==> FirstBlock(lines, None).0.None? && FirstBlock(lines, None).1 < |lines|
    ensures r.Some? ==> r.value == Parse(lines, root, host)
  {
    var fb := FirstBlock(lines, None);
    if fb.0.None? && fb.1 < |lines| then None else Some(Parse(lines, root, host))
  }

  /** A listing whose first block lacks a URL makes the as-written parser raise. */
  lemma UrlLessListingRaises(root: string, host: Host)
    ensures ParseAsWritten(["Path: .", "", "Path: a.c", "Revision: 3", "Node Kind: file", ""], root, host).None?
  {
    var lines := ["Path: .", "", "Path: a.c", "Revision: 3", "Node Kind: file", ""];
    TaggedLine(PathTag, ".", UrlTag);
    assert FirstBlock(lines[1..], None) == (None, 1);
    assert FirstBlock(lines, None) == (None, 2);
  }

  // ---------------------------------------------------------------------------
  // The last line never reaches a record
  // ---------------------------------------------------------------------------

  lemma {:induction false} ScanIgnoresLastLine(p: seq<string>, x: string, y: string, b: Block, url: Option<string>,
                                               root: string, host: Host, acc: map<string, Record>)
    ensures Scan(p + [x], b, url, root, host, acc) == Scan(p + [y], b, url, root, host, acc)
    decreases |p|
  {
    if |p| > 0 {
      var line := p[0];
      var trigger := b.hits >= 3 || |p + [x]| == 1 || |line| == 0;
      var acc' := if trigger then Commit(b, url, root, host, acc) else acc;
      var b' := if trigger then Fresh else b;
      assert (p + [x])[1..] == p[1..] + [x];
      assert (p + [y])[1..] == p[1..] + [y];
      ScanIgnoresLastLine(p[1..], x, y, ScanLine(b', line), url, root, host, acc');
    }
  }

  lemma {:induction false} FirstBlockExtend(p: seq<string>, x: string, url: Option<string>)
    ensures FirstBlock(p, url).1 < |p| ==> FirstBlock(p + [x], url) == FirstBlock(p, url)
    ensures FirstBlock(p, url).1 == |p| ==> FirstBlock(p + [x], url).1 >= |p|
    decreases |p|
  {
    if |p| > 0 {
      var line := p[0];
      var url' := if StartsWith(line, UrlTag) then Some(line[|UrlTag|..]) else url;
      assert (p + [x])[0] == line;
      assert (p + [x])[1..] == p[1..] + [x];
      if |line| > 0 {
        FirstBlockExtend(p[1..], x, url');
      }
    }
  }

  lemma NoSecondBlock(p: seq<string>, x: string, root: string, host: Host)
    requires FirstBlock(p, None).1 == |p|
    ensures Parse(p + [x], root, host) == map[]
  {
    var q := p + [x];
    FirstBlockExtend(p, x, None);
    var fb := FirstBlock(q, None);
    ParseUnfold(q, root, host);
    ShortTail(q, fb.1, fb.0, root, host);
  }

  /** A tail of at most one line yields no record. */
  lemma ShortTail(q: seq<string>, n: nat, url: Option<string>, root: string, host: Host)
    requires |q| <= n + 1 && n <= |q|
    ensures Scan(q[n..], Fresh, url, root, host, map[]) == map[]
  {
    if n < |q| {
      assert q[n..] == [q[n]];
      ScanLoneLine(q[n], url, root, host);
    } else {
      assert q[n..] == [];
    }
  }

  lemma ParseUnfold(lines: seq<string>, root: string, host: Host)
    ensures var fb := FirstBlock(lines, None);
      Parse(lines, root, host) == Scan(lines[fb.1..], Fresh, fb.0, root, host, map[])
  {
  }

  /** A one-line tail commits only the fresh block, which has no Path. */
  lemma ScanLoneLine(x: string, url: Option<string>, root: string, host: Host)
    ensures Scan([x], Fresh, url, root, host, map[]) == map[]
  {
    ScanCommits(x, [], Fresh, url, root, host, map[]);
    assert [x] == [x] + [];
  }

  /**
   The commit check runs before a line is scanned, so the listing's final line, whatever it
   holds, never contributes a field to a committed record.
   */
  lemma LastLineIgnored(p: seq<string>, x: string, y: string, root: string, host: Host)
    ensures Parse(p + [x], root, host) == Parse(p + [y], root, host)
  {
    FirstBlockExtend(p, x, None);
    FirstBlockExtend(p, y, None);
    var fb := FirstBlock(p, None);
    if fb.1 < |p| {
      assert (p + [x])[fb.1..] == p[fb.1..] + [x];
      assert (p + [y])[fb.1..] == p[fb.1..] + [y];
      ScanIgnoresLastLine(p[fb.1..], x, y, Fresh, fb.0, root, host, map[]);
    } else {
      NoSecondBlock(p, x, root, host);
      NoSecondBlock(p, y, root, host);
    }
  }

  // ---------------------------------------------------------------------------
  // A well-formed listing yields exactly the committable blocks
  // ---------------------------------------------------------------------------

  /** One entry of a listing, in the order `svn info` prints the fields the parser reads. */
  datatype Item = Item(path: string, revision: string, kind: string, checksum: Option<string>)

  function ItemLines(it: Item): seq<string> {
    [PathTag + it.path, RevTag + it.revision, KindTag + it.kind]
    + (if it.checksum.Some? then [ShaTag + it.checksum.value] else [])
    + [""]
  }

  function ItemsLines(items: seq<Item>): seq<string>
    decreases |items|
  {
    if |items| == 0 then [] else ItemLines(items[0]) + ItemsLines(items[1..])
  }

  /** A listing: the root's block (a Path and the URL), then one block per item. */
  function Listing(url: string, items: seq<Item>): seq<string> {
    [PathTag + ".", UrlTag + url, ""] + ItemsLines(items)
  }

  /**
   The reference rule, stated on items rather than lines: an item becomes a record iff its
   path, revision and the URL are non-empty and its kind is `file`; later items overwrite
   earlier ones under the same key.
   */
  function Expected(url: string, items: seq<Item>, root: string, host: Host, acc: map<string, Record>): map<string, Record>
    decreases |items|
  {
    if |items| == 0 then acc
    else
      var it := items[0];
      var acc' :=
        if |it.path| > 0 && |url| > 0 && |it.revision| > 0 && it.kind == "file" then
          match CacheKey(host, root, it.path)
          case None => acc
          case Some(k) => acc[k := SvnRecord(url, UrlRelPath(host, it.path), it.revision, it.checksum)]
        else acc;
      Expected(url, items[1..], root, host, acc')
  }

  lemma TaggedLine(tag: string, v: string, other: string)
    requires |tag| > 0 && |other| > 0 && tag[0] != other[0]
    ensures StartsWith(tag + v, tag) && (tag + v)[|tag|..] == v
    ensures !StartsWith(tag + v, other)
  {
    assert (tag + v)[..|tag|] == tag;
    assert (tag + v)[0] == tag[0];
  }

  /** One step of the block loop, as an equation. */
  /** A line that triggers the commit check commits the block and starts a fresh one. */
  lemma ScanCommits(line: string, rest: seq<string>, b: Block, url: Option<string>, root: string, host: Host,
                    acc: map<string, Record>)
    requires b.hits >= 3 || |rest| == 0 || |line| == 0
    ensures Scan([line] + rest, b, url, root, host, acc)
         == Scan(rest, ScanLine(Fresh, line), url, root, host, Commit(b, url, root, host, acc))
  {
    var lines := [line] + rest;
    assert lines[0] == line && lines[1..] == rest;
  }

  /** Any other line is scanned into the current block. */
  lemma ScanKeeps(line: string, rest: seq<string>, b: Block, url: Option<string>, root: string, host: Host,
                  acc: map<string, Record>)
    requires b.hits < 3 && |rest| > 0 && |line| > 0
    ensures Scan([line] + rest, b, url, root, host, acc) == Scan(rest, ScanLine(b, line), url, root, host, acc)
  {
    var lines := [line] + rest;
    assert lines[0] == line && lines[1..] == rest;
  }

  lemma ScanPath(b: Block, v: string)
    ensures ScanLine(b, PathTag + v) == b.(path := Some(v), hits := b.hits + 1)
  {
    TaggedLine(PathTag, v, RevTag);
    TaggedLine(PathTag, v, ShaTag);
    TaggedLine(PathTag, v, KindTag);
  }

  lemma ScanRev(b: Block, v: string)
    ensures ScanLine(b, RevTag + v) == b.(rev := Some(v), hits := b.hits + 1)
  {
    TaggedLine(RevTag, v, PathTag);
    TaggedLine(RevTag, v, ShaTag);
    TaggedLine(RevTag, v, KindTag);
  }

  lemma ScanSha(b: Block, v: string)
    ensures ScanLine(b, ShaTag + v) == b.(sha := Some(v), hits := b.hits + 1)
  {
    TaggedLine(ShaTag, v, PathTag);
    TaggedLine(ShaTag, v, RevTag);
    TaggedLine(ShaTag, v, KindTag);
  }

  lemma ScanKind(b: Block, v: string)
    ensures ScanLine(b, KindTag + v) == b.(kind := Some(v))
  {
    TaggedLine(KindTag, v, PathTag);
    TaggedLine(KindTag, v, RevTag);
    TaggedLine(KindTag, v, ShaTag);
  }

  lemma ExpectedOne(it: Item, url: string, root: string, host: Host, acc: map<string, Record>)
    ensures Expected(url, [it], root, host, acc)
         == Commit(Block(Some(it.path), Some(it.revision), it.checksum, Some(it.kind), 0), Some(url), root, host, acc)
  {
    assert [it][1..] == [];
  }

  lemma ScanItem(it: Item, more: seq<string>, url: string, root: string, host: Host, acc: map<string, Record>)
    ensures Scan(ItemLines(it) + more, Fresh, Some(url), root, host, acc)
         == Scan(more, Fresh, Some(url), root, host, Expected(url, [it], root, host, acc))
  {
    var tail := (if it.checksum.Some? then [ShaTag + it.checksum.value] else []) + [""] + more;
    ScanItemHead(it, tail, Some(url), root, host, acc);
    assert ItemLines(it) + more == [PathTag + it.path] + ([RevTag + it.revision] + ([KindTag + it.kind] + tail));
    ExpectedOne(it, url, root, host, acc);
    if it.checksum.Some? {
      assert tail == [ShaTag + it.checksum.value] + ([""] + more);
      ScanItemSha(it, more, Some(url), root, host, acc);
    } else {
      assert tail == [""] + more;
      ScanCommits("", more, Block(Some(it.path), Some(it.revision), None, Some(it.kind), 2), Some(url), root, host, acc);
    }
  }

  /** The Checksum line completes the third hit, and the blank line after it commits. */
  lemma ScanItemSha(it: Item, more: seq<string>, u: Option<string>, root: string, host: Host, acc: map<string, Record>)
    requires it.checksum.Some?
    ensures Scan([ShaTag + it.checksum.value] + ([""] + more), Block(Some(it.path), Some(it.revision), None, Some(it.kind), 2), u, root, host, acc)
         == Scan(more, Fresh, u, root, host, Commit(Block(Some(it.path), Some(it.revision), it.checksum, Some(it.kind), 0), u, root, host, acc))
  {
    var b3 := Block(Some(it.path), Some(it.revision), None, Some(it.kind), 2);
    var b4 := Block(Some(it.path), Some(it.revision), it.checksum, Some(it.kind), 3);
    ScanSha(b3, it.checksum.value);
    ScanKeeps(ShaTag + it.checksum.value, [""] + more, b3, u, root, host, acc);
    ScanCommits("", more, b4, u, root, host, acc);
    assert Commit(b4, u, root, host, acc) == Commit(b4.(hits := 0), u, root, host, acc);
  }

  /** The Path, Revision and Node Kind lines of an item fill a fresh block without a commit. */
  lemma ScanItemHead(it: Item, tail: seq<string>, u: Option<string>, root: string, host: Host, acc: map<string, Record>)
    requires |tail| > 0
    ensures Scan([PathTag + it.path] + ([RevTag + it.revision] + ([KindTag + it.kind] + tail)), Fresh, u, root, host, acc)
         == Scan(tail, Block(Some(it.path), Some(it.revision), None, Some(it.kind), 2), u, root, host, acc)
  {
    var p := PathTag + it.path;
    var r := RevTag + it.revision;
    var k := KindTag + it.kind;
    var b1 := Block(Some(it.path), None, None, None, 1);
    var b2 := Block(Some(it.path), Some(it.revision), None, None, 2);
    ScanPath(Fresh, it.path);
    ScanRev(b1, it.revision);
    ScanKind(b2, it.kind);
    ScanKeeps(p, [r] + ([k] + tail), Fresh, u, root, host, acc);
    ScanKeeps(r, [k] + tail, b1, u, root, host, acc);
    ScanKeeps(k, tail, b2, u, root, host, acc);
  }

  lemma {:induction false} ScanItems(items: seq<Item>, url: string, root: string, host: Host, acc: map<string, Record>)
    ensures Scan(ItemsLines(items), Fresh, Some(url), root, host, acc) == Expected(url, items, root, host, acc)
    decreases |items|
  {
    if |items| > 0 {
      ScanItem(items[0], ItemsLines(items[1..]), url, root, host, acc);
      var acc' := Expected(url, [items[0]], root, host, acc);
      assert Expected(url, items, root, host, acc) == Expected(url, items[1..], root, host, acc') by {
        assert [items[0]][1..] == [];
      }
      ScanItems(items[1..], url, root, host, acc');
    }
  }

  /**
   Parsing a well-formed listing gives exactly the reference records: the machine's
   triggers, tags and first-block handling agree with the item-level rule.
   */
  lemma ParseListing(url: string, items: seq<Item>, root: string, host: Host)
    ensures Parse(Listing(url, items), root, host) == Expected(url, items, root, host, map[])
  {
    var lines := Listing(url, items);
    TaggedLine(PathTag, ".", UrlTag);
    TaggedLine(UrlTag, url, PathTag);
    assert lines[0] == PathTag + "." && lines[1] == UrlTag + url && lines[2] == "";
    assert lines[1..][1..] == lines[2..];
    assert FirstBlock(lines[2..], Some(url)) == (Some(url), 1);
    assert FirstBlock(lines[1..], None) == (Some(url), 2);
    assert FirstBlock(lines, None) == (Some(url), 3);
    assert lines[3..] == ItemsLines(items);
    ScanItems(items, url, root, host, map[]);
  }
}
