# SIMuR provenance pipeline — a Dafny model

SIMuR source-indexes Windows debug files (pdbs). A program database lists the source files it was built from. For each file, `prepPDB` finds out which version-control working copy (svn or git) the file belongs to, and which revision and repository it comes from. It then writes a `srcsrv` stream into the pdb. From that stream a debugger can run `vcget` to fetch the exact source later.

This project models the logic of that pipeline as pure functions over strings, sequences and maps:

- `Strs` holds the Python string behaviour the scripts rely on: `splitlines`, `strip`, `split`, `lower` and `startswith`. `Paths` holds `dirname`, `splitext` and `join`, plus the upward root search over a set of existing directories. `Regex` matches the two regular expressions the git listing is read with: like Python's engine, it is a backtracking search that tries the longest repetition first, and it is proved to return the greatest way of cutting the line. `Dicts` is an insertion-ordered dictionary, because Python dict order decides the order of the stream lines and which cached root answers first. `Ordering` is Python's string order and `sorted()`.
- `Records` holds the provenance records and the host facts. The host facts are the filesystem answers and the command replies, given as parameters.
- `SvnInfo` parses `svn info -R` listings. `GitListing` parses `git remote -v` and `git ls-files -s`.
- `Resolver` covers `skip_file`, `is_in_svn`, `is_in_git` and `get_vcs_information`: the per-run caches, the negative `no-vcs` cache, and the svn → git → imports order.
- `Stream` encodes the `srcsrv` stream and reads it back.
- `PrepPdb` holds the remaining prepPDB helpers: the srctool line filter, the cache-file name, the library heuristic, the per-vcs report and the presoak registry.
- `Vcget` is the retrieval side: argument routing, the usage text, the svn URL and command, redirect stripping, git dispatch through the mirror cache, and what `main` prints and writes.
- `Mirror` is `find_and_update_git_cache`: mirror naming, clone or pull, and the registry and report maps.
- `LibSrcTool` scrapes the cvdump listing. `IndexPdbs` covers pdb classification, `--under_test`, the merging of imports and `repo_roots`. `ComparePdbs` holds the comparison script's filters and set logic.

Command output, filesystem existence, `abspath`, modification times, SHA-1 and the clock are parameters. Nothing is executed.

## Model

| member | source | states |
|---|---|---|
| Paths.FindRoot | script/prepPDB.py:305-323 | the answer is the nearest ancestor-or-self of the start directory holding the marker; None only when no directory up to and including the filesystem root holds it |
| Paths.Dirname | script/prepPDB.py:41 | `os.path.dirname` gives a prefix of the path; which prefix is pinned by `Paths.DirnameKeeps` and `Paths.DirnameOfJoin` |
| Paths.DirnameKeeps | script/prepPDB.py:41 | the directory part keeps every prefix of the path that ends before an inner separator |
| Paths.DirnameOfJoin | script/prepPDB.py:41 | the directory part of a directory joined with a separator-free file name is that directory, when it has more than a drive and no trailing separator |
| Paths.SplitExt | script/prepPDB.py:665 | `os.path.splitext` splits the path into stem and extension that concatenate back; there is an extension iff some dot is followed by no dot and no separator and has a non-dot character of the file name before it, and then the split is at that dot |
| Paths.ExtensionDotFound | script/prepPDB.py:665 | such a dot is the last dot of the path, lies after the last separator, and has a non-dot character between the two |
| Paths.JoinPath | script/compare_pdbs_test.py:93 | `os.path.join` starts with the directory and ends with the name; a backslash is inserted between them iff the directory has more than a drive and does not already end with a separator |
| Strs.Strip | script/libSrcTool.py:74 | `str.strip` removes exactly the leading and trailing whitespace; what is left is the middle slice of the input and starts and ends with non-whitespace |
| Strs.SplitThenJoin | script/indexPDBs.py:121 | `str.split(';')` loses nothing: joining the parts back with the separator gives the input |
| Strs.JoinThenSplit | script/prepPDB.py:632-638 | joining separator-free fields and splitting gives the fields back |
| Strs.SplitLines | script/prepPDB.py:145 | `str.splitlines` yields lines without line-break characters; it is empty only for empty text |
| Strs.SplitLinesOfJoinLines | script/compare_pdbs_test.py:185-194 | newline-terminated lines without breaks split back to the same lines |
| Strs.Lower | script/prepPDB.py:207-208 | ASCII capitals become lower case and every other character is kept, so the length is kept and no ASCII capital remains (non-ASCII letters: see Left out) |
| Ordering.Sorted | script/compare_pdbs_test.py:184 | `sorted(set)` holds exactly the set's elements, strictly increasing in Python's string order |
| Ordering.FilterKeepsOrder | script/compare_pdbs_test.py:215-221 | dropping elements from a sorted list keeps it sorted |
| Dicts.Put | script/prepPDB.py:583 | dict assignment: the key gets the value; a new key is appended to the order, an existing key keeps its place |
| Dicts.Update | script/indexPDBs.py:131 | `dict.update`: the right-hand entries win and the old key order is kept as a prefix |
| SvnInfo.FirstBlock | script/prepPDB.py:156-164 | the first block ends at the first blank line or at the end of the listing, and every line before it is non-blank |
| SvnInfo.Commit | script/prepPDB.py:173-225 | a block commit adds only svn records whose reporoot is the listing's URL and leaves all other entries as they were |
| SvnInfo.Scan | script/prepPDB.py:166-237 | the block loop only ever adds svn records carrying the first block's URL |
| SvnInfo.Parse | script/prepPDB.py:145-237 | every record of a parsed listing carries the first block's URL; a listing without a URL or without any blank line yields an empty cache |
| SvnInfo.ParseAsWritten | script/prepPDB.py:156-191 | as written, the parser fails exactly when the first block has no URL line and a second block exists; otherwise it agrees with `Parse` |
| SvnInfo.UrlLessListingRaises | script/prepPDB.py:156-191 | a concrete URL-less listing on which the code as written raises |
| SvnInfo.ScanIgnoresLastLine | script/prepPDB.py:171-173 | the commit check runs before the line is scanned, so the last line of the listing never influences the result |
| SvnInfo.LastLineIgnored | script/prepPDB.py:166-237 | replacing the final line of a listing never changes the parsed cache |
| SvnInfo.FirstBlockExtend | script/prepPDB.py:158-164 | appending a line does not move a first block that already ended at a blank line |
| SvnInfo.NoSecondBlock | script/prepPDB.py:141-164 | output without a blank line before its last line gives an empty root cache |
| SvnInfo.ScanItems | script/prepPDB.py:166-237 | a listing of well-formed blocks commits exactly the file blocks, keyed by the joined path, with Checksum optional |
| SvnInfo.ParseListing | script/prepPDB.py:145-237 | the full listing — header block with a URL, then item blocks — parses to the expected record for every file item and to nothing else |
| GitListing.OriginUrl | script/prepPDB.py:386-388 | a matching `origin … (fetch)` line yields a non-empty URL group |
| GitListing.OriginLine | script/prepPDB.py:386-388 | for `origin`, optional whitespace, a URL, whitespace and `(fetch)`, the group is exactly the URL |
| GitListing.OriginRemote | script/prepPDB.py:382-390 | the remote is the initial value or the URL of some matching line; any matching line makes it present |
| GitListing.OriginRemoteLast | script/prepPDB.py:385-388 | the last matching line decides the remote |
| GitListing.OriginRemoteNone | script/prepPDB.py:382-392 | without a matching line the remote stays None |
| GitListing.LsFilesLine | script/prepPDB.py:415-418 | a matching ls-files line yields a non-empty hexadecimal hash and a non-empty path |
| GitListing.LsFilesLineOf | script/prepPDB.py:414-418 | the line `mode hash stage<TAB>path` of a well-formed staged file reads back as its hash and path |
| GitListing.Store | script/prepPDB.py:419-438 | a listed file is stored under its cache key with remote, hash, raw commit id and root; a path whose key cannot be made is skipped |
| GitListing.ListFiles | script/prepPDB.py:413-444 | listing only adds git records carrying the remote, commit id and root |
| GitListing.ListFilesSucceeds | script/prepPDB.py:439-444 | the listing succeeds exactly when every line matches |
| GitListing.ListFilesPrefix | script/prepPDB.py:439-444 | the first non-matching line stops the listing and leaves the entries added before it |
| GitListing.ListFilesStops | script/prepPDB.py:439-444 | the first non-matching line makes the listing report failure, after the entries before it |
| GitListing.ListFilesOfStaged | script/prepPDB.py:413-438 | the ls-files reply for well-formed staged files lists every one of them and succeeds |
| Resolver.SkippedHasPrefix | script/prepPDB.py:41-44 | a skipped file's path starts with one of the two Program Files spellings |
| Resolver.SkipsProgramFiles | script/prepPDB.py:29-44 | a file under `C:\Program Files\` is skipped |
| Resolver.MixedCaseNotSkipped | script/prepPDB.py:29-44 | the test is case-sensitive: `C:\PROGRAM FILES\` is not skipped |
| Resolver.SkipOfJoin | script/prepPDB.py:29-44 | a file name joined onto a directory is skipped iff the directory starts with one of the two Program Files spellings |
| Resolver.CachedHit | script/prepPDB.py:108-116 | a cache hit is a record of a cached root that prefixes the file and lists it; a miss means no such root |
| Resolver.CachedHitFirst | script/prepPDB.py:108-116 | the first root in registration order that lists the file answers |
| Resolver.CachedHitExtend | script/prepPDB.py:108-116 | registering more roots after the old ones, with the old listings kept, never changes a hit the old roots gave |
| Resolver.IsInSvn | script/prepPDB.py:106-244 | a cached answer is served with no listing; an already-cached root is never listed again; a file without a `.svn` root, or whose root replies with fewer than two characters, is a miss that changes nothing; otherwise the root is registered with the parse of its reply and the file is a hit iff it is in that listing; existing roots are untouched |
| Resolver.SvnProbeOfListing | script/prepPDB.py:106-244 | a new root replying with a well-formed listing is appended with exactly the reference records of that listing, and the file is a hit iff it is one of them |
| Resolver.GitListingOf | script/prepPDB.py:380-444 | a listed root's entries are git records for that root carrying the commit-id reply |
| Resolver.IsInGit | script/prepPDB.py:353-452 | a cached answer is served unchanged; a file without a `.git` root, or whose root's ls-files reply is empty or `fatal`, is a miss that changes nothing; otherwise the root is (re)registered with the new listing and the file is a hit iff every line matched and it is listed; a fresh hit is a git record of that root |
| Resolver.GitProbeOfStaged | script/prepPDB.py:353-452 | a root whose ls-files reply matches line by line, giving one staged file's hash and path after another, is registered with exactly those files' reference records, and the file is a hit iff it is one of them |
| Resolver.Resolve | script/prepPDB.py:532-548 | svn is tried first and its hit wins without git being probed; after an svn miss a git hit wins, and after both miss the imported entry or else `no-vcs` is taken; the git cache changes only when git was probed |
| Resolver.ResolveFile | script/prepPDB.py:520-549 | one step of the loop: skipped files change nothing; a cached `no-vcs` file changes nothing; a file is output iff its cache entry is a record; a new file's entry is the resolution; records already output are kept |
| Resolver.Reuse | script/prepPDB.py:526-530 | a cached record is output again without probing; output order gains the file at most once |
| Resolver.Admit | script/prepPDB.py:532-549 | a newly resolved file is cached, and output iff it resolved to a record |
| Resolver.VisitedMeans | script/prepPDB.py:520-525 | the visited paths are exactly the absolute paths of the files that are not skipped |
| Resolver.Advance | script/prepPDB.py:520-549 | one step of the loop as the run uses it: a new, unskipped file's entry is its resolution; one that a root cached before the step lists gets that record; it is `no-vcs` only when the imports have no record for it; svn roots are only appended |
| Resolver.NewEntriesKept | script/prepPDB.py:532-548 | caching one more path, resolved svn first, keeps the promise about newly cached paths: listed by an earlier svn root means that record, `no-vcs` means no imported record |
| Resolver.Step | script/prepPDB.py:520-549 | one iteration keeps the loop's facts: output iff a record, cache keys grow by the visited path, old entries and svn roots kept, newly cached paths resolved svn first |
| Resolver.GetVcsInformation | script/prepPDB.py:515-551 | exactly the visited files whose cache entry is a record are output, each with that record; the cache gains exactly the visited paths; old cache entries and svn roots are kept; a newly cached path that a root cached before the run lists gets that root's record (svn first); a new path is `no-vcs` only when the imports have no record for it, and an imported record always gives a record |
| Stream.Header | script/prepPDB.py:599-629 | ten header lines, with the instant only on the fourth |
| Stream.Fields | script/prepPDB.py:625-637 | var1..var6 are file, vcs, reporoot, relpath, revision and sha1 |
| Stream.DataLine | script/prepPDB.py:630-638 | splitting a data line on `*` gives back the six fields when none holds a `*` |
| Stream.ReadStream | script/prepPDB.py:598-641 | a read stream has one entry per line between the header and the end banner |
| Stream.StreamRoundTrip | script/prepPDB.py:598-641 | the stream is 11 fixed lines plus one line per record in record order, and reading it back yields the instant and each record's fields |
| Stream.OnlyTimeVaries | script/prepPDB.py:604-605 | two streams of the same data differ only on the DATETIME line |
| PrepPdb.PluralFiles | script/prepPDB.py:567-570 | `file` exactly for one, `files` otherwise |
| PrepPdb.ReplyLines | script/prepPDB.py:91 | the srctool reply loses its last (summary) line |
| PrepPdb.SourceFilesSound | script/prepPDB.py:93-99 | every reported file is the absolute path of a listed line not starting with `*` |
| PrepPdb.SourceFilesComplete | script/prepPDB.py:93-99 | every such line is reported |
| PrepPdb.NonIndexedAsWritten | script/prepPDB.py:91-99 | as written, the filter raises exactly when some line is empty; otherwise it agrees with the corrected filter |
| PrepPdb.EmptyLineRaises | script/prepPDB.py:94 | a concrete reply with an empty line on which the code as written raises |
| PrepPdb.NonIndexedFiles | script/prepPDB.py:82-101 | the files are exactly the absolute paths of the non-empty lines, except the last, that do not start with `*` |
| PrepPdb.MakeCacheFile | script/prepPDB.py:664-667 | the cache file is the pdb's stem followed by `.simur.json` |
| PrepPdb.SameStemSameCache | script/prepPDB.py:664-667 | pdbs with the same stem share one cache file |
| PrepPdb.CheckIndexedLib | script/prepPDB.py:776-786 | the cache file is returned iff it exists and is at least as new as the pdb, else the empty string |
| Strs.Decimal | script/prepPDB.py:586 | an `int` formatted into the summary line is a non-empty run of digits without a leading zero |
| Strs.DecimalValue | script/prepPDB.py:586 | reading the digits back gives the count |
| PrepPdb.CountsCover | script/prepPDB.py:575-583 | every record is counted under svn or git |
| PrepPdb.FirstUse | script/prepPDB.py:576-583 | the index of the first record using a system, or the count of records when none does: that record uses it and no earlier one does |
| PrepPdb.Tally | script/prepPDB.py:576-583 | after a prefix of the records, each vcs counts its records in that prefix, every vcs seen is present, and the keys are in order of first use |
| PrepPdb.FirstUseKept | script/prepPDB.py:576-583 | a system used before the next record keeps its first use when that record is added |
| PrepPdb.TallyOrderStep | script/prepPDB.py:576-583 | a system first used by the next record is appended after every system used before it |
| PrepPdb.ReportVcsData | script/prepPDB.py:575-588 | the counts are keyed by exactly the vcs values that occur, each with its positive record count, in order of first use; one line `Found {n} {file or files} using {vcs}` is printed per key, in key order, with that key's count |
| PrepPdb.FirstLineNamesFirstFile | script/prepPDB.py:575-588 | the first printed summary line names the first record's vcs with its full count |
| PrepPdb.CountPositive | script/prepPDB.py:580-583 | a positive count has a witnessing record |
| PrepPdb.Presoak | script/prepPDB.py:727-733 | existing entries and their order are kept; new entries are `presoak` for the truthy remotes of git records |
| PrepPdb.UpdatePresoak | script/prepPDB.py:723-735 | the registry gains `remote → presoak` for exactly the truthy git remotes it lacked, and nothing else changes |
| PrepPdb.PresoakKeepsWithoutRemotes | script/prepPDB.py:727-733 | without git records that have a remote, the registry is unchanged |
| Vcget.FindCrlf | script/vcget.py:30 | the first `\r\n` at or after a position, or None when there is none |
| Vcget.StripRedirect | script/vcget.py:27-33 | a reply not starting with the redirect notice is unchanged; otherwise everything up to and including the first `\r\n` is dropped; the strip fails when there is none |
| Vcget.StripRedirectNotice | script/vcget.py:27-31 | a notice line followed by `\r\n` and content yields exactly the content |
| Vcget.ParseArgs | script/vcget.py:86-104 | fewer than four arguments, or a vcs other than svn or git, is refused; svn takes reporoot, relpath and revision; git takes reporoot and revision |
| Vcget.RouteIgnoresExtra | script/vcget.py:92-95 | extra arguments such as a sha1 never change the route |
| Vcget.DataLineRoutes | script/vcget.py:92-95 | the four stream fields that the command template passes route to the record's own reporoot, relpath and revision |
| Vcget.SvnUrl | script/vcget.py:22 | the URL is the reporoot, a slash, then the relpath |
| Vcget.SvnCommand | script/vcget.py:23 | the command is `svn cat `, the URL, `@`, then the revision |
| Vcget.Remote | script/vcget.py:55-59 | the mirror lookup raises a KeyError exactly for the code as written with an empty registry; otherwise it answers the synchronised git dir; either way it prints the pull or clone notice |
| Vcget.Fetch | script/vcget.py:21-80 | svn fetches through the redirect strip and prints nothing; an existing local root shows the revision there; otherwise the mirror's notice is printed and the mirror is used, a diagnostic text comes back, or the registry lookup raises |
| Vcget.FetchAgrees | script/vcget.py:55-59 | the fetch as written raises a KeyError exactly for a remote reporoot with an empty registry, and otherwise agrees with the corrected fetch |
| Vcget.GitIgnoresRelpath | script/vcget.py:39-80 | git content depends on the revision alone, shown in some directory |
| Vcget.RefusalShape | script/vcget.py:13-15 | a refusal prints the reason first and the two usage lines last |
| Vcget.MainAsWritten | script/vcget.py:86-108 | as written, exit 3 exactly on bad arguments, with the reason and the usage printed and nothing written; content is written with exit 0; a diagnostic text reply raises a TypeError; the mirror's notice is printed in every case |
| Vcget.MissingMirrorRaises | script/vcget.py:57-59 | with a registry present and no mirror for an absent local root, the code as written raises a TypeError, while the corrected main writes the diagnostic |
| Vcget.EmptyPresoakRaises | script/simur.py:196-198 | with an empty registry, an absent local root makes the code as written raise a KeyError, while the corrected main exits with 0 |
| Vcget.Main | script/vcget.py:86-108 | exit 3 exactly on bad arguments; it raises only on an svn redirect without a line end; a diagnostic is written encoded; wherever the code as written exits, the two agree |
| Mirror.MirrorPath | script/simur.py:169-171 | the mirror path is the cache root joined with the hex SHA-1 of the reporoot |
| Mirror.MirrorDependsOnHashOnly | script/simur.py:169-172 | reporoots with the same hash share a mirror directory |
| Mirror.Synchronise | script/simur.py:177-191 | an existing `.git` is pulled and kept; otherwise the reporoot is cloned and the `.git` is searched again |
| Mirror.Notice | script/simur.py:183-190 | nothing is printed iff the command succeeded; a failure prints a line naming the failed pull or clone and ending with the reply |
| Mirror.RegisterAsWritten | script/simur.py:195-207 | as written, the registry update raises exactly when the registry is empty |
| Mirror.EmptyRegistryRaises | script/simur.py:196-198 | an empty registry raises as written; the corrected update inserts the one entry |
| Mirror.Register | script/simur.py:195-207 | afterwards the reporoot maps to the mirror directory and every other key is unchanged; agrees with the code as written whenever that does not raise |
| Mirror.Report | script/simur.py:210-214 | a non-zero exit records the reply lines under the reporoot; other keys are untouched; a zero exit changes nothing |
| Mirror.FindAndUpdateAsWritten | script/simur.py:162-218 | as written, the whole update raises exactly for an empty registry, after printing the notice, and otherwise agrees with the corrected one |
| Mirror.FindAndUpdate | script/simur.py:162-218 | the answer is the synchronised git dir; the registry maps the reporoot to its mirror; the report changes only on failure; the notice of the pull or clone is printed |
| Mirror.FailedPullKeepsGitDir | script/simur.py:179-184 | a failed pull still returns the existing git dir, is recorded in the report and prints `pulling failed` |
| Mirror.LoadJsonData | script/simur.py:128-139 | a missing file or invalid JSON gives an empty dictionary; otherwise the parsed one |
| LibSrcTool.PickedMeans | script/libSrcTool.py:70-82 | a string is scraped iff some line right after a marker line strips to it and names a file |
| LibSrcTool.NoMarkerNothingPicked | script/libSrcTool.py:70-84 | without any `LF_STRING_ID` line nothing is scraped |
| LibSrcTool.ProcessRawCvdumpData | script/libSrcTool.py:62-84 | the one-pass flag loop yields, in input order, the stripped candidates that name files; a marker right after a marker is itself a candidate |
| LibSrcTool.GetLibSourceFiles | script/libSrcTool.py:89-99 | any srctool file means no library files; otherwise the cvdump scrape |
| IndexPdbs.ForwardSlashNotInternal | script/indexPDBs.py:93-96 | a path without a backslash is never taken for a compiler `vcNNN.pdb` |
| IndexPdbs.CompilerPdbExcluded | script/indexPDBs.py:93-96 | `C:\out\vc143.pdb` is excluded |
| IndexPdbs.Classify | script/indexPDBs.py:91-107 | a non-internal pdb with srctool files is exe; otherwise it is lib iff cvdump is given and its scrape is non-empty |
| IndexPdbs.SelectMeans | script/indexPDBs.py:88-109 | each list holds exactly the input pdbs of its class |
| IndexPdbs.FilterDisjoint | script/indexPDBs.py:88-109 | no pdb is in both lists |
| IndexPdbs.FilterPdbs | script/indexPDBs.py:88-109 | the loop builds the lib and exe lists as the order-preserving selections of their classes |
| IndexPdbs.UnderTest | script/indexPDBs.py:232-238 | without `--under_test` the lists are kept; a pdb in the exe list becomes the only one; anything else fails with exit 3 |
| IndexPdbs.CacheFiles | script/indexPDBs.py:121-125 | the cache files are exactly those listed under some `;`-separated directory |
| IndexPdbs.MergeIsOverlay | script/indexPDBs.py:127-131 | the successive `update`s give the overlay of the loaded files, later over earlier |
| IndexPdbs.MergeKeys | script/indexPDBs.py:127-131 | a key is imported iff some cache file holds it |
| IndexPdbs.MergeLastWins | script/indexPDBs.py:127-131 | on a clash the last file holding the key decides |
| IndexPdbs.AccumulateProcessed | script/indexPDBs.py:114-133 | the imports hold exactly the keys of the cache files under the `;`-separated directories |
| IndexPdbs.AccumulateLastWins | script/indexPDBs.py:121-131 | a later cache file overrides an earlier one on a key clash |
| IndexPdbs.RepoRoots | script/indexPDBs.py:277-279 | `svn` and `git` list exactly the roots of the two caches, without repetition |
| ComparePdbs.Flatten | script/compare_pdbs_test.py:86-87 | the walk is visited as exactly its directory and file pairs |
| ComparePdbs.CollectKeys | script/compare_pdbs_test.py:83-94 | a name is collected iff it ends in `.pdb`, not `.ENU.pdb` nor `.JPN.pdb`, and occurs in the walk |
| ComparePdbs.CollectLastWins | script/compare_pdbs_test.py:93-94 | a later file of the same name overwrites the earlier path |
| ComparePdbs.CollectAllPdbFiles | script/compare_pdbs_test.py:81-96 | the keys are exactly the wanted names found anywhere in the walk |
| ComparePdbs.ComparePopulation | script/compare_pdbs_test.py:108-112 | each difference is a subset of its own key set and outside the other; the two are disjoint |
| ComparePdbs.SamePopulation | script/compare_pdbs_test.py:115-125 | both differences are empty iff the two key sets are equal |
| ComparePdbs.Unindexed | script/compare_pdbs_test.py:143-153 | the reply's lines except the last |
| ComparePdbs.AccumulateSrctoolReply | script/compare_pdbs_test.py:140-158 | the set only grows, gains every line but the last, and gains nothing else |
| ComparePdbs.WriteSetToFile | script/compare_pdbs_test.py:182-194 | an empty set writes nothing |
| ComparePdbs.WrittenLines | script/compare_pdbs_test.py:182-194 | the file's lines are exactly the set's non-empty elements not starting with `*`, in sorted order |
| ComparePdbs.RootPaths | script/compare_pdbs_test.py:203-205 | the root paths are exactly the entries of all the VCS lists |
| ComparePdbs.RootPathsOfRepoRoots | script/compare_pdbs_test.py:203-205 | flattening what indexPDBs stores gives the svn roots followed by the git roots |
| ComparePdbs.MatchesAsWritten | script/compare_pdbs_test.py:215-221 | as written, the scan raises iff the root itself is an entry; otherwise it keeps, in order, the entries under the root |
| ComparePdbs.Block | script/compare_pdbs_test.py:213-224 | a root's block is its header, then its matches or `- OK -`, then a blank line |
| ComparePdbs.ListUnprocessedAsWritten | script/compare_pdbs_test.py:199-225 | as written, the listing raises iff some root is itself an entry |
| ComparePdbs.ListUnprocessed | script/compare_pdbs_test.py:199-225 | agrees with the code as written wherever that does not raise; is empty iff there are no roots |
| ComparePdbs.ListUnprocessedAppend | script/compare_pdbs_test.py:211-224 | the listing of two runs of roots is the listing of the first followed by that of the second |
| ComparePdbs.BlockAt | script/compare_pdbs_test.py:211-224 | the listing is the blocks of the roots before the `i`-th, its block, then the blocks after it |
| ComparePdbs.BlockListsFilesUnder | script/compare_pdbs_test.py:211-224 | the block of every root sits after the blocks of the roots before it and lists, sorted, exactly the entries that start with the root followed by `\` or `/` |
| ComparePdbs.RootEqualToFileRaises | script/compare_pdbs_test.py:216-217 | an entry equal to a root makes the listing raise as written |
| ComparePdbs.CompareSrcsrvContent | script/compare_pdbs_test.py:285-299 | the comparison is refused iff the pdb is not in both sets; otherwise it compares the two recorded paths |
| ComparePdbs.ExitCode | script/compare_pdbs_test.py:291-307 | 3 exactly when the pdb is not in both sets, 0 otherwise |
| ComparePdbs.PdbstrCommand | script/compare_pdbs_test.py:298-299 | the pdbstr command names the pdb in its `-p:` argument |

## Left out

- Process execution (`simur.run_process`, every svn, git, pdbstr, srctool, cvdump and BeyondCompare call): replies and exit codes are inputs, in `Records.Host`, `Mirror.Host`, `Vcget.Env` and the function parameters.
- `os.chdir` push and pop pairs, and their leak when an exception is raised: no working directory is modelled.
- `os.walk`, `list_all_files` and `get_the_git_dir`: the walk and the file lists are inputs, and the `.git` search is a host function.
- JSON persistence (`store_json_data`, `write_cache_file`, the `repo_roots.json` file), `os.utime`, backup copies and temp stream files: only the data written is modelled.
- Printing: the population and contents listings, the "funny indexing" notes of `accumulate_srctool_reply`, and the `compare_contents` output. Also left out are the progress and diagnostic prints of prepPDB and indexPDBs, none of which changes a result. Among them are `is_in_git`'s `Warning: {git_dir} has no remote` (prepPDB.py:391-392) and its ls-files failure lines (prepPDB.py:440-442), `filter_pdbs`' `Skipping {pdb_file}` (indexPDBs.py:95), the verbose `Take vcs exports from {cache_file}` (indexPDBs.py:128-129), and the other verbose traces. What `vcget` prints and the summary lines of `report_vcsdata` are modelled.
- Vcget.MainAsWritten: the printed text and the written bytes are kept apart, because `print` goes through the buffered text layer of `sys.stdout` while the reply goes straight to `sys.stdout.buffer`, so their order on the stream depends on flushing.
- Vcget.Fetch: the `get_repo_cache_dir(): got …` line that `get_repo_cache_dir` prints when the cache directory is not found is not part of the printed text, because it depends on `realpath` and existence answers that the mirror host does not model.
- `compare_contents`, `save_unprocessed`, `diff_on_saved_files`, `merge_vcs_data`, `prep_exe_pdb`, `prep_lib_pdb` and the `main` functions: these are orchestration of the modelled steps around process calls and files.
- The `list_unprocessed` message when `repo_roots.json` is missing: the code prints and continues with an empty dictionary, which is `Mirror.LoadJsonData` with no file.
- `is_in_svn_raw` and `is_in_git_raw`: the resolver never calls them.
- presoak.py, processPDBs.py, updateCache.py and `libSrcTool.main`: drivers that loop over or wrap the modelled functions.
- `make_time_string`, `make_log`, `getFileProperties`, `ccp`: floating-point time formatting, logging and Win32 code-page scraping.
- SHA-1, `abspath`, `relpath`, `os.path.isfile`, `os.path.exists` and `getmtime` are uninterpreted parameters. Modification times are integers rather than floats.
- The clock: the instant of `datetime.today().isoformat()` is a parameter.
- Regex `\d` is the ASCII digits and `\s` the characters of `str.isspace`: Unicode decimal digits outside ASCII are not modelled. Only the constructs the two patterns use are modelled: anchors, literals, and `*` and `+` over one character class; groups are read off the cut.
- GitListing.LsFilesLine: its own contract states only that the hash and path groups are non-empty and the hash is hexadecimal; which groups a well-formed line yields is stated by `GitListing.LsFilesLineOf`, and that the search returns the greatest cut, as Python's backtracking does, by `Regex.MatchGreatest`.
- Strs.Lower: lowers only the ASCII capitals. Python's `str.lower` also maps non-ASCII letters and can change the length (`'İ'.lower()` has two characters), so cache keys of non-ASCII paths under `lower_case_pdb` are not modelled.
- Paths.Dirname: UNC paths are not split into a share and a path, so `\\server\share\x` gives `\\server\share` where ntpath gives `\\server\share\`.
- LibSrcTool.Picked: the cleaning function is a parameter of the definitions; the methods fix it to `Strs.Strip`.
- Stream: the template lines are fixed constants, and the mapping of their `%var2%..%var6%` placeholders to fields is stated through `Stream.Fields` and `Vcget.DataLineRoutes`, not by expanding the templates.
- ComparePdbs.WriteSetToFile: its own contract only covers the empty set; the content of the file is stated by `ComparePdbs.WrittenLines`, which requires the elements to hold no line break.
- ComparePdbs.PopulationPartition: holds by set algebra alone and is kept as documentation of the partition.

## Findings

| source | as written | input that shows it | evidently intended | confidence | as-written member | corrected member |
|---|---|---|---|---|---|---|
| script/prepPDB.py:158-191 | `url` is bound only when the first block has a `URL: ` line, yet the commit check reads it | a listing whose first block has no URL line, followed by a second block | a listing without a URL commits nothing | not executed | SvnInfo.ParseAsWritten | SvnInfo.Parse |
| script/simur.py:196-198 | `if not presoak:` indexes `presoak[reporoot]` exactly when the registry is empty | an empty or missing registry file | an empty registry gets the reporoot added | not executed | Mirror.RegisterAsWritten | Mirror.Register |
| script/vcget.py:57-106 | the no-mirror diagnostic is a `str` written to `sys.stdout.buffer` | `vcget.py git <absent path> x <rev>` with a non-empty presoak registry and no mirror found | the diagnostic is written | not executed | Vcget.MainAsWritten | Vcget.Main |
| script/compare_pdbs_test.py:216-217 | `data[root_end]` is read for an entry that starts with the root | an entry equal to a root path | an entry equal to a root is not under it | not executed | ComparePdbs.ListUnprocessedAsWritten | ComparePdbs.ListUnprocessed |
| script/prepPDB.py:94 | `file[0]` on every srctool line | a reply with an empty line before the summary line | empty lines are skipped, as `write_set_to_file` does | not executed | PrepPdb.NonIndexedAsWritten | PrepPdb.NonIndexedFiles |
