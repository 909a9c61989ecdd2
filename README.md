# languatage: the scan-and-aggregate engine in Dafny

languatage reports how many bytes of a directory tree belong to each
configured language. For every language rule it walks the tree below a root,
decides for each entry whether to skip it, recurse into it or keep it as a
matching file, sums the sizes of the kept files, and reports one row per rule
with that total and its percentage of the sum of all rule totals.

This project models that engine as pure functions over a value tree:

- `Paths` (paths.dfy): path strings with `/` as the separator, and the string
  tests the engines apply: `Contains`, `EndsWith`, `Join` (as Rust's
  `PathBuf::push` joins a bare name), `LastComponent` (the last piece of
  `split('/')`), `IsIgnored` (the full path contains `/pattern/`) and
  `IsCorrectExt` (the full path ends with `.ext`, case-sensitively).
- `FileTree` (filetree.dfy): `Node = File(name, size) | Dir(name, children)`.
  A directory read is a path together with the nodes `read_dir` yields for it,
  in that order. `Listing` is a reference view of the tree. It lists every
  file with its full path, its size and the directories read on the way to it.
- `ConfigModel` (config.dfy): `Config`, `LanguageConfigItem`, `CommonConfig`,
  `Config::new`, a stand-in for `Config::default`, and the effective ignore
  list of a rule.
- `Report` (report.dfy): `LanguageStat` and the step that turns the
  per-rule totals into rows with percentages. Both engine copies share this
  step.
- `Languatage` (lib.dfy): the library engine, with the hidden-directory and
  system-directory pruning.
- `Stat` (stat.dfy): the older copy of the engine in `src/stat.rs`, without
  that pruning. `src/lib.rs` declares only `pub mod config`, so this copy is not
  compiled into the crate. It is modelled as a second variant.
- `Variants` (variants.dfy): how the two copies relate. The library returns a
  sub-list of what the older copy returns.
- `Scenarios` (scenarios.dfy): small concrete trees that pin down the edge
  cases.

The central results are `Languatage.EntriesAreSelectedListing` and
`Stat.EntriesAreSelectedListing`. Each engine's recursive scan returns exactly
the files that a flat filter over `Listing` keeps. For `stat.rs`, a file is
kept when its own full path has no ignored segment and ends with a wanted
extension. Pruning an ignored directory never loses a file that this filter
keeps, because every path below it has the same ignored segment. The library
adds one more condition: no directory read on the way to the file, the root
included, is hidden or a system directory.

The model follows the code: the
result is not sorted. Rules with a zero total are not dropped. A zero grand
total is not guarded: every percentage is then NaN (`0.0 / 0.0`) instead of the
result being empty. An entry that cannot be read makes the program panic
instead of being skipped. The system-directory test is a plain substring
test, so a directory named `MyRecoveryTools` is pruned too.

The library's own test expects the first row of the default configuration to
be named `Rust`, while the configuration's test expects `rust`. The model
follows `src/config.rs`.

## Model

| member | source | states |
|---|---|---|
| Paths.Join | src/lib.rs:116-117 | the entry path starts with the directory path and ends with the entry name; a `/` sits between them exactly when the directory path is non-empty and does not already end with one |
| Paths.LastComponent | src/lib.rs:96-104 | the result is a suffix of the path with no `/` in it, and it is either the whole path or preceded by a `/` (the last piece of `split('/')`) |
| Paths.Segment | src/lib.rs:120 | an ignore pattern is searched for as `/` + pattern + `/` |
| Paths.IsIgnored | src/lib.rs:119-121 | the full entry path contains `/pattern/` for some ignore pattern; characterised by `IgnoredExtends` (an ignored path stays ignored below) and `IgnoredByDirectoryPartOnly` (only the directory part decides) |
| Paths.IsCorrectExt | src/lib.rs:128-130 | the full entry path ends with `.` + some extension, case-sensitively; pinned down by `Scenarios.ExtensionIsExactSuffix` |
| Paths.ContainsIff | src/lib.rs:119-121 | the recursive `Contains` holds exactly when the pattern occurs at some index of the path |
| Paths.ContainsExtends | src/lib.rs:119-126 | any text that a path contains is still contained after the path is extended |
| Paths.IgnoredExtends | src/lib.rs:119-126 | a path with an ignored segment stays ignored when extended, so every entry below a skipped directory is ignored too |
| Paths.OwnNameNeverMatches | src/lib.rs:119-121 | a pattern ending in `/` occurs in `dir + name` (name without `/`) exactly when it occurs in `dir` |
| Paths.IgnoredByDirectoryPartOnly | src/lib.rs:116-124 | whether an entry is ignored depends only on the directory part of its path, so an entry named exactly like a pattern is not ignored for its own name |
| Paths.LastComponentOfName | src/lib.rs:96-104 | a path without `/` is its own last component |
| Paths.LastComponentOfJoin | src/lib.rs:96-104 | the last component of a joined entry path is the entry's name |
| ConfigModel.New | src/config.rs:12-14 | `Config::new` stores the rule list, in order, and the common part unchanged |
| ConfigModel.Default | src/config.rs:38-47 | the default configuration's first rule is `rust`, with extension `rs` and no own ignores |
| ConfigModel.RuleIgnores | src/lib.rs:68-71 | a rule's ignore list is the common ignores followed by the rule's own, duplicates kept |
| ConfigModel.RuleIgnoresMatch | src/lib.rs:68-71 | a path is ignored under a rule exactly when the common list or the rule's own list ignores it |
| ConfigModel.NewOfParts | src/config.rs:5-14 | rebuilding a configuration from its own parts gives an equal configuration |
| ConfigModel.ConfigEquality | src/config.rs:5-9 | two configurations are equal exactly when their rule lists and common parts are |
| ConfigModel.ItemEquality | src/config.rs:21-26 | two rules are equal exactly when name, extensions and ignores are |
| FileTree.SumSizesAppend | src/lib.rs:75 | the total size of two lists of files is the sum of their totals |
| FileTree.SumSizesBound | src/lib.rs:75 | each returned file's size is at most the rule's total |
| FileTree.ListingUnder | src/lib.rs:110-126 | every file below a directory has a path that extends the directory path, and that directory is the first one read on its way |
| FileTree.NodeListingUnder | src/lib.rs:113-126 | every file at or below an entry has a path that extends the entry's own path |
| Report.Total | src/lib.rs:48 | the grand total is the sum of all rule totals; characterised by `TotalBound` and `RowSizesAreTotal` |
| Report.Share | src/lib.rs:55 | a percentage is NaN exactly when the grand total is 0; otherwise it lies in 0..100, is 100 exactly when the rule has all counted bytes, and is 0 exactly when the rule has none |
| Report.Rows | src/lib.rs:50-57 | one row per `(lang, size)` pair, in the same order, with the name and size copied and the share of the grand total |
| Report.TotalBound | src/lib.rs:48 | each rule's total is at most the grand total |
| Report.RowSizesAreTotal | src/lib.rs:48 | the sizes of the rows add up to the grand total |
| Report.SharesAdd | src/lib.rs:55 | shares of one total add up as the sizes they are shares of |
| Report.PercentagesSumTo100 | src/lib.rs:48-57 | whenever the grand total is positive, the percentages of all rows add up to exactly 100 |
| Report.PercentagesInRange | src/lib.rs:55 | every row's percentage is NaN exactly when the grand total is 0, and otherwise lies between 0 and 100 |
| Languatage.IsSystemDir | src/lib.rs:93-95 | one of `$RECYCLE.BIN`, `Recovery`, `System Volume Information` occurs anywhere in the path as a plain substring; pinned down by `Scenarios.SystemNamesMatchAsSubstrings` and `Scenarios.DotRootIsRead` |
| Languatage.IsDotDir | src/lib.rs:96-104 | the path is not exactly `.` and its last `/`-separated piece starts with a dot; characterised by `DotDirOfJoin` |
| Languatage.DotDirOfJoin | src/lib.rs:96-104 | a subdirectory reached from a non-empty parent is hidden exactly when its own name starts with a dot |
| Languatage.RuleTotal | src/lib.rs:73-75 | a rule's total is the sum of the sizes of the files the scan returns under the rule's chained ignore list and its extensions |
| Languatage.GetDirEntries | src/lib.rs:83-139 | a system or dot directory yields nothing; every returned file's path has no ignored segment and ends with a wanted extension |
| Languatage.ScanEntries | src/lib.rs:110-138 | every file returned from a directory that is read has no ignored segment and a wanted extension |
| Languatage.VisitEntry | src/lib.rs:113-137 | every file returned for one entry has no ignored segment and a wanted extension |
| Languatage.EntriesAreSelectedListing | src/lib.rs:83-139 | the recursive scan returns, in traversal order, exactly the files of the tree whose path is not ignored, that have a wanted extension, and that have no hidden or system directory on their way (the root included) |
| Languatage.ScanIsSelectedListing | src/lib.rs:110-138 | scanning a directory that is read returns exactly the selected files of its listing |
| Languatage.VisitIsSelectedListing | src/lib.rs:113-137 | visiting one entry returns exactly the selected files at or below it |
| Languatage.SelectedMembers | src/lib.rs:113-137 | a file is among the selected ones exactly when some listed file with that path and size passes the library's filter |
| Languatage.EntryIff | src/lib.rs:93-136 | a file is returned exactly when it is in the tree, its path is not ignored, it has a wanted extension and no directory on its way is pruned |
| Languatage.GetSize | src/lib.rs:60-80 | one pair per rule, in rule order, holding the rule's name and the total size of the files returned for it |
| Languatage.GetStatWithConfig | src/lib.rs:46-58 | exactly one row per configured rule, in config order, with `lang` copied, the rule's total as size, and its share of the sum of all rule totals as percentage |
| Languatage.GetStat | src/lib.rs:34-37 | the rows of `get_stat_with_config` under the default configuration: one row per default rule, in order, with its name, its total and its share of the sum of all totals; the first row is `rust`, totalled over the `.rs` files |
| Stat.GetDirEntries | src/stat.rs:52-91 | every returned file's path has no ignored segment and ends with a wanted extension |
| Stat.VisitEntry | src/stat.rs:65-89 | every file returned for one entry has no ignored segment and a wanted extension |
| Stat.EntriesAreSelectedListing | src/stat.rs:52-91 | the recursive scan returns, in traversal order, exactly the files of the tree whose own path is not ignored and ends with a wanted extension; dot-directories are walked |
| Stat.VisitIsSelectedListing | src/stat.rs:65-89 | visiting one entry returns exactly the selected files at or below it |
| Stat.SelectedMembers | src/stat.rs:65-89 | a file is among the selected ones exactly when some listed file with that path and size passes the filter |
| Stat.EntryIff | src/stat.rs:62-88 | a file is returned exactly when it is in the tree, its own path is not ignored and it has a wanted extension |
| Stat.RuleTotal | src/stat.rs:42-46 | a rule's total is the sum of the sizes of the files the unpruned scan returns under the rule's chained ignore list and its extensions |
| Stat.GetSize | src/stat.rs:29-49 | one pair per rule, in rule order, holding the rule's name and the total size of the files returned for it |
| Stat.GetStat | src/stat.rs:15-27 | exactly one row per configured rule, in config order, with `lang` copied, the rule's total as size, and its share of the sum of all rule totals |
| Variants.KeepsStronger | src/lib.rs:106-108 | a file the library keeps is kept by the older copy too |
| Variants.SelectedSubMultiset | src/lib.rs:106-108 | from the same listing, the library keeps a sub-multiset of what the older copy keeps |
| Variants.SelectedSumBound | src/lib.rs:106-108 | from the same listing, the library's kept sizes never add up to more than the older copy's |
| Variants.LibEntriesInStat | src/lib.rs:83-139 | every file the library returns is also returned by `stat.rs`'s scan, and the library's total is never larger |
| Variants.SelectedSameWhenNothingPruned | src/lib.rs:106-108 | when no directory on the way to any file is pruned, both filters keep the same files |
| Variants.SameWhenNothingPruned | src/lib.rs:106-108 | when no directory on the way to any file is pruned, both scans return the same files |
| Variants.StatRowsCompare | src/lib.rs:46-58 | row by row, both copies report the same languages in the same order, and the library's totals are never larger |
| Scenarios.IgnoreMatchesSegment | src/lib.rs:119-121 | `./target/a.rs` is ignored under the pattern `target` |
| Scenarios.ExtensionIsExactSuffix | src/lib.rs:128-130 | `main.rs` matches extension `rs`; `main.RS` and a file named `rs` do not |
| Scenarios.DotRootIsRead | src/lib.rs:96 | the root `.` is neither hidden nor a system directory |
| Scenarios.ParentRootYieldsNothing | src/lib.rs:96-108 | a root given as `..` counts as hidden and yields no files |
| Scenarios.SystemNamesMatchAsSubstrings | src/lib.rs:93-95 | a directory `./MyRecoveryTools` is pruned, because `Recovery` occurs in it as a substring |
| Scenarios.HiddenFileKept | src/lib.rs:125-136 | a file named `.env.rs` is kept by both copies |
| Scenarios.HiddenDirPrunedByLibraryOnly | src/lib.rs:96-108 | a `.git` directory is pruned by the library and walked by the older copy |
| Scenarios.HiddenDirectoryOnlyPrunedByLibrary | src/lib.rs:83-139 | on the tree `.env.rs`, `.git/x.rs`, the library returns only `./.env.rs` and the older copy returns both files |
| Scenarios.IgnoredDirSkipped | src/lib.rs:119-126 | the directory `ignored` under the pattern `ignored` contributes nothing, because every path below it is ignored |
| Scenarios.IgnoredDirTreeEntries | src/lib.rs:83-139 | with `a.rs`, `b.rs` and `ignored/c.rs`, only the two top-level files are returned |
| Scenarios.IgnoredDirectoryIsSkipped | src/lib.rs:46-79 | that tree with the one rule `rust` gives the single row (rust, 40, 100%) |
| Scenarios.EmptyRootGivesNaN | src/lib.rs:48-55 | a root directory with no entries gives one row per rule, each with size 0 and a NaN percentage |

## Left out

- Filesystem I/O (`fs::read_dir`, `DirEntry`, `metadata().len()`, `is_dir`) is replaced by the `Node` tree, with file lengths as its sizes.
- Symbolic links are not modelled. `DirEntry::metadata` does not follow a link, so the program never descends into a link to a directory. It treats every link as a non-directory entry: the link is kept when its path ends with `.ext`, and it is counted at the link's own length. The `Node` tree has no link kind.
- `MAIN_SEPARATOR` is fixed to `/`. Windows separators and `Path` normalisation beyond `PathBuf::push` of a bare name are not modelled.
- The panics of `unwrap` and `expect` on an unreadable root or entry are excluded by construction: every node of the tree can be read. The one unreadable root the model can express, the empty path, is excluded by the `root != []` precondition of `GetSize`, `GetStatWithConfig` and `GetStat`. `to_str().unwrap()` on a non-UTF-8 path and the lossy conversion `to_string_lossy` are not modelled, because paths are Dafny strings.
- The `u64` sums are unbounded naturals. The overflow of `sum` is not modelled.
- Report.Share: the `f64` arithmetic is exact real arithmetic. Rounding is not modelled, so "sums to 100" holds exactly here and only approximately in the program.
- ConfigModel.Default: the YAML parse of the bundled default configuration is not modelled, because that file is not part of this model. Only the first rule, which the configuration's test fixes, is stated; the remaining contents (one rule and the common ignore `.git`) are a stand-in.
- `src/main.rs`: argument parsing, table rendering, number formatting, percentage rounding and its filter of zero-size rows are presentation and are not modelled.

