/**
 * The library engine (`lib.rs`): per configured language, scan the tree
 * below a root for files with one of the language's extensions, skipping
 * ignored paths, hidden directories and operating-system directories, sum
 * their sizes, and report each language's share of all the sums.
 */
module Languatage {
  import opened Paths
  import opened FileTree
  import opened ConfigModel
  import opened Report

  /** Names that mark a directory as belonging to the operating system. */
  const SystemDirNames: seq<string> := ["$RECYCLE.BIN", "Recovery", "System Volume Information"]

  /** `is_system_dir`: one of the reserved names occurs anywhere in the path, as a plain substring. */
  predicate IsSystemDir(path: string) {
    exists k :: 0 <= k < |SystemDirNames| && Contains(path, SystemDirNames[k])
  }

  /** `is_dot_dir`: the last `/`-separated component starts with a dot, and the path is not exactly `.`. */
  predicate IsDotDir(path: string) {
    path != "." && StartsWith(LastComponent(path), ".")
  }

  /**
   * For a subdirectory reached from a non-empty parent path, the hidden test
   * looks at the subdirectory's own name only: it is hidden exactly when that
   * name starts with a dot.
   */
  lemma DotDirOfJoin(parent: string, name: string)
    requires parent != [] && Sep !in name
    ensures IsDotDir(Join(parent, name)) <==> StartsWith(name, ".")
  {
    LastComponentOfJoin(parent, name);
  }

  /** A directory that is not read at all. */
  predicate IsPruned(path: string) {
    IsSystemDir(path) || IsDotDir(path)
  }

  /**
   * `get_dir_entries`: the matching files below the directory `path`, whose
   * read yields `nodes`, in traversal order. A pruned directory yields nothing.
   */
  function GetDirEntries(path: string, nodes: seq<Node>, ignores: seq<string>, exts: seq<string>): (r: seq<Entry>)
    ensures IsPruned(path) ==> r == []
    ensures forall e :: e in r ==> !IsIgnored(e.path, ignores) && IsCorrectExt(e.path, exts)
    decreases ListWeight(nodes), 2
  {
    if IsSystemDir(path) || IsDotDir(path) then [] else ScanEntries(path, nodes, ignores, exts)
  }

  /** The `flat_map` of the entry closure over the entries of a directory that is read. */
  function ScanEntries(path: string, nodes: seq<Node>, ignores: seq<string>, exts: seq<string>): (r: seq<Entry>)
    ensures forall e :: e in r ==> !IsIgnored(e.path, ignores) && IsCorrectExt(e.path, exts)
    decreases ListWeight(nodes), 1
  {
    if nodes == [] then []
    else VisitEntry(path, nodes[0], ignores, exts) + ScanEntries(path, nodes[1..], ignores, exts)
  }

  /**
   * The closure applied to one entry of the directory `path`: skip it when its
   * full path is ignored, recurse into a directory, keep a file with a
   * matching extension. Only directory paths are tested for being hidden, so
   * a hidden file is kept like any other.
   */
  function VisitEntry(path: string, node: Node, ignores: seq<string>, exts: seq<string>): (r: seq<Entry>)
    ensures forall e :: e in r ==> !IsIgnored(e.path, ignores) && IsCorrectExt(e.path, exts)
    decreases Weight(node), 0
  {
    var p := Join(path, node.name);
    if IsIgnored(p, ignores) then []
    else match node
      case Dir(_, children) => GetDirEntries(p, children, ignores, exts)
      case File(_, size) => if IsCorrectExt(p, exts) then [Entry(p, size)] else []
  }

  /**
   * The filter this engine amounts to: a file is kept when its own path is not
   * ignored, has a wanted extension, and no directory read on its way is pruned.
   */
  predicate Keeps(rec: FileRecord, ignores: seq<string>, exts: seq<string>) {
    && !IsIgnored(rec.path, ignores)
    && IsCorrectExt(rec.path, exts)
    && forall d :: d in rec.dirs ==> !IsPruned(d)
  }

  /** The kept files of a listing, in order. */
  function Selected(records: seq<FileRecord>, ignores: seq<string>, exts: seq<string>): seq<Entry> {
    if records == [] then []
    else
      (if Keeps(records[0], ignores, exts) then [Entry(records[0].path, records[0].size)] else [])
      + Selected(records[1..], ignores, exts)
  }

  lemma {:induction false} SelectedAppend(a: seq<FileRecord>, b: seq<FileRecord>, ignores: seq<string>, exts: seq<string>)
    ensures Selected(a + b, ignores, exts) == Selected(a, ignores, exts) + Selected(b, ignores, exts)
  {
    if a == [] {
      assert a + b == b;
    } else {
      assert (a + b)[1..] == a[1..] + b;
      SelectedAppend(a[1..], b, ignores, exts);
    }
  }

  /** Files none of which is kept are all dropped. */
  lemma {:induction false} SelectedNone(records: seq<FileRecord>, ignores: seq<string>, exts: seq<string>)
    requires forall r :: r in records ==> !Keeps(r, ignores, exts)
    ensures Selected(records, ignores, exts) == []
  {
    if records != [] {
      assert records[0] in records;
      SelectedNone(records[1..], ignores, exts);
    }
  }

  /** Seen from a directory that is read, the kept files are the same. */
  lemma {:induction false} SelectedUnderDir(dir: string, records: seq<FileRecord>, ignores: seq<string>, exts: seq<string>)
    requires !IsPruned(dir)
    ensures Selected(UnderDir(dir, records), ignores, exts) == Selected(records, ignores, exts)
  {
    if records != [] {
      assert UnderDir(dir, records)[1..] == UnderDir(dir, records[1..]);
      SelectedUnderDir(dir, records[1..], ignores, exts);
    }
  }

  /** An entry is returned exactly when some listed file with that path and size is kept. */
  lemma {:induction false} SelectedMembers(records: seq<FileRecord>, ignores: seq<string>, exts: seq<string>, e: Entry)
    ensures e in Selected(records, ignores, exts) <==>
      exists r :: r in records && Keeps(r, ignores, exts) && e == Entry(r.path, r.size)
  {
    if records != [] {
      SelectedMembers(records[1..], ignores, exts, e);
      assert records == [records[0]] + records[1..];
    }
  }

  /**
   * The recursive scan returns exactly the files that a flat filter over the
   * whole tree keeps: a file survives when its own path is not ignored, it has
   * a wanted extension, and no directory read on its way (the root included)
   * is hidden or a system directory.
   */
  lemma {:induction false} EntriesAreSelectedListing(path: string, nodes: seq<Node>, ignores: seq<string>, exts: seq<string>)
    ensures GetDirEntries(path, nodes, ignores, exts) == Selected(Listing(path, nodes), ignores, exts)
    decreases ListWeight(nodes), 2
  {
    if IsPruned(path) {
      ListingUnder(path, nodes);
      forall r | r in Listing(path, nodes)
        ensures !Keeps(r, ignores, exts)
      {
        assert r.dirs[0] in r.dirs;
      }
      SelectedNone(Listing(path, nodes), ignores, exts);
    } else {
      ScanIsSelectedListing(path, nodes, ignores, exts);
    }
  }

  lemma {:induction false} ScanIsSelectedListing(path: string, nodes: seq<Node>, ignores: seq<string>, exts: seq<string>)
    requires !IsPruned(path)
    ensures ScanEntries(path, nodes, ignores, exts) == Selected(Listing(path, nodes), ignores, exts)
    decreases ListWeight(nodes), 1
  {
    if nodes != [] {
      VisitIsSelectedListing(path, nodes[0], ignores, exts);
      ScanIsSelectedListing(path, nodes[1..], ignores, exts);
      SelectedAppend(NodeListing(path, nodes[0]), Listing(path, nodes[1..]), ignores, exts);
    }
  }

  lemma {:induction false} VisitIsSelectedListing(path: string, node: Node, ignores: seq<string>, exts: seq<string>)
    requires !IsPruned(path)
    ensures VisitEntry(path, node, ignores, exts) == Selected(NodeListing(path, node), ignores, exts)
    decreases Weight(node), 0
  {
    var p := Join(path, node.name);
    if IsIgnored(p, ignores) {
      NodeListingUnder(path, node);
      forall r | r in NodeListing(path, node)
        ensures !Keeps(r, ignores, exts)
      {
        IgnoredExtends(p, r.path, ignores);
      }
      SelectedNone(NodeListing(path, node), ignores, exts);
    } else {
      match node
      case File(_, _) =>
      case Dir(_, children) =>
        EntriesAreSelectedListing(p, children, ignores, exts);
        SelectedUnderDir(path, Listing(p, children), ignores, exts);
    }
  }

  /**
   * Membership in the result: a file is returned exactly when it is in the
   * tree, its own full path contains no ignored segment, it ends with a
   * wanted extension, and none of the directories read on its way is pruned.
   */
  lemma EntryIff(path: string, nodes: seq<Node>, ignores: seq<string>, exts: seq<string>, e: Entry)
    ensures e in GetDirEntries(path, nodes, ignores, exts) <==>
      exists r :: r in Listing(path, nodes) && e == Entry(r.path, r.size) &&
        !IsIgnored(r.path, ignores) && IsCorrectExt(r.path, exts) &&
        forall d :: d in r.dirs ==> !IsPruned(d)
  {
    EntriesAreSelectedListing(path, nodes, ignores, exts);
    SelectedMembers(Listing(path, nodes), ignores, exts, e);
  }

  /** The bytes one rule accounts for: the sum of the sizes of the files returned for it. */
  function RuleTotal(root: string, nodes: seq<Node>, common: CommonConfig, item: LanguageConfigItem): nat {
    SumSizes(GetDirEntries(root, nodes, RuleIgnores(common, item), item.ext))
  }

  /** `get_size`: one `(lang, total)` pair per rule, in rule order. */
  function GetSize(root: string, nodes: seq<Node>, config: Config): (r: seq<(string, nat)>)
    requires root != []
    ensures |r| == |config.language|
    ensures forall i :: 0 <= i < |r| ==>
      r[i].0 == config.language[i].lang && r[i].1 == RuleTotal(root, nodes, config.common, config.language[i])
  {
    seq(|config.language|, i requires 0 <= i < |config.language| =>
      (config.language[i].lang, RuleTotal(root, nodes, config.common, config.language[i])))
  }

  /**
   * `get_stat_with_config`: one row per configured rule, in rule order (no
   * sorting, no dropping of empty rules), with the rule's total and its share
   * of the sum of all rule totals.
   */
  function GetStatWithConfig(root: string, nodes: seq<Node>, config: Config): (r: seq<LanguageStat>)
    requires root != []
    ensures |r| == |config.language|
    ensures forall i :: 0 <= i < |r| ==>
      r[i].lang == config.language[i].lang && r[i].size == RuleTotal(root, nodes, config.common, config.language[i])
    ensures forall i :: 0 <= i < |r| ==> r[i].percentage == Share(r[i].size, Total(GetSize(root, nodes, config)))
  {
    Rows(GetSize(root, nodes, config))
  }

  /**
   * `get_stat`: the rows of `get_stat_with_config` under the default
   * configuration, whose first row is the rust rule.
   */
  function GetStat(root: string, nodes: seq<Node>): (r: seq<LanguageStat>)
    requires root != []
    ensures |r| == |Default().language| && r[0].lang == "rust"
    ensures r[0].size == SumSizes(GetDirEntries(root, nodes, Default().common.ignore, ["rs"]))
    ensures forall i :: 0 <= i < |r| ==>
      r[i].lang == Default().language[i].lang && r[i].size == RuleTotal(root, nodes, Default().common, Default().language[i])
    ensures forall i :: 0 <= i < |r| ==> r[i].percentage == Share(r[i].size, Total(GetSize(root, nodes, Default())))
  {
    assert RuleIgnores(Default().common, Default().language[0]) == Default().common.ignore + [];
    assert Default().common.ignore + [] == Default().common.ignore;
    GetStatWithConfig(root, nodes, Default())
  }
}
