/**
 * The older copy of the engine in `stat.rs`: the same traversal as the
 * library's, but with no hidden-directory or system-directory pruning, so
 * dot-directories are walked unless an ignore pattern names them.
 */
module Stat {
  import opened Paths
  import opened FileTree
  import opened ConfigModel
  import opened Report

  /**
   * `get_dir_entries`: the matching files below the directory `path`, whose
   * read yields `nodes`, in traversal order (the `flat_map` over its entries).
   */
  function GetDirEntries(path: string, nodes: seq<Node>, ignores: seq<string>, exts: seq<string>): (r: seq<Entry>)
    ensures forall e :: e in r ==> !IsIgnored(e.path, ignores) && IsCorrectExt(e.path, exts)
    decreases ListWeight(nodes), 1
  {
    if nodes == [] then []
    else VisitEntry(path, nodes[0], ignores, exts) + GetDirEntries(path, nodes[1..], ignores, exts)
  }

  /**
   * The closure applied to one entry of the directory `path`: skip it when its
   * full path is ignored, recurse into a directory, keep a file with a
   * matching extension.
   */
  function VisitEntry(path: string, node: Node, ignores: seq<string>, exts: seq<string>): (r: seq<Entry>)
    ensures forall e :: e in r ==> !IsIgnored(e.path, ignores) && IsCorrectExt(e.path, exts)
    decreases Weight(node), 0
  {
    var p := Join(path, node.name);
    if IsIgnored(p, ignores) then []
    else match node
      case Dir(_, children) => GetDirEntries(p, children, ignores, exts)
      case File(_, size) => if IsCorrectExt(p, exts) then [Entry(p, size)] else []
  }

  /** The filter this engine amounts to: a file is kept when its own path is not ignored and has a wanted extension. */
  predicate Keeps(rec: FileRecord, ignores: seq<string>, exts: seq<string>) {
    !IsIgnored(rec.path, ignores) && IsCorrectExt(rec.path, exts)
  }

  /** The kept files of a listing, in order. */
  function Selected(records: seq<FileRecord>, ignores: seq<string>, exts: seq<string>): seq<Entry> {
    if records == [] then []
    else
      (if Keeps(records[0], ignores, exts) then [Entry(records[0].path, records[0].size)] else [])
      + Selected(records[1..], ignores, exts)
  }

  lemma {:induction false} SelectedAppend(a: seq<FileRecord>, b: seq<FileRecord>, ignores: seq<string>, exts: seq<string>)
    ensures Selected(a + b, ignores, exts) == Selected(a, ignores, exts) + Selected(b, ignores, exts)
  {
    if a == [] {
      assert a + b == b;
    } else {
      assert (a + b)[1..] == a[1..] + b;
      SelectedAppend(a[1..], b, ignores, exts);
    }
  }

  /** Files whose paths are all ignored are all dropped. */
  lemma {:induction false} SelectedNone(records: seq<FileRecord>, ignores: seq<string>, exts: seq<string>)
    requires forall r :: r in records ==> IsIgnored(r.path, ignores)
    ensures Selected(records, ignores, exts) == []
  {
    if records != [] {
      assert records[0] in records;
      SelectedNone(records[1..], ignores, exts);
    }
  }

  /** This filter looks only at paths, not at the directories on the way. */
  lemma {:induction false} SelectedUnderDir(dir: string, records: seq<FileRecord>, ignores: seq<string>, exts: seq<string>)
    ensures Selected(UnderDir(dir, records), ignores, exts) == Selected(records, ignores, exts)
  {
    if records != [] {
      assert UnderDir(dir, records)[1..] == UnderDir(dir, records[1..]);
      SelectedUnderDir(dir, records[1..], ignores, exts);
    }
  }

  /** An entry is returned exactly when some listed file with that path and size is kept. */
  lemma {:induction false} SelectedMembers(records: seq<FileRecord>, ignores: seq<string>, exts: seq<string>, e: Entry)
    ensures e in Selected(records, ignores, exts) <==>
      exists r :: r in records && Keeps(r, ignores, exts) && e == Entry(r.path, r.size)
  {
    if records != [] {
      SelectedMembers(records[1..], ignores, exts, e);
      assert records == [records[0]] + records[1..];
    }
  }

  /**
   * The recursive scan with its pruning of ignored directories returns exactly
   * the files a flat filter over the whole tree keeps: pruning a directory
   * never drops a file that the filter would keep, because every path below
   * an ignored directory is itself ignored.
   */
  lemma {:induction false} EntriesAreSelectedListing(path: string, nodes: seq<Node>, ignores: seq<string>, exts: seq<string>)
    ensures GetDirEntries(path, nodes, ignores, exts) == Selected(Listing(path, nodes), ignores, exts)
    decreases ListWeight(nodes), 1
  {
    if nodes != [] {
      VisitIsSelectedListing(path, nodes[0], ignores, exts);
      EntriesAreSelectedListing(path, nodes[1..], ignores, exts);
      SelectedAppend(NodeListing(path, nodes[0]), Listing(path, nodes[1..]), ignores, exts);
    }
  }

  lemma {:induction false} VisitIsSelectedListing(path: string, node: Node, ignores: seq<string>, exts: seq<string>)
    ensures VisitEntry(path, node, ignores, exts) == Selected(NodeListing(path, node), ignores, exts)
    decreases Weight(node), 0
  {
    var p := Join(path, node.name);
    if IsIgnored(p, ignores) {
      NodeListingUnder(path, node);
      forall r | r in NodeListing(path, node)
        ensures IsIgnored(r.path, ignores)
      {
        IgnoredExtends(p, r.path, ignores);
      }
      SelectedNone(NodeListing(path, node), ignores, exts);
    } else {
      match node
      case File(_, _) =>
      case Dir(_, children) =>
        EntriesAreSelectedListing(p, children, ignores, exts);
        SelectedUnderDir(path, Listing(p, children), ignores, exts);
    }
  }

  /**
   * Membership in the result: a file is returned exactly when it is in the
   * tree, its own full path contains no ignored segment and it ends with a
   * wanted extension. Nothing else (in particular no dot-directory) is pruned.
   */
  lemma EntryIff(path: string, nodes: seq<Node>, ignores: seq<string>, exts: seq<string>, e: Entry)
    ensures e in GetDirEntries(path, nodes, ignores, exts) <==>
      exists r :: r in Listing(path, nodes) && e == Entry(r.path, r.size) &&
        !IsIgnored(r.path, ignores) && IsCorrectExt(r.path, exts)
  {
    EntriesAreSelectedListing(path, nodes, ignores, exts);
    SelectedMembers(Listing(path, nodes), ignores, exts, e);
  }

  /** The bytes one rule accounts for: the sum of the sizes of the files returned for it. */
  function RuleTotal(root: string, nodes: seq<Node>, common: CommonConfig, item: LanguageConfigItem): nat {
    SumSizes(GetDirEntries(root, nodes, RuleIgnores(common, item), item.ext))
  }

  /** `get_size`: one `(lang, total)` pair per rule, in rule order. */
  function GetSize(root: string, nodes: seq<Node>, config: Config): (r: seq<(string, nat)>)
    requires root != []
    ensures |r| == |config.language|
    ensures forall i :: 0 <= i < |r| ==>
      r[i].0 == config.language[i].lang && r[i].1 == RuleTotal(root, nodes, config.common, config.language[i])
  {
    seq(|config.language|, i requires 0 <= i < |config.language| =>
      (config.language[i].lang, RuleTotal(root, nodes, config.common, config.language[i])))
  }

  /**
   * `get_stat`: one row per configured rule, in rule order, with its total
   * and its share of the sum of all rule totals.
   */
  function GetStat(root: string, nodes: seq<Node>, config: Config): (r: seq<LanguageStat>)
    requires root != []
    ensures |r| == |config.language|
    ensures forall i :: 0 <= i < |r| ==>
      r[i].lang == config.language[i].lang && r[i].size == RuleTotal(root, nodes, config.common, config.language[i])
    ensures forall i :: 0 <= i < |r| ==> r[i].percentage == Share(r[i].size, Total(GetSize(root, nodes, config)))
  {
    Rows(GetSize(root, nodes, config))
  }
}
