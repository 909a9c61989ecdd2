/**
 * How the two copies of the engine relate. The library's scan prunes hidden
 * and system directories and is otherwise the same as the older `stat.rs`
 * scan, so it returns a sub-list of what the older one returns.
 */
module Variants {
  import opened Paths
  import opened FileTree
  import opened ConfigModel
  import opened Report
  import Languatage
  import Stat

  /** A file the library keeps, the older copy keeps too. */
  lemma KeepsStronger(r: FileRecord, ignores: seq<string>, exts: seq<string>)
    requires Languatage.Keeps(r, ignores, exts)
    ensures Stat.Keeps(r, ignores, exts)
  {
  }

  /** Of the same listing, the library keeps a sub-multiset of what the older copy keeps. */
  lemma {:induction false} SelectedSubMultiset(records: seq<FileRecord>, ignores: seq<string>, exts: seq<string>)
    ensures multiset(Languatage.Selected(records, ignores, exts)) <= multiset(Stat.Selected(records, ignores, exts))
  {
    if records != [] {
      SelectedSubMultiset(records[1..], ignores, exts);
      var r := records[0];
      if Languatage.Keeps(r, ignores, exts) {
        KeepsStronger(r, ignores, exts);
      }
    }
  }

  /** Of the same listing, the library's kept files never add up to more than the older copy's. */
  lemma {:induction false} SelectedSumBound(records: seq<FileRecord>, ignores: seq<string>, exts: seq<string>)
    ensures SumSizes(Languatage.Selected(records, ignores, exts)) <= SumSizes(Stat.Selected(records, ignores, exts))
  {
    if records != [] {
      SelectedSumBound(records[1..], ignores, exts);
      var r := records[0];
      var lib, stat := Languatage.Selected(records[1..], ignores, exts), Stat.Selected(records[1..], ignores, exts);
      var head := [Entry(r.path, r.size)];
      if Languatage.Keeps(r, ignores, exts) {
        KeepsStronger(r, ignores, exts);
        SumSizesAppend(head, lib);
        SumSizesAppend(head, stat);
      } else if Stat.Keeps(r, ignores, exts) {
        assert Languatage.Selected(records, ignores, exts) == lib;
        SumSizesAppend(head, stat);
      } else {
        assert Languatage.Selected(records, ignores, exts) == lib;
        assert Stat.Selected(records, ignores, exts) == stat;
      }
    }
  }

  /** Every file the library returns is also returned by the older copy, and its total is never larger. */
  lemma LibEntriesInStat(path: string, nodes: seq<Node>, ignores: seq<string>, exts: seq<string>)
    ensures forall e :: e in Languatage.GetDirEntries(path, nodes, ignores, exts) ==>
      e in Stat.GetDirEntries(path, nodes, ignores, exts)
    ensures SumSizes(Languatage.GetDirEntries(path, nodes, ignores, exts)) <=
      SumSizes(Stat.GetDirEntries(path, nodes, ignores, exts))
  {
    Languatage.EntriesAreSelectedListing(path, nodes, ignores, exts);
    Stat.EntriesAreSelectedListing(path, nodes, ignores, exts);
    var lib := Languatage.GetDirEntries(path, nodes, ignores, exts);
    var stat := Stat.GetDirEntries(path, nodes, ignores, exts);
    SelectedSubMultiset(Listing(path, nodes), ignores, exts);
    SelectedSumBound(Listing(path, nodes), ignores, exts);
    forall e | e in lib
      ensures e in stat
    {
      assert e in multiset(lib);
    }
  }

  /** When no directory on the way to any file is pruned, the two copies return the same files. */
  lemma {:induction false} SelectedSameWhenNothingPruned(records: seq<FileRecord>, ignores: seq<string>, exts: seq<string>)
    requires forall r, d :: r in records && d in r.dirs ==> !Languatage.IsPruned(d)
    ensures Languatage.Selected(records, ignores, exts) == Stat.Selected(records, ignores, exts)
  {
    if records != [] {
      assert records[0] in records;
      SelectedSameWhenNothingPruned(records[1..], ignores, exts);
    }
  }

  lemma SameWhenNothingPruned(path: string, nodes: seq<Node>, ignores: seq<string>, exts: seq<string>)
    requires forall r, d :: r in Listing(path, nodes) && d in r.dirs ==> !Languatage.IsPruned(d)
    ensures Languatage.GetDirEntries(path, nodes, ignores, exts) == Stat.GetDirEntries(path, nodes, ignores, exts)
  {
    Languatage.EntriesAreSelectedListing(path, nodes, ignores, exts);
    Stat.EntriesAreSelectedListing(path, nodes, ignores, exts);
    SelectedSameWhenNothingPruned(Listing(path, nodes), ignores, exts);
  }

  /** Row by row, the library reports the same languages as the older copy, in the same order, with no larger totals. */
  lemma StatRowsCompare(root: string, nodes: seq<Node>, config: Config)
    requires root != []
    ensures |Languatage.GetStatWithConfig(root, nodes, config)| == |Stat.GetStat(root, nodes, config)|
    ensures forall i :: 0 <= i < |config.language| ==>
      Languatage.GetStatWithConfig(root, nodes, config)[i].lang == Stat.GetStat(root, nodes, config)[i].lang &&
      Languatage.GetStatWithConfig(root, nodes, config)[i].size <= Stat.GetStat(root, nodes, config)[i].size
  {
    forall i | 0 <= i < |config.language|
      ensures Languatage.RuleTotal(root, nodes, config.common, config.language[i]) <=
        Stat.RuleTotal(root, nodes, config.common, config.language[i])
    {
      var item := config.language[i];
      LibEntriesInStat(root, nodes, RuleIgnores(config.common, item), item.ext);
    }
  }
}
