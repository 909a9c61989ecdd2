/**
 * The directory tree the engines read, as a value. A directory read is a path
 * together with the nodes `read_dir` yields for it, in the order it yields
 * them; every node can be read, so the panics the engines raise on an
 * unreadable entry cannot occur here.
 */
module FileTree {
  import opened Paths

  /** A directory entry: a file with its length in bytes, or a directory with its own entries. */
  datatype Node = File(name: string, size: nat) | Dir(name: string, children: seq<Node>)

  /** A file the engine returns: its full path and its length in bytes. */
  datatype Entry = Entry(path: string, size: nat)

  /**
   * A file of the tree, independently of any filter: its full path, its size
   * and the paths of the directories read on the way to it, outermost first
   * (the root path, then each directory below it down to the file's parent).
   */
  datatype FileRecord = FileRecord(path: string, size: nat, dirs: seq<string>)

  /** Number of nodes in a subtree; the termination measure of every traversal. */
  function Weight(n: Node): (w: nat)
    ensures w >= 1
  {
    match n
    case File(_, _) => 1
    case Dir(_, children) => 1 + ListWeight(children)
  }

  function ListWeight(nodes: seq<Node>): nat {
    if nodes == [] then 0 else Weight(nodes[0]) + ListWeight(nodes[1..])
  }

  /** Every file below the directory `path`, in traversal order, with the directories on its way. */
  function Listing(path: string, nodes: seq<Node>): seq<FileRecord>
    decreases ListWeight(nodes), 1
  {
    if nodes == [] then [] else NodeListing(path, nodes[0]) + Listing(path, nodes[1..])
  }

  /** Every file at or below one entry `node` of the directory `path`. */
  function NodeListing(path: string, node: Node): seq<FileRecord>
    decreases Weight(node), 0
  {
    var p := Join(path, node.name);
    match node
    case File(_, size) => [FileRecord(p, size, [path])]
    case Dir(_, children) => UnderDir(path, Listing(p, children))
  }

  /** The same records, seen from one directory further up. */
  function UnderDir(dir: string, records: seq<FileRecord>): (r: seq<FileRecord>)
    ensures |r| == |records|
    ensures forall i :: 0 <= i < |r| ==>
      r[i].path == records[i].path && r[i].size == records[i].size && r[i].dirs == [dir] + records[i].dirs
  {
    if records == [] then []
    else [records[0].(dirs := [dir] + records[0].dirs)] + UnderDir(dir, records[1..])
  }

  /** Total size of the returned files (`entries.iter().map(len).sum()`). */
  function SumSizes(entries: seq<Entry>): nat {
    if entries == [] then 0 else entries[0].size + SumSizes(entries[1..])
  }

  lemma {:induction false} SumSizesAppend(a: seq<Entry>, b: seq<Entry>)
    ensures SumSizes(a + b) == SumSizes(a) + SumSizes(b)
  {
    if a != [] {
      assert (a + b)[1..] == a[1..] + b;
      SumSizesAppend(a[1..], b);
    } else {
      assert a + b == b;
    }
  }

  /** A file's size never exceeds the total of the list it appears in. */
  lemma {:induction false} SumSizesBound(entries: seq<Entry>, i: int)
    requires 0 <= i < |entries|
    ensures entries[i].size <= SumSizes(entries)
  {
    if i > 0 {
      SumSizesBound(entries[1..], i - 1);
    }
  }

  /**
   * Every file listed below `path` lies under it: its path extends `path`,
   * and the first directory read on its way is `path` itself.
   */
  lemma {:induction false} ListingUnder(path: string, nodes: seq<Node>)
    ensures forall r :: r in Listing(path, nodes) ==>
      StartsWith(r.path, path) && |r.dirs| >= 1 && r.dirs[0] == path
    decreases ListWeight(nodes), 1
  {
    if nodes != [] {
      NodeListingUnder(path, nodes[0]);
      ListingUnder(path, nodes[1..]);
    }
  }

  /** Every file listed at or below `node` has a path extending the node's own path. */
  lemma {:induction false} NodeListingUnder(path: string, node: Node)
    ensures forall r :: r in NodeListing(path, node) ==>
      StartsWith(r.path, Join(path, node.name)) && |r.dirs| >= 1 && r.dirs[0] == path
    decreases Weight(node), 0
  {
    var p := Join(path, node.name);
    match node
    case File(_, _) =>
    case Dir(_, children) =>
      ListingUnder(p, children);
      var recs := Listing(p, children);
      forall r | r in UnderDir(path, recs)
        ensures StartsWith(r.path, p) && |r.dirs| >= 1 && r.dirs[0] == path
      {
        var i :| 0 <= i < |UnderDir(path, recs)| && UnderDir(path, recs)[i] == r;
        assert recs[i] in recs;
      }
  }
}
