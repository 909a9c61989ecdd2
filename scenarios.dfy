/**
 * Concrete trees and configurations that pin down the edge cases of the two
 * engines: ignore patterns match whole segments only, hidden directories are
 * pruned but hidden files are not, the root `.` is exempt while `..` is not,
 * system names match as substrings, and nothing guards a zero grand total.
 */
module Scenarios {
  import opened Paths
  import opened FileTree
  import opened ConfigModel
  import opened Report
  import Languatage
  import Stat

  /** An ignore pattern matches a path segment of the full path. */
  lemma IgnoreMatchesSegment()
    ensures IsIgnored("./target/a.rs", ["target"])
  {
    assert OccursAt("./target/a.rs", Segment("target"), 1);
    ContainsIff("./target/a.rs", Segment("target"));
    assert Contains("./target/a.rs", Segment(["target"][0]));
  }

  /** The extension test is an exact, case-sensitive suffix test on `.ext`. */
  lemma ExtensionIsExactSuffix()
    ensures IsCorrectExt("./src/main.rs", ["rs"])
    ensures !IsCorrectExt("./src/main.RS", ["rs"])
    ensures !IsCorrectExt("./src/rs", ["rs"])
  {
    assert EndsWith("./src/main.rs", ['.'] + ["rs"][0]);
  }

  /** The root given as `.` is read: it is neither hidden nor a system directory. */
  lemma DotRootIsRead()
    ensures !Languatage.IsPruned(".")
  {
    forall k | 0 <= k < |Languatage.SystemDirNames|
      ensures !Contains(".", Languatage.SystemDirNames[k])
    {
      ContainsNeedsRoom(".", Languatage.SystemDirNames[k]);
    }
  }

  /** A root given as `..` is treated as hidden and yields nothing. */
  lemma ParentRootYieldsNothing(nodes: seq<Node>, ignores: seq<string>, exts: seq<string>)
    ensures Languatage.GetDirEntries("..", nodes, ignores, exts) == []
  {
    LastComponentOfName("..");
  }

  /** A reserved name anywhere in a directory's path prunes it, even inside a longer name. */
  lemma SystemNamesMatchAsSubstrings(nodes: seq<Node>, ignores: seq<string>, exts: seq<string>)
    ensures Languatage.GetDirEntries("./MyRecoveryTools", nodes, ignores, exts) == []
  {
    assert OccursAt("./MyRecoveryTools", "Recovery", 4);
    ContainsIff("./MyRecoveryTools", "Recovery");
    assert Languatage.SystemDirNames[1] == "Recovery";
  }

  /** The tree `./.env.rs` plus `./.git/x.rs`. */
  function HiddenTree(): seq<Node> {
    [File(".env.rs", 5), Dir(".git", [File("x.rs", 1)])]
  }

  /** A file whose name starts with a dot is kept like any other. */
  lemma HiddenFileKept()
    ensures Languatage.VisitEntry(".", File(".env.rs", 5), [], ["rs"]) == [Entry("./.env.rs", 5)]
    ensures Stat.VisitEntry(".", File(".env.rs", 5), [], ["rs"]) == [Entry("./.env.rs", 5)]
  {
    var p := Join(".", ".env.rs");
    assert p == "./.env.rs";
    assert !IsIgnored(p, []);
    assert EndsWith(p, ['.'] + ["rs"][0]);
  }

  /** A directory whose name starts with a dot is pruned by the library and walked by the older copy. */
  lemma HiddenDirPrunedByLibraryOnly()
    ensures Languatage.VisitEntry(".", Dir(".git", [File("x.rs", 1)]), [], ["rs"]) == []
    ensures Stat.VisitEntry(".", Dir(".git", [File("x.rs", 1)]), [], ["rs"]) == [Entry("./.git/x.rs", 1)]
  {
    var p := Join(".", ".git");
    assert p == "./.git";
    assert !IsIgnored(p, []);
    LastComponentOfJoin(".", ".git");
    assert Languatage.IsDotDir(p);
    var q := Join(p, "x.rs");
    assert q == "./.git/x.rs";
    assert !IsIgnored(q, []);
    assert EndsWith(q, ['.'] + ["rs"][0]);
    assert Stat.VisitEntry(p, File("x.rs", 1), [], ["rs"]) == [Entry(q, 1)];
    assert Stat.GetDirEntries(p, [File("x.rs", 1)], [], ["rs"]) == [Entry(q, 1)];
  }

  /**
   * A hidden file is counted by both copies; a hidden directory is pruned by
   * the library but walked by the older copy.
   */
  lemma HiddenDirectoryOnlyPrunedByLibrary()
    ensures Languatage.GetDirEntries(".", HiddenTree(), [], ["rs"]) == [Entry("./.env.rs", 5)]
    ensures Stat.GetDirEntries(".", HiddenTree(), [], ["rs"]) == [Entry("./.env.rs", 5), Entry("./.git/x.rs", 1)]
  {
    var t := HiddenTree();
    DotRootIsRead();
    HiddenFileKept();
    HiddenDirPrunedByLibraryOnly();
    assert t[1..][1..] == [];
    assert Languatage.ScanEntries(".", t[1..], [], ["rs"]) == [];
    assert Stat.GetDirEntries(".", t[1..], [], ["rs"]) == [Entry("./.git/x.rs", 1)];
  }

  /** The tree `./a.rs` (10 bytes), `./b.rs` (30 bytes) and `./ignored/c.rs`. */
  function IgnoredDirTree(): seq<Node> {
    [File("a.rs", 10), File("b.rs", 30), Dir("ignored", [File("c.rs", 99)])]
  }

  function RustOnly(): Config {
    Config([LanguageConfigItem("rust", ["rs"], [])], CommonConfig(["ignored"]))
  }

  /**
   * A file outside the ignored directory is counted. The bound on the name's
   * length keeps `./` + name shorter than `/ignored/`, so it cannot contain it.
   */
  lemma RustFileCounted(name: string, size: nat, p: string)
    requires |name| <= 6 && p == "./" + name
    requires EndsWith(name, ".rs")
    ensures Languatage.VisitEntry(".", File(name, size), ["ignored"], ["rs"]) == [Entry(p, size)]
  {
    assert Join(".", name) == p;
    ContainsNeedsRoom(p, Segment("ignored"));
    assert !IsIgnored(p, ["ignored"]);
    assert EndsWith(p, ['.'] + ["rs"][0]);
  }

  /** The directory `./ignored` itself does not contain the segment `/ignored/`. */
  lemma IgnoredDirPathNotIgnored()
    ensures !IsIgnored("./ignored", ["ignored"])
  {
    var p := "./ignored";
    assert !(Segment("ignored") <= p);
    ContainsNeedsRoom(p[1..], Segment("ignored"));
  }

  /** A file below `./ignored` does contain it. */
  lemma IgnoredDirFileIgnored()
    ensures IsIgnored("./ignored/c.rs", ["ignored"])
  {
    var q := "./ignored/c.rs";
    assert OccursAt(q, Segment("ignored"), 1);
    ContainsIff(q, Segment("ignored"));
    assert Contains(q, Segment(["ignored"][0]));
  }

  lemma IgnoredDirContentsSkipped()
    ensures Languatage.GetDirEntries("./ignored", [File("c.rs", 99)], ["ignored"], ["rs"]) == []
  {
    IgnoredDirFileIgnored();
    assert Join("./ignored", "c.rs") == "./ignored/c.rs";
    assert Languatage.VisitEntry("./ignored", File("c.rs", 99), ["ignored"], ["rs"]) == [];
    assert [File("c.rs", 99)][1..] == [];
  }

  /**
   * The directory named like the pattern is entered (its own path has no
   * trailing separator), but every path below it is ignored, so it adds nothing.
   */
  lemma IgnoredDirSkipped()
    ensures Languatage.VisitEntry(".", Dir("ignored", [File("c.rs", 99)]), ["ignored"], ["rs"]) == []
  {
    assert Join(".", "ignored") == "./ignored";
    IgnoredDirPathNotIgnored();
    IgnoredDirContentsSkipped();
  }

  /** The files the library returns for the rust rule: the two top-level files. */
  lemma IgnoredDirTreeEntries()
    ensures Languatage.GetDirEntries(".", IgnoredDirTree(), ["ignored"], ["rs"]) ==
      [Entry("./a.rs", 10), Entry("./b.rs", 30)]
  {
    var t := IgnoredDirTree();
    DotRootIsRead();
    RustFileCounted("a.rs", 10, "./a.rs");
    IgnoredDirTreeRest();
    assert t[1..] == [File("b.rs", 30), Dir("ignored", [File("c.rs", 99)])];
  }

  lemma IgnoredDirTreeRest()
    ensures Languatage.ScanEntries(".", [File("b.rs", 30), Dir("ignored", [File("c.rs", 99)])], ["ignored"], ["rs"]) ==
      [Entry("./b.rs", 30)]
  {
    RustFileCounted("b.rs", 30, "./b.rs");
    IgnoredDirSkipped();
    var rest := [Dir("ignored", [File("c.rs", 99)])];
    assert rest[1..] == [];
    assert Languatage.ScanEntries(".", rest, ["ignored"], ["rs"]) == [];
    assert [File("b.rs", 30), Dir("ignored", [File("c.rs", 99)])][1..] == rest;
  }

  /** An ignored directory is skipped with everything below it; the one rule gets all counted bytes. */
  lemma IgnoredDirectoryIsSkipped()
    ensures Languatage.GetStatWithConfig(".", IgnoredDirTree(), RustOnly()) ==
      [LanguageStat("rust", 40, Finite(100.0))]
  {
    var config := RustOnly();
    assert RuleIgnores(config.common, config.language[0]) == ["ignored"];
    IgnoredDirTreeEntries();
    var entries := [Entry("./a.rs", 10), Entry("./b.rs", 30)];
    assert SumSizes(entries) == 40;
    var sizes := Languatage.GetSize(".", IgnoredDirTree(), config);
    assert sizes == [("rust", 40)];
    assert Total(sizes) == 40;
    WholeShare(40.0);
  }

  /** An empty root: every rule is reported with size 0, and every percentage is NaN. */
  lemma EmptyRootGivesNaN(config: Config)
    ensures forall i :: 0 <= i < |config.language| ==>
      Languatage.GetStatWithConfig(".", [], config)[i] == LanguageStat(config.language[i].lang, 0, NaN)
  {
    var sizes := Languatage.GetSize(".", [], config);
    assert Total(sizes) == 0 by {
      ZeroTotal(sizes);
    }
  }

  lemma {:induction false} ZeroTotal(sizes: seq<(string, nat)>)
    requires forall i :: 0 <= i < |sizes| ==> sizes[i].1 == 0
    ensures Total(sizes) == 0
  {
    if sizes != [] {
      ZeroTotal(sizes[1..]);
    }
  }
}
