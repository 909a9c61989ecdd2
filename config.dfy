/**
 * The configuration both engines consume: per-language rules (a name, the
 * extensions that identify the language, extra ignore patterns) and a common
 * ignore list applied to every rule. Equality of all three records is
 * structural, as Dafny's datatype equality is.
 */
module ConfigModel {
  import opened Paths

  datatype LanguageConfigItem = LanguageConfigItem(lang: string, ext: seq<string>, ignore: seq<string>)

  datatype CommonConfig = CommonConfig(ignore: seq<string>)

  datatype Config = Config(language: seq<LanguageConfigItem>, common: CommonConfig)

  /** `Config::new`: stores both parts unchanged, the rules in their given order. */
  function New(language: seq<LanguageConfigItem>, common: CommonConfig): (c: Config)
    ensures c.language == language && c.common == common
  {
    Config(language, common)
  }

  /**
   * `Config::default`, which parses a bundled YAML document that is not part
   * of this model. Only its first rule is known (rust, extension "rs", no
   * rule-specific ignores); the rest of this value is a stand-in.
   */
  function Default(): (c: Config)
    ensures |c.language| >= 1
    ensures c.language[0] == LanguageConfigItem("rust", ["rs"], [])
  {
    Config([LanguageConfigItem("rust", ["rs"], [])], CommonConfig([".git"]))
  }

  /**
   * The ignore list one rule is scanned with: the common ignores followed by
   * the rule's own, duplicates kept.
   */
  function RuleIgnores(common: CommonConfig, item: LanguageConfigItem): (r: seq<string>)
    ensures |r| == |common.ignore| + |item.ignore|
    ensures r[..|common.ignore|] == common.ignore && r[|common.ignore|..] == item.ignore
  {
    common.ignore + item.ignore
  }

  /** A path is ignored under a rule exactly when the common list or the rule's own list ignores it. */
  lemma RuleIgnoresMatch(common: CommonConfig, item: LanguageConfigItem, path: string)
    ensures IsIgnored(path, RuleIgnores(common, item)) <==>
      IsIgnored(path, common.ignore) || IsIgnored(path, item.ignore)
  {
    var r := RuleIgnores(common, item);
    var n := |common.ignore|;
    forall k | 0 <= k < |r|
      ensures r[k] == if k < n then common.ignore[k] else item.ignore[k - n]
    {
    }
    if IsIgnored(path, common.ignore) {
      var k :| 0 <= k < n && Contains(path, Segment(common.ignore[k]));
      assert Contains(path, Segment(r[k]));
    }
    if IsIgnored(path, item.ignore) {
      var k :| 0 <= k < |item.ignore| && Contains(path, Segment(item.ignore[k]));
      assert Contains(path, Segment(r[n + k]));
    }
  }

  // The three lemmas below hold of every Dafny datatype. They record that the
  // derived `PartialEq` of these structs is structural equality field by field;
  // they carry no proof work of their own.

  /** Rebuilding a configuration from its own parts gives it back. */
  lemma NewOfParts(c: Config)
    ensures New(c.language, c.common) == c
  {
  }

  /** Two configurations are equal exactly when their rule lists and common parts are. */
  lemma ConfigEquality(a: Config, b: Config)
    ensures a == b <==> a.language == b.language && a.common == b.common
  {
  }

  /** Two rules are equal exactly when name, extensions and ignores are. */
  lemma ItemEquality(a: LanguageConfigItem, b: LanguageConfigItem)
    ensures a == b <==> a.lang == b.lang && a.ext == b.ext && a.ignore == b.ignore
  {
  }
}
