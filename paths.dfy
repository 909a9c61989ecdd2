/**
 * Path strings and the string tests the scanning engines apply to them.
 * Paths use a fixed separator '/' in place of the platform's MAIN_SEPARATOR.
 */
module Paths {

  const Sep: char := '/'

  /** `t` occurs in `s` at some position (Rust's `str::contains`). */
  predicate Contains(s: string, t: string)
    decreases |s|
  {
    t <= s || (|s| > 0 && Contains(s[1..], t))
  }

  /** `s` ends with `t` (Rust's `str::ends_with`). */
  predicate EndsWith(s: string, t: string) {
    |t| <= |s| && s[|s| - |t|..] == t
  }

  /** `s` starts with `t` (Rust's `str::starts_with`). */
  predicate StartsWith(s: string, t: string) {
    t <= s
  }

  /**
   * `parent.join(name)` for a bare file name: a separator is inserted unless
   * `parent` is empty or already ends with one.
   */
  function Join(parent: string, name: string): (r: string)
    ensures StartsWith(r, parent) && EndsWith(r, name)
    ensures |r| == |parent| + |name| || (|r| == |parent| + |name| + 1 && r[|parent|] == Sep)
    ensures (|parent| > 0 && parent[|parent| - 1] != Sep) <==> |r| == |parent| + |name| + 1
  {
    if |parent| > 0 && parent[|parent| - 1] != Sep then parent + [Sep] + name
    else parent + name
  }

  /**
   * The last piece of `path.split('/')`: the text after the last separator,
   * or the whole path when it has none.
   */
  function LastComponent(path: string): (r: string)
    ensures |r| <= |path| && r == path[|path| - |r|..]
    ensures Sep !in r
    ensures |r| == |path| || path[|path| - |r| - 1] == Sep
  {
    if |path| == 0 then []
    else if path[|path| - 1] == Sep then []
    else LastComponent(path[..|path| - 1]) + [path[|path| - 1]]
  }

  /** `format!("/{}/", pattern)`: the form in which an ignore pattern is searched for. */
  function Segment(pattern: string): (r: string)
    ensures |r| == |pattern| + 2 && r[0] == Sep && r[|r| - 1] == Sep && r[1..|r| - 1] == pattern
  {
    [Sep] + pattern + [Sep]
  }

  /** The `is_ignored` test: the full path contains `/p/` for some ignore pattern `p`. */
  predicate IsIgnored(path: string, ignores: seq<string>) {
    exists k :: 0 <= k < |ignores| && Contains(path, Segment(ignores[k]))
  }

  /** The `is_correct_ext` test: the full path ends with `.ext` for some extension. */
  predicate IsCorrectExt(path: string, exts: seq<string>) {
    exists k :: 0 <= k < |exts| && EndsWith(path, ['.'] + exts[k])
  }

  /** `t` occurs in `s` starting at index `i`. */
  predicate OccursAt(s: string, t: string, i: int) {
    0 <= i <= |s| - |t| && s[i..i + |t|] == t
  }

  /** `Contains` agrees with the positional definition of a substring. */
  lemma {:induction false} ContainsIff(s: string, t: string)
    ensures Contains(s, t) <==> exists i :: OccursAt(s, t, i)
    decreases |s|
  {
    if t <= s {
      assert OccursAt(s, t, 0);
    } else if |s| > 0 {
      ContainsIff(s[1..], t);
      if exists i :: OccursAt(s, t, i) {
        var i :| OccursAt(s, t, i);
        if i != 0 {
          ShiftedSlice(s, i - 1, |t|);
          assert OccursAt(s[1..], t, i - 1);
        }
      }
      if exists j :: OccursAt(s[1..], t, j) {
        var j :| OccursAt(s[1..], t, j);
        ShiftedSlice(s, j, |t|);
        assert OccursAt(s, t, j + 1);
      }
    }
  }

  /** A slice of the tail is the slice one place further along. */
  lemma ShiftedSlice(s: string, j: int, n: int)
    requires 0 < |s| && 0 <= j && 0 <= n && j + n <= |s| - 1
    ensures s[1..][j..j + n] == s[j + 1..j + 1 + n]
  {
    var u := s[1..][j..j + n];
    assert forall m :: 0 <= m < n ==> u[m] == s[j + 1 + m];
  }

  /** A string shorter than `t` cannot contain it. */
  lemma {:induction false} ContainsNeedsRoom(s: string, t: string)
    requires |s| < |t|
    ensures !Contains(s, t)
    decreases |s|
  {
    if |s| > 0 {
      ContainsNeedsRoom(s[1..], t);
    }
  }

  /** Whatever a path contains, every extension of it contains too. */
  lemma {:induction false} ContainsExtends(a: string, b: string, t: string)
    requires StartsWith(b, a) && Contains(a, t)
    ensures Contains(b, t)
    decreases |a|
  {
    if !(t <= a) {
      ContainsExtends(a[1..], b[1..], t);
    }
  }

  /** An ignored path stays ignored when it is extended, so a pruned directory's whole subtree is pruned. */
  lemma IgnoredExtends(a: string, b: string, ignores: seq<string>)
    requires StartsWith(b, a) && IsIgnored(a, ignores)
    ensures IsIgnored(b, ignores)
  {
    var k :| 0 <= k < |ignores| && Contains(a, Segment(ignores[k]));
    ContainsExtends(a, b, Segment(ignores[k]));
  }

  /**
   * A pattern that ends with a separator is found in `dir + name`, for a name
   * without separators, exactly when it is found in `dir`: the name itself
   * never takes part in a match.
   */
  lemma OwnNameNeverMatches(dir: string, name: string, t: string)
    requires Sep !in name && |t| >= 1 && t[|t| - 1] == Sep
    ensures Contains(dir + name, t) <==> Contains(dir, t)
  {
    var s := dir + name;
    ContainsIff(s, t);
    ContainsIff(dir, t);
    if Contains(s, t) {
      var i :| OccursAt(s, t, i);
      var j := i + |t| - 1;
      assert s[j] == t[|t| - 1];
      assert j < |dir|;
      assert dir[i..i + |t|] == s[i..i + |t|];
      assert OccursAt(dir, t, i);
    }
    if Contains(dir, t) {
      ContainsExtends(dir, s, t);
    }
  }

  /**
   * Whether an entry is ignored is decided by the directory part of its path:
   * an entry named exactly like an ignore pattern is not ignored for its own name.
   */
  lemma IgnoredByDirectoryPartOnly(parent: string, name: string, ignores: seq<string>)
    requires Sep !in name
    ensures Join(parent, name) == Join(parent, []) + name
    ensures IsIgnored(Join(parent, name), ignores) <==> IsIgnored(Join(parent, []), ignores)
  {
    var dir := Join(parent, []);
    assert Join(parent, name) == dir + name;
    forall k | 0 <= k < |ignores|
      ensures Contains(dir + name, Segment(ignores[k])) <==> Contains(dir, Segment(ignores[k]))
    {
      OwnNameNeverMatches(dir, name, Segment(ignores[k]));
    }
  }

  /** `path.split('/').last()` is the single component of a path without separators. */
  lemma LastComponentOfName(name: string)
    requires Sep !in name
    ensures LastComponent(name) == name
  {
  }

  /** The last component of `parent.join(name)`, for a name without separators, is `name`. */
  lemma LastComponentOfJoin(parent: string, name: string)
    requires Sep !in name
    ensures LastComponent(Join(parent, name)) == name
  {
    var p := Join(parent, name);
    var r := LastComponent(p);
    assert r == p[|p| - |r|..];
  }
}
