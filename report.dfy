/**
 * The last step both engines share: turning the per-rule totals into
 * `LanguageStat` rows with a percentage of the grand total. The rows are
 * neither sorted nor filtered: there is one per rule, in rule order, and
 * rules with no matching bytes stay in.
 */
module Report {

  /**
   * The `f64` percentage. Rounding is not modelled: a finite share is the
   * exact real `size / total * 100`; a zero grand total gives `0.0 / 0.0`,
   * which is NaN.
   */
  datatype Percentage = Finite(value: real) | NaN

  datatype LanguageStat = LanguageStat(lang: string, size: nat, percentage: Percentage)

  /** The grand total `sizes.iter().map(|v| v.1).sum()`, zero-size rules included. */
  function Total(sizes: seq<(string, nat)>): nat {
    if sizes == [] then 0 else sizes[0].1 + Total(sizes[1..])
  }

  /** `size as f64 / total as f64 * 100.0`, for a size that is part of the total. */
  function Share(size: nat, total: nat): (p: Percentage)
    ensures p.NaN? <==> total == 0
    ensures p.Finite? && size <= total ==> 0.0 <= p.value <= 100.0
    ensures p.Finite? ==> (p.value == 100.0 <==> size == total)
    ensures p.Finite? ==> (p.value == 0.0 <==> size == 0)
  {
    if total == 0 then NaN else Finite(size as real / total as real * 100.0)
  }

  /** The rows of the result: one per `(lang, size)` pair, in the same order. */
  function Rows(sizes: seq<(string, nat)>): (r: seq<LanguageStat>)
    ensures |r| == |sizes|
    ensures forall i :: 0 <= i < |r| ==>
      r[i].lang == sizes[i].0 && r[i].size == sizes[i].1 && r[i].percentage == Share(sizes[i].1, Total(sizes))
  {
    var total := Total(sizes);
    seq(|sizes|, i requires 0 <= i < |sizes| => LanguageStat(sizes[i].0, sizes[i].1, Share(sizes[i].1, total)))
  }

  /** Sum of the finite percentages of some rows. */
  function SumPercent(rows: seq<LanguageStat>): real {
    if rows == [] then 0.0
    else (if rows[0].percentage.Finite? then rows[0].percentage.value else 0.0) + SumPercent(rows[1..])
  }

  /** Sum of the sizes of some rows. */
  function SumRowSizes(rows: seq<LanguageStat>): nat {
    if rows == [] then 0 else rows[0].size + SumRowSizes(rows[1..])
  }

  /** Each rule's total is part of the grand total. */
  lemma {:induction false} TotalBound(sizes: seq<(string, nat)>, i: int)
    requires 0 <= i < |sizes|
    ensures sizes[i].1 <= Total(sizes)
  {
    if i > 0 {
      TotalBound(sizes[1..], i - 1);
    }
  }

  /** Rows carrying the same sizes as `sizes`, in order, add up to the grand total. */
  lemma {:induction false} RowSizesAreTotal(rows: seq<LanguageStat>, sizes: seq<(string, nat)>)
    requires |rows| == |sizes|
    requires forall i :: 0 <= i < |rows| ==> rows[i].size == sizes[i].1
    ensures SumRowSizes(rows) == Total(sizes)
  {
    if rows != [] {
      RowSizesAreTotal(rows[1..], sizes[1..]);
    }
  }

  /** Shares of one total add up like the sizes they are shares of. */
  lemma {:induction false} SharesAdd(rows: seq<LanguageStat>, total: nat)
    requires total > 0
    requires forall i :: 0 <= i < |rows| ==> rows[i].percentage == Share(rows[i].size, total)
    ensures SumPercent(rows) == SumRowSizes(rows) as real / total as real * 100.0
  {
    if rows != [] {
      SharesAdd(rows[1..], total);
      ShareOfSum(rows[0].size as real, SumRowSizes(rows[1..]) as real, total as real);
    }
  }

  lemma ShareOfSum(a: real, b: real, t: real)
    requires t > 0.0
    ensures a / t * 100.0 + b / t * 100.0 == (a + b) / t * 100.0
  {
    calc {
      a / t * 100.0 + b / t * 100.0;
      (a / t + b / t) * 100.0;
      { assert a / t + b / t == (a + b) / t; }
      (a + b) / t * 100.0;
    }
  }

  lemma WholeShare(t: real)
    requires t > 0.0
    ensures t / t * 100.0 == 100.0
  {
  }

  /** Whenever some rule has matching bytes, the percentages of all rows add up to exactly 100. */
  lemma PercentagesSumTo100(sizes: seq<(string, nat)>)
    requires Total(sizes) > 0
    ensures SumPercent(Rows(sizes)) == 100.0
  {
    var rows, total := Rows(sizes), Total(sizes);
    forall i | 0 <= i < |rows|
      ensures rows[i].percentage == Share(rows[i].size, total)
    {
    }
    SharesAdd(rows, total);
    RowSizesAreTotal(rows, sizes);
    WholeShare(total as real);
  }

  /** Every percentage lies between 0 and 100, and all are NaN exactly when the grand total is zero. */
  lemma PercentagesInRange(sizes: seq<(string, nat)>, i: int)
    requires 0 <= i < |sizes|
    ensures Rows(sizes)[i].percentage.NaN? <==> Total(sizes) == 0
    ensures Total(sizes) > 0 ==> 0.0 <= Rows(sizes)[i].percentage.value <= 100.0
  {
    TotalBound(sizes, i);
  }
}
