/**
 * The chart window of reclass.js: MAX_DISPLAY_SALARY and
 * MIN_DISPLAY_SALARY (whole dollars), what the trim button computes for
 * them from the selected pay series (in cents), and the tick step derived
 * from them.
 */
module Windowing {
  import opened Reshaper
  import opened Selection

  /** Defaults that resetChart restores. */
  const DefaultMaxSalary: int := 90000
  const DefaultMinSalary: int := 20000

  const CentsPerDollar: int := 100

  /** Trim rounds the window outward to multiples of $5000. */
  const TrimStep: int := 5000

  /** The trim handler's "extreme initial values", in dollars. */
  const MaxSeed: int := 0
  const MinSeed: int := 1000000

  /**
   * The `stepValue` tick expression: 2500 when (max - min) / 2500 < 6,
   * which is when the window spans less than $15000, and 5000 otherwise.
   */
  function TickStep(maxSalary: int, minSalary: int): (step: int)
    ensures step == 2500 || step == 5000
    ensures step == 2500 <==> maxSalary - minSalary < 15000
  {
    if (maxSalary - minSalary) as real / 2500.0 < 6.0 then 2500 else 5000
  }

  /** Division of an amount in cents by $5000, with its remainder. */
  lemma DivideByStep(a: int)
    ensures a == (a / (TrimStep * CentsPerDollar)) * (TrimStep * CentsPerDollar) + a % (TrimStep * CentsPerDollar)
    ensures 0 <= a % (TrimStep * CentsPerDollar) < TrimStep * CentsPerDollar
  {
  }

  /** A whole number of $5000 steps is a multiple of $5000. */
  lemma MultipleOfStep(k: int)
    ensures (k * TrimStep) % TrimStep == 0
  {
  }

  /** `Math.ceil(dollars / 5000) * 5000` for an amount given in cents. */
  function RoundUpToStep(cents: int): (dollars: int)
    ensures dollars % TrimStep == 0
    ensures cents <= dollars * CentsPerDollar
    ensures (dollars - TrimStep) * CentsPerDollar < cents
  {
    var q := (-cents) / (TrimStep * CentsPerDollar);
    DivideByStep(-cents);
    MultipleOfStep(-q);
    -q * TrimStep
  }

  /** `Math.floor(dollars / 5000) * 5000` for an amount given in cents. */
  function RoundDownToStep(cents: int): (dollars: int)
    ensures dollars % TrimStep == 0
    ensures dollars * CentsPerDollar <= cents
    ensures cents < (dollars + TrimStep) * CentsPerDollar
  {
    var q := cents / (TrimStep * CentsPerDollar);
    DivideByStep(cents);
    MultipleOfStep(q);
    q * TrimStep
  }

  /** `max = Math.max(max, x)` folded over the figures, starting from `acc`. */
  function MaxOf(xs: seq<int>, acc: int): int
  {
    if xs == [] then acc else MaxOf(xs[1..], if acc < xs[0] then xs[0] else acc)
  }

  /** `min = Math.min(min, x)` folded over the figures, starting from `acc`. */
  function MinOf(xs: seq<int>, acc: int): int
  {
    if xs == [] then acc else MinOf(xs[1..], if xs[0] < acc then xs[0] else acc)
  }

  /** The fold is an upper bound of the seed and of every figure, and is one of them. */
  lemma {:induction false} MaxOfBounds(xs: seq<int>, acc: int)
    ensures acc <= MaxOf(xs, acc)
    ensures forall k :: 0 <= k < |xs| ==> xs[k] <= MaxOf(xs, acc)
    ensures MaxOf(xs, acc) == acc || exists k :: 0 <= k < |xs| && MaxOf(xs, acc) == xs[k]
  {
    if xs != [] {
      var acc' := if acc < xs[0] then xs[0] else acc;
      MaxOfBounds(xs[1..], acc');
      forall k | 1 <= k < |xs|
        ensures xs[k] <= MaxOf(xs, acc)
      {
        assert xs[k] == xs[1..][k - 1];
      }
      if MaxOf(xs, acc) != acc && MaxOf(xs, acc) != acc' {
        var k :| 0 <= k < |xs[1..]| && MaxOf(xs[1..], acc') == xs[1..][k];
        assert xs[k + 1] == xs[1..][k];
      }
    }
  }

  /** The fold is a lower bound of the seed and of every figure, and is one of them. */
  lemma {:induction false} MinOfBounds(xs: seq<int>, acc: int)
    ensures MinOf(xs, acc) <= acc
    ensures forall k :: 0 <= k < |xs| ==> MinOf(xs, acc) <= xs[k]
    ensures MinOf(xs, acc) == acc || exists k :: 0 <= k < |xs| && MinOf(xs, acc) == xs[k]
  {
    if xs != [] {
      var acc' := if xs[0] < acc then xs[0] else acc;
      MinOfBounds(xs[1..], acc');
      forall k | 1 <= k < |xs|
        ensures MinOf(xs, acc) <= xs[k]
      {
        assert xs[k] == xs[1..][k - 1];
      }
      if MinOf(xs, acc) != acc && MinOf(xs, acc) != acc' {
        var k :| 0 <= k < |xs[1..]| && MinOf(xs[1..], acc') == xs[1..][k];
        assert xs[k + 1] == xs[1..][k];
      }
    }
  }

  /**
   * The pay for one year of service of each selected job, in selection
   * order, up to the first entry the catalog lacks (where the source's
   * lookup throws).
   */
  function Column(sel: seq<Entry>, cat: Catalog, year: int): seq<int>
    requires WellFormed(cat)
    requires 0 <= year < Years
  {
    if sel == [] || !Listed(sel[0], cat) then []
    else [PayOfEntry(sel[0], cat)[year]] + Column(sel[1..], cat, year)
  }

  /** From a listed entry on, the column starts with that entry's figure. */
  lemma ColumnFrom(sel: seq<Entry>, s: int, cat: Catalog, year: int)
    requires WellFormed(cat)
    requires 0 <= year < Years
    requires 0 <= s < |sel| && Listed(sel[s], cat)
    ensures Column(sel[s..], cat, year) == [PayOfEntry(sel[s], cat)[year]] + Column(sel[s + 1..], cat, year)
  {
    assert sel[s..][1..] == sel[s + 1..];
  }

  /** Folding a leading figure into the running maximum and minimum. */
  lemma FoldHead(x: int, xs: seq<int>, acc: int)
    ensures MaxOf([x] + xs, acc) == MaxOf(xs, if acc < x then x else acc)
    ensures MinOf([x] + xs, acc) == MinOf(xs, if x < acc then x else acc)
  {
    assert ([x] + xs)[1..] == xs;
  }

  /** For a fully listed selection the column has one figure per entry, in order. */
  lemma {:induction false} ColumnAt(sel: seq<Entry>, cat: Catalog, year: int)
    requires WellFormed(cat)
    requires 0 <= year < Years
    requires AllListed(sel, cat)
    ensures |Column(sel, cat, year)| == |sel|
    ensures forall k :: 0 <= k < |sel| ==> Column(sel, cat, year)[k] == PayOfEntry(sel[k], cat)[year]
  {
    if sel != [] {
      assert AllListed(sel[1..], cat) by {
        forall k | 0 <= k < |sel[1..]| ensures Listed(sel[1..][k], cat) {
          assert sel[1..][k] == sel[k + 1];
        }
      }
      ColumnAt(sel[1..], cat, year);
      forall k | 1 <= k < |sel|
        ensures Column(sel, cat, year)[k] == PayOfEntry(sel[k], cat)[year]
      {
        assert sel[1..][k - 1] == sel[k];
      }
    }
  }

  /**
   * The trim handler's scan: the running maximum of the final-year pay and
   * minimum of the first-year pay over the selected jobs, from the extreme
   * seeds. `completed` is false when a selected job is missing from the
   * catalog, where the source's lookup throws.
   */
  method ScanExtremes(sel: seq<Entry>, cat: Catalog) returns (completed: bool, max: int, min: int)
    requires WellFormed(cat)
    ensures completed == AllListed(sel, cat)
    ensures completed ==> max == MaxOf(Column(sel, cat, Years - 1), MaxSeed * CentsPerDollar)
    ensures completed ==> min == MinOf(Column(sel, cat, 0), MinSeed * CentsPerDollar)
  {
    max := MaxSeed * CentsPerDollar;
    min := MinSeed * CentsPerDollar;
    var s := 0;
    while s < |sel|
      invariant 0 <= s <= |sel|
      invariant MaxOf(Column(sel[s..], cat, Years - 1), max)
             == MaxOf(Column(sel, cat, Years - 1), MaxSeed * CentsPerDollar)
      invariant MinOf(Column(sel[s..], cat, 0), min)
             == MinOf(Column(sel, cat, 0), MinSeed * CentsPerDollar)
      invariant forall k :: 0 <= k < s ==> Listed(sel[k], cat)
    {
      var entry := sel[s];
      if !(entry.district in cat && entry.position in cat[entry.district]) {
        return false, max, min;
      }
      var pay := cat[entry.district][entry.position].pay;
      ColumnFrom(sel, s, cat, Years - 1);
      ColumnFrom(sel, s, cat, 0);
      FoldHead(pay[Years - 1], Column(sel[s + 1..], cat, Years - 1), max);
      FoldHead(pay[0], Column(sel[s + 1..], cat, 0), min);
      max := if max < pay[Years - 1] then pay[Years - 1] else max;
      min := if pay[0] < min then pay[0] else min;
      s := s + 1;
    }
    completed := true;
  }

  /** MAX_DISPLAY_SALARY after a trim: the final-year maximum, seeded at 0, rounded up. */
  function TrimmedMax(sel: seq<Entry>, cat: Catalog): int
    requires WellFormed(cat)
  {
    RoundUpToStep(MaxOf(Column(sel, cat, Years - 1), MaxSeed * CentsPerDollar))
  }

  /** MIN_DISPLAY_SALARY after a trim: the first-year minimum, seeded at $1000000, rounded down. */
  function TrimmedMin(sel: seq<Entry>, cat: Catalog): int
    requires WellFormed(cat)
  {
    RoundDownToStep(MinOf(Column(sel, cat, 0), MinSeed * CentsPerDollar))
  }

  /**
   * The trimmed maximum is the smallest non-negative multiple of $5000 that
   * is at least every selected job's final-year pay.
   */
  lemma TrimmedMaxFits(sel: seq<Entry>, cat: Catalog)
    requires WellFormed(cat)
    requires AllListed(sel, cat)
    ensures var top := TrimmedMax(sel, cat);
      && top % TrimStep == 0
      && 0 <= top
      && (forall k :: 0 <= k < |sel| ==> PayOfEntry(sel[k], cat)[Years - 1] <= top * CentsPerDollar)
      && (top == 0 ||
          exists k :: 0 <= k < |sel| && (top - TrimStep) * CentsPerDollar < PayOfEntry(sel[k], cat)[Years - 1])
  {
    var xs := Column(sel, cat, Years - 1);
    ColumnAt(sel, cat, Years - 1);
    MaxOfBounds(xs, MaxSeed * CentsPerDollar);
  }

  /**
   * The trimmed minimum is the largest multiple of $5000 that is at most
   * $1000000 and at most every selected job's first-year pay.
   */
  lemma TrimmedMinFits(sel: seq<Entry>, cat: Catalog)
    requires WellFormed(cat)
    requires AllListed(sel, cat)
    ensures var bottom := TrimmedMin(sel, cat);
      && bottom % TrimStep == 0
      && bottom <= MinSeed
      && (forall k :: 0 <= k < |sel| ==> bottom * CentsPerDollar <= PayOfEntry(sel[k], cat)[0])
      && (bottom == MinSeed ||
          exists k :: 0 <= k < |sel| && PayOfEntry(sel[k], cat)[0] < (bottom + TrimStep) * CentsPerDollar)
  {
    var xs := Column(sel, cat, 0);
    ColumnAt(sel, cat, 0);
    MinOfBounds(xs, MinSeed * CentsPerDollar);
  }

  /** Trimming with nothing selected gives the seeds: max 0 and min 1000000. */
  lemma TrimmedEmpty(cat: Catalog)
    requires WellFormed(cat)
    ensures TrimmedMax([], cat) == 0 && TrimmedMin([], cat) == 1000000
  {
  }
}
