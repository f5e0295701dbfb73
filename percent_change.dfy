/** The popularity-change part of the report: for every row of the name/year
    matrix, the percentage change of its count between 1980 and 2014, once by
    the strict rule (a name absent in the base year gets 0) and once by the
    inclusive rule (a name absent in the base year is divided by 1 instead).
    A change is kept as the exact fraction `num / den`; the report prints 100
    times it. */
module PercentChange {
  import opened Records
  import opened YearMatrix

  /** The fraction `num / den`; `den` is positive in every change. */
  datatype Fraction = Fraction(num: int, den: nat)

  /** `a <= b`, for fractions with positive denominators. */
  predicate AtMost(a: Fraction, b: Fraction)
    requires a.den > 0 && b.den > 0
  {
    a.num * b.den <= b.num * a.den
  }

  /** The strict rule: the relative change from `base` to `other` when
      `base > 0`, and 0 (the name is left out of the ranking) otherwise. */
  function StrictChange(base: nat, other: nat): (f: Fraction)
    ensures f.den > 0
  {
    if base > 0 then Fraction(other - base, base) else Fraction(0, 1)
  }

  /** The inclusive rule: the relative change from `base` to `other`, with 1
      added to the denominator when `base` is 0. */
  function InclusiveChange(base: nat, other: nat): (f: Fraction)
    ensures f.den > 0
  {
    if base == 0 then Fraction(other - base, base + 1) else Fraction(other - base, base)
  }

  /** A strict change scales its base to the other count: `base * (1 + f) ==
      other`; a name absent in the base year gets exactly 0. */
  lemma StrictChangeMeaning(base: nat, other: nat)
    ensures var f := StrictChange(base, other);
      && (base > 0 ==> base * (f.den + f.num) == other * f.den)
      && (base == 0 ==> f.num == 0)
  {
  }

  /** An inclusive change scales its denominator to the difference:
      `(base or 1) * f == other - base`. */
  lemma InclusiveChangeMeaning(base: nat, other: nat)
    ensures var f := InclusiveChange(base, other);
      (if base == 0 then 1 else base) * f.num == (other - base) * f.den
  {
  }

  /** The two rules give the same change except for a name absent in the
      base year and present in the other. */
  lemma RulesAgreeOnPresentNames(base: nat, other: nat)
    ensures InclusiveChange(base, other) == StrictChange(base, other) <==> base > 0 || other == 0
  {
  }

  /** The inclusive rule never ranks a name lower than the strict rule, and
      ranks it strictly higher exactly when the name is absent in the base
      year and present in the other: the names the strict rule leaves out. */
  lemma InclusiveAtLeastStrict(base: nat, other: nat)
    ensures AtMost(StrictChange(base, other), InclusiveChange(base, other))
    ensures !AtMost(InclusiveChange(base, other), StrictChange(base, other)) <==> base == 0 && other > 0
  {
  }

  /** No count falls by more than all of it: every change is at least -100%. */
  lemma ChangeAtLeastMinusOne(base: nat, other: nat)
    ensures AtMost(Fraction(-1, 1), StrictChange(base, other))
    ensures AtMost(Fraction(-1, 1), InclusiveChange(base, other))
  {
  }

  /** The sign of a change: the inclusive change is positive exactly when the
      count grew, the strict one when it grew from a present base. */
  lemma ChangeSign(base: nat, other: nat)
    ensures InclusiveChange(base, other).num > 0 <==> other > base
    ensures InclusiveChange(base, other).num == 0 <==> other == base
    ensures StrictChange(base, other).num > 0 <==> 0 < base < other
  {
  }

  /** `count_by_year[:, year - 1910]`: the column of one year of the matrix. */
  function Column(matrix: seq<NameYearSeries>, year: int): (c: seq<nat>)
    requires FirstYear <= year <= LastYear
    requires forall k :: 0 <= k < |matrix| ==> |matrix[k].years| == YearSlots
    ensures |c| == |matrix|
    ensures forall k :: 0 <= k < |c| ==> c[k] == matrix[k].years[year - FirstYear]
  {
    if matrix == [] then []
    else Column(DropLast(matrix), year) + [Last(matrix).years[year - FirstYear]]
  }

  /** On sorted, named data within 1910..2014, the column of a year holds, for
      the name of each row, the count of its records of that year. */
  lemma ColumnCountsItsYear(data: seq<Record>, year: int)
    requires SortedByName(data) && NamesNonEmpty(data) && InRange(data) && data != []
    requires FirstYear <= year <= LastYear
    ensures NameCountsYearMatrix(data).Ok?
    ensures var matrix := NameCountsYearMatrix(data).value;
      && (forall k :: 0 <= k < |matrix| ==> |matrix[k].years| == YearSlots)
      && forall k :: 0 <= k < |matrix| ==>
           Column(matrix, year)[k] == TotalCount(InYears(WithName(data, matrix[k].name), {year}))
  {
    SortedMatrixCounts(data);
    RowTotalsAreYearSums(data);
    var matrix := NameCountsYearMatrix(data).value;
    forall k | 0 <= k < |matrix|
      ensures Column(matrix, year)[k] == TotalCount(InYears(WithName(data, matrix[k].name), {year}))
    {
      assert FirstYear + (year - FirstYear) == year;
    }
  }

  /** `increase = np.zeros(M)` and the loop that fills it by the strict rule:
      the change of every row from `base` to `other`. */
  method StrictChanges(base: seq<nat>, other: seq<nat>) returns (change: array<Fraction>)
    requires |base| == |other|
    ensures fresh(change) && change.Length == |base|
    ensures forall i :: 0 <= i < |base| ==> change[i] == StrictChange(base[i], other[i])
  {
    change := new Fraction[|base|](_ => Fraction(0, 1));
    for i := 0 to |base|
      invariant forall j :: 0 <= j < i ==> change[j] == StrictChange(base[j], other[j])
    {
      if base[i] > 0 {
        change[i] := Fraction(other[i] as int - base[i], base[i]);
      } else {
        change[i] := Fraction(0, 1);
      }
    }
  }

  /** The same loop by the inclusive rule. */
  method InclusiveChanges(base: seq<nat>, other: seq<nat>) returns (change: array<Fraction>)
    requires |base| == |other|
    ensures fresh(change) && change.Length == |base|
    ensures forall i :: 0 <= i < |base| ==> change[i] == InclusiveChange(base[i], other[i])
  {
    change := new Fraction[|base|](_ => Fraction(0, 1));
    for i := 0 to |base|
      invariant forall j :: 0 <= j < i ==> change[j] == InclusiveChange(base[j], other[j])
    {
      if base[i] == 0 {
        change[i] := Fraction(other[i] as int - base[i], base[i] + 1);
      } else {
        change[i] := Fraction(other[i] as int - base[i], base[i]);
      }
    }
  }

  /** The four rankings' values of the report: increase and decrease between
      1980 and 2014 by the strict rule, then by the inclusive rule. A decrease
      is the change with the two years swapped, 2014 being its base. */
  method PopularityChanges(matrix: seq<NameYearSeries>)
    returns (increase: array<Fraction>, decrease: array<Fraction>,
             increaseAll: array<Fraction>, decreaseAll: array<Fraction>)
    requires forall k :: 0 <= k < |matrix| ==> |matrix[k].years| == YearSlots
    ensures fresh(increase) && fresh(decrease) && fresh(increaseAll) && fresh(decreaseAll)
    ensures increase.Length == decrease.Length == increaseAll.Length == decreaseAll.Length == |matrix|
    ensures forall i :: 0 <= i < |matrix| ==>
      var early, late := matrix[i].years[1980 - FirstYear], matrix[i].years[2014 - FirstYear];
      && increase[i] == StrictChange(early, late)
      && decrease[i] == StrictChange(late, early)
      && increaseAll[i] == InclusiveChange(early, late)
      && decreaseAll[i] == InclusiveChange(late, early)
  {
    var early, late := Column(matrix, 1980), Column(matrix, 2014);
    increase := StrictChanges(early, late);
    decrease := StrictChanges(late, early);
    increaseAll := InclusiveChanges(early, late);
    decreaseAll := InclusiveChanges(late, early);
  }
}
