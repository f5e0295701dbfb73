/** `build_name_counts_year_matrix(data)`: one left-to-right scan over all the
    records, sorted by name, that merges the records of each name over states,
    sexes and years into a row [name, total count, count in 1910, ..., count
    in 2014]. The per-year counts are kept in a 105-slot array indexed by
    `year - 1910`, which a new name replaces by a fresh array of zeros. */
module YearMatrix {
  import opened Records
  import opened Grouping
  import MergeByName

  const FirstYear: int := 1910
  const LastYear: int := 2014
  const YearSlots: nat := 105

  /** The slot `year_count[year - 1910]` reaches, with numpy's indexing: a
      negative index counts from the end, an index outside -105..104 raises
      IndexError (`None`). A record lands in its own year's slot exactly when
      its year is within 1910..2014; the years 1805..1909 land silently in the
      slot of the year 105 later. */
  function YearSlot(year: int): (slot: Option<nat>)
    ensures slot.Some? <==> FirstYear - YearSlots <= year <= LastYear
    ensures slot.Some? ==> slot.value < YearSlots
    ensures (slot.Some? && FirstYear + slot.value == year) <==> FirstYear <= year <= LastYear
    ensures slot.Some? && year < FirstYear ==> FirstYear + slot.value == year + YearSlots
  {
    var i := year - FirstYear;
    if 0 <= i < YearSlots then Some(i)
    else if 0 <= i + YearSlots && i < 0 then Some(i + YearSlots)
    else None
  }

  /** Every record of `rows` can be indexed into the year vector. */
  predicate Indexable(rows: seq<Record>)
  {
    forall i :: 0 <= i < |rows| ==> YearSlot(rows[i].year).Some?
  }

  /** A year vector with no counts. */
  function NoCounts(): (v: seq<nat>)
    ensures |v| == YearSlots && forall s :: 0 <= s < YearSlots ==> v[s] == 0
  {
    seq(YearSlots, _ => 0)
  }

  /** `np.zeros([2014 - 1910 + 1])`: a fresh year vector with no counts. */
  method Zeros() returns (a: array<nat>)
    ensures fresh(a) && a[..] == NoCounts()
  {
    a := new nat[YearSlots](_ => 0);
  }

  /** The year vector the scan builds for the records of one run. */
  function YearVector(rows: seq<Record>): (v: seq<nat>)
    ensures |v| == YearSlots
  {
    if rows == [] then NoCounts()
    else
      var v, r := YearVector(DropLast(rows)), Last(rows);
      match YearSlot(r.year)
      case Some(s) => v[s := v[s] + r.count]
      case None => v
  }

  /** A row of the matrix: the name, its total count and its count per year. */
  datatype NameYearSeries = NameYearSeries(name: string, total: nat, years: seq<nat>)

  /** The row flushed for a finished run. */
  function Series(run: Run): NameYearSeries
  {
    NameYearSeries(run.name, TotalCount(run.rows), YearVector(run.rows))
  }

  /** One row per run, in order. */
  function SeriesOf(g: seq<Run>): (s: seq<NameYearSeries>)
    ensures |s| == |g|
    ensures forall k :: 0 <= k < |g| ==> s[k] == Series(g[k])
  {
    if g == [] then [] else SeriesOf(DropLast(g)) + [Series(Last(g))]
  }

  /** What `build_name_counts_year_matrix` returns: a NameError for no data,
      an IndexError when a year cannot be indexed, otherwise one row per
      emitted run. */
  function NameCountsYearMatrix(data: seq<Record>): (res: Result<seq<NameYearSeries>>)
    ensures res.Ok? ==> res.value != [] && |res.value| <= |data|
    ensures res.Ok? ==> forall k :: 0 <= k < |res.value| ==> |res.value[k].years| == YearSlots
  {
    if data == [] then Err(NameUnbound)
    else if !Indexable(data) then Err(IndexOutOfRange)
    else Ok(SeriesOf(Emitted(Runs(data))))
  }

  /** The scan's variables after the records that formed the runs `g`:
      `out` holds the rows flushed so far, the other three the open run. */
  ghost predicate Built(g: seq<Run>, currentName: Option<string>, currentCount: nat, yearCount: seq<nat>, out: seq<NameYearSeries>)
  {
    && (g == [] ==> currentName == None && out == [])
    && (g != [] ==>
          && currentName == Some(Last(g).name)
          && currentCount == TotalCount(Last(g).rows)
          && yearCount == YearVector(Last(g).rows)
          && out == SeriesOf(Named(DropLast(g))))
  }

  /** A record with the open run's name is added to its total and its year slot. */
  lemma BuildJoins(g: seq<Run>, r: Record, slot: nat,
                   currentName: Option<string>, currentCount: nat, yearCount: seq<nat>, out: seq<NameYearSeries>)
    requires Built(g, currentName, currentCount, yearCount, out) && currentName == Some(r.name)
    requires YearSlot(r.year) == Some(slot)
    ensures slot < |yearCount|
    ensures Built(Grow(g, r), currentName, currentCount + r.count, yearCount[slot := yearCount[slot] + r.count], out)
  {
    DropLastAppend(DropLast(g), Run(r.name, Last(g).rows + [r]));
    DropLastAppend(Last(g).rows, r);
  }

  lemma SeriesOfSnoc(g: seq<Run>, x: Run)
    ensures SeriesOf(g + [x]) == SeriesOf(g) + [Series(x)]
  {
    DropLastAppend(g, x);
  }

  /** The run of one record: its count, in its year's slot. */
  lemma SingleRecordRun(r: Record, slot: nat)
    requires YearSlot(r.year) == Some(slot)
    ensures Series(Run(r.name, [r])) == NameYearSeries(r.name, r.count, NoCounts()[slot := r.count])
  {
    assert DropLast([r]) == [] && Last([r]) == r;
    assert YearVector([r]) == NoCounts()[slot := 0 + r.count];
    assert TotalCount([r]) == r.count;
  }

  /** A record with another name flushes the open run, if its name is truthy,
      and opens a run with a fresh vector holding only its own count. */
  lemma BuildOpens(g: seq<Run>, r: Record, slot: nat,
                   currentName: Option<string>, currentCount: nat, yearCount: seq<nat>, out: seq<NameYearSeries>)
    requires Built(g, currentName, currentCount, yearCount, out) && currentName != Some(r.name)
    requires YearSlot(r.year) == Some(slot)
    ensures Built(Grow(g, r), Some(r.name), r.count,
                  NoCounts()[slot := r.count],
                  if currentName.Some? && currentName.value != ""
                  then out + [NameYearSeries(currentName.value, currentCount, yearCount)]
                  else out)
  {
    var x := Run(r.name, [r]);
    assert Grow(g, r) == g + [x];
    DropLastAppend(g, x);
    SingleRecordRun(r, slot);
    if g != [] {
      assert Named(g) == Named(DropLast(g)) + (if Last(g).name != "" then [Last(g)] else []);
      SeriesOfSnoc(Named(DropLast(g)), Last(g));
    }
  }

  /** The post-loop flush appends the open run: the matrix is complete. */
  lemma BuildFlushes(g: seq<Run>, currentName: Option<string>, currentCount: nat, yearCount: seq<nat>, out: seq<NameYearSeries>)
    requires Built(g, currentName, currentCount, yearCount, out) && g != []
    ensures out + [NameYearSeries(currentName.value, currentCount, yearCount)] == SeriesOf(Emitted(g))
  {
    DropLastAppend(Named(DropLast(g)), Last(g));
  }

  lemma IndexableExtends(data: seq<Record>, n: nat)
    requires n < |data| && Indexable(data[..n]) && YearSlot(data[n].year).Some?
    ensures Indexable(data[..n + 1])
  {
  }

  lemma NotIndexableAt(data: seq<Record>, n: nat)
    requires n < |data| && YearSlot(data[n].year).None?
    ensures !Indexable(data)
  {
  }

  /** The scan's step for a record `r` with the open run's name, whose year
      has the slot `slot`: `current_count += count` and
      `year_count[year - 1910] += count`. */
  method JoinRun(r: Record, slot: nat, ghost g: seq<Run>, currentCount: nat, yearCount: array<nat>, ghost out: seq<NameYearSeries>)
    returns (count': nat)
    requires YearSlot(r.year) == Some(slot) && yearCount.Length == YearSlots
    requires Built(g, Some(r.name), currentCount, yearCount[..], out)
    modifies yearCount
    ensures Built(Grow(g, r), Some(r.name), count', yearCount[..], out)
  {
    ghost var vector := yearCount[..];
    BuildJoins(g, r, slot, Some(r.name), currentCount, vector, out);
    yearCount[slot] := yearCount[slot] + r.count;
    assert yearCount[..] == vector[slot := vector[slot] + r.count];
    count' := currentCount + r.count;
  }

  /** The scan's step for a record `r` with another name than the open run's,
      whose year has the slot `slot`: the open run is appended to the matrix
      when its name is truthy, and `r` opens a run with a fresh vector. */
  method OpenRun(r: Record, slot: nat, ghost g: seq<Run>,
                 currentName: Option<string>, currentCount: nat, yearCount: array<nat>, out: seq<NameYearSeries>)
    returns (yearCount': array<nat>, out': seq<NameYearSeries>)
    requires YearSlot(r.year) == Some(slot) && currentName != Some(r.name)
    requires Built(g, currentName, currentCount, yearCount[..], out)
    ensures fresh(yearCount') && yearCount'.Length == YearSlots
    ensures Built(Grow(g, r), Some(r.name), r.count, yearCount'[..], out')
  {
    BuildOpens(g, r, slot, currentName, currentCount, yearCount[..], out);
    out' := out;
    if currentName.Some? && currentName.value != "" {
      out' := out + [NameYearSeries(currentName.value, currentCount, yearCount[..])];
    }
    yearCount' := Zeros();
    yearCount'[slot] := yearCount'[slot] + r.count;
    assert yearCount'[..] == NoCounts()[slot := r.count];
  }

  /** The scan as the source runs it. `name` is Python's loop-bound variable:
      `None` until the loop has run once. */
  method BuildNameCountsYearMatrix(data: seq<Record>) returns (res: Result<seq<NameYearSeries>>)
    ensures res == NameCountsYearMatrix(data)
  {
    var nameCountsInYear: seq<NameYearSeries> := [];
    var currentName: Option<string> := None;
    var currentCount: nat := 0;
    var yearCount := Zeros();
    var name: Option<string> := None;
    for n := 0 to |data|
      invariant fresh(yearCount) && yearCount.Length == YearSlots
      invariant Indexable(data[..n])
      invariant name == currentName
      invariant Built(Runs(data[..n]), currentName, currentCount, yearCount[..], nameCountsInYear)
    {
      name := Some(data[n].name);
      var slot := YearSlot(data[n].year);
      if slot.None? {
        // `year_count[year - 1910]` raises in either branch of the scan
        NotIndexableAt(data, n);
        return Err(IndexOutOfRange);
      }
      IndexableExtends(data, n);
      RunsGrowAt(data, n);
      if currentName == name {
        currentCount := JoinRun(data[n], slot.value, Runs(data[..n]), currentCount, yearCount, nameCountsInYear);
      } else {
        yearCount, nameCountsInYear :=
          OpenRun(data[n], slot.value, Runs(data[..n]), currentName, currentCount, yearCount, nameCountsInYear);
        currentName, currentCount := name, data[n].count;
      }
    }
    assert data[..|data|] == data;
    if name.None? {
      return Err(NameUnbound);
    }
    if currentName == name {
      BuildFlushes(Runs(data), currentName, currentCount, yearCount[..], nameCountsInYear);
      nameCountsInYear := nameCountsInYear + [NameYearSeries(currentName.value, currentCount, yearCount[..])];
    }
    return Ok(nameCountsInYear);
  }

  /** The failures of the scan: NameError exactly for no data; otherwise
      IndexError exactly when some year is outside 1805..2014, the years that
      numpy can index into the 105 slots. */
  lemma MatrixFailures(data: seq<Record>)
    ensures NameCountsYearMatrix(data) == Err(NameUnbound) <==> data == []
    ensures NameCountsYearMatrix(data) == Err(IndexOutOfRange) <==>
              exists i :: 0 <= i < |data| && (data[i].year < FirstYear - YearSlots || LastYear < data[i].year)
  {
  }

  /** Sum of the slots of a year vector. */
  function Sum(v: seq<nat>): nat
  {
    if v == [] then 0 else Sum(DropLast(v)) + Last(v)
  }

  lemma {:induction false} SumUpdate(v: seq<nat>, s: nat, c: nat)
    requires s < |v|
    ensures Sum(v[s := v[s] + c]) == Sum(v) + c
  {
    var w := v[s := v[s] + c];
    if s == |v| - 1 {
      assert DropLast(w) == DropLast(v);
    } else {
      SumUpdate(DropLast(v), s, c);
      assert DropLast(w) == DropLast(v)[s := v[s] + c];
    }
  }

  lemma {:induction false} SumOfZeros(v: seq<nat>)
    requires forall i :: 0 <= i < |v| ==> v[i] == 0
    ensures Sum(v) == 0
  {
    if v != [] {
      SumOfZeros(DropLast(v));
      assert Last(v) == v[|v| - 1];
    }
  }

  /** The year vector of indexable records holds all their counts. */
  lemma {:induction false} VectorSumIsTotal(rows: seq<Record>)
    requires Indexable(rows)
    ensures Sum(YearVector(rows)) == TotalCount(rows)
  {
    if rows == [] {
      SumOfZeros(NoCounts());
    } else {
      var p, r := DropLast(rows), Last(rows);
      assert Indexable(p) by {
        forall i | 0 <= i < |p|
          ensures YearSlot(p[i].year).Some?
        {
          assert p[i] == rows[i];
        }
      }
      VectorSumIsTotal(p);
      assert r == rows[|rows| - 1];
      SumUpdate(YearVector(p), YearSlot(r.year).value, r.count);
    }
  }

  /** The records of an emitted run are records of `data`. */
  lemma EmittedRowsAreRecords(data: seq<Record>, run: Run, x: Record)
    requires data != [] && run in Emitted(Runs(data)) && x in run.rows
    ensures x in data
  {
    var g := Runs(data);
    EmittedRunsAreRuns(g, run);
    var k :| 0 <= k < |g| && g[k] == run;
    RunRowsAreFlattened(g, k, x);
    RunsDecompose(data);
  }

  /** Every row of the matrix has the 105 slots of the years 1910..2014, and
      its total count is the sum of its slots. */
  lemma RowTotalsAreYearSums(data: seq<Record>)
    requires NameCountsYearMatrix(data).Ok?
    ensures var out := NameCountsYearMatrix(data).value;
      forall k :: 0 <= k < |out| ==> |out[k].years| == YearSlots && Sum(out[k].years) == out[k].total
  {
    var g := Emitted(Runs(data));
    var out := SeriesOf(g);
    forall k | 0 <= k < |out|
      ensures |out[k].years| == YearSlots && Sum(out[k].years) == out[k].total
    {
      var run := g[k];
      forall i | 0 <= i < |run.rows|
        ensures YearSlot(run.rows[i].year).Some?
      {
        EmittedRowsAreRecords(data, run, run.rows[i]);
        var j :| 0 <= j < |data| && data[j] == run.rows[i];
      }
      VectorSumIsTotal(run.rows);
    }
  }

  /** Sum of the total counts of the rows. */
  function MatrixTotal(out: seq<NameYearSeries>): nat
  {
    if out == [] then 0 else MatrixTotal(DropLast(out)) + Last(out).total
  }

  /** The rows of runs carry the counts of the records of the runs. */
  lemma {:induction false} SeriesConserveCounts(g: seq<Run>)
    ensures MatrixTotal(SeriesOf(g)) == TotalCount(Flatten(g))
  {
    if g != [] {
      SeriesConserveCounts(DropLast(g));
      DropLastAppend(SeriesOf(DropLast(g)), Series(Last(g)));
      TotalCountAppend(Flatten(DropLast(g)), Last(g).rows);
    }
  }

  /** With non-empty names no count is lost: the totals of the rows sum to
      the counts of all the records. */
  lemma MatrixConservesCounts(data: seq<Record>)
    requires NamesNonEmpty(data) && NameCountsYearMatrix(data).Ok?
    ensures MatrixTotal(NameCountsYearMatrix(data).value) == TotalCount(data)
  {
    EmittedAllWhenNamed(data);
    RunsDecompose(data);
    SeriesConserveCounts(Runs(data));
  }

  /** Every year lies within 1910..2014, where a record lands in the slot of
      its own year. */
  ghost predicate InRange(rows: seq<Record>)
  {
    forall i :: 0 <= i < |rows| ==> FirstYear <= rows[i].year <= LastYear
  }

  /** Within 1910..2014 the slot of a year holds the counts of that year. */
  lemma {:induction false} SlotCountsItsYear(rows: seq<Record>, s: nat)
    requires InRange(rows) && s < YearSlots
    ensures YearVector(rows)[s] == TotalCount(InYears(rows, {FirstYear + s}))
  {
    var y := FirstYear + s;
    if rows != [] {
      var p, r := DropLast(rows), Last(rows);
      assert InRange(p) by {
        forall i | 0 <= i < |p|
          ensures FirstYear <= p[i].year <= LastYear
        {
          assert p[i] == rows[i];
        }
      }
      SlotCountsItsYear(p, s);
      assert r == rows[|rows| - 1];
      assert YearSlot(r.year) == Some(r.year - FirstYear);
      if r.year == y {
        TotalCountSnoc(InYears(p, {y}), r);
      } else {
        assert InYears(p, {y}) + [] == InYears(p, {y});
      }
    }
  }

  /** On data sorted by name (as the caller sorts it), with non-empty names
      and years within 1910..2014, the matrix groups by name: each name of a
      record has exactly one row. */
  lemma SortedMatrixNames(data: seq<Record>)
    requires SortedByName(data) && NamesNonEmpty(data) && InRange(data) && data != []
    ensures NameCountsYearMatrix(data).Ok?
    ensures var out := NameCountsYearMatrix(data).value;
      && (forall j, k :: 0 <= j < k < |out| ==> out[j].name != out[k].name)
      && (forall n :: n in Names(data) <==> exists k :: 0 <= k < |out| && out[k].name == n)
  {
    var g := Runs(data);
    SortedIsGrouped(data);
    EmittedAllWhenNamed(data);
    var out := SeriesOf(g);
    assert NameCountsYearMatrix(data) == Ok(out);
    GroupedRunsHaveDistinctNames(data);
    RunNamesAreNames(data);
    forall j, k | 0 <= j < k < |out|
      ensures out[j].name != out[k].name
    {
      assert out[j].name == g[j].name && out[k].name == g[k].name;
    }
    forall n
      ensures n in Names(data) <==> exists k :: 0 <= k < |out| && out[k].name == n
    {
      RunNamesMembership(g, n);
      if n in Names(data) {
        var k :| 0 <= k < |g| && g[k].name == n;
        assert out[k].name == n;
      }
      if exists k :: 0 <= k < |out| && out[k].name == n {
        var k :| 0 <= k < |out| && out[k].name == n;
        assert g[k].name == n;
      }
    }
  }

  /** On data sorted by name, with non-empty names and years within
      1910..2014, the row of each name holds the counts of all its records, in
      total and year by year. */
  lemma SortedMatrixCounts(data: seq<Record>)
    requires SortedByName(data) && NamesNonEmpty(data) && InRange(data) && data != []
    ensures NameCountsYearMatrix(data).Ok?
    ensures var out := NameCountsYearMatrix(data).value;
      forall k :: 0 <= k < |out| ==>
        && out[k].total == TotalCount(WithName(data, out[k].name))
        && forall s :: 0 <= s < YearSlots ==>
             out[k].years[s] == TotalCount(InYears(WithName(data, out[k].name), {FirstYear + s}))
  {
    var g := Runs(data);
    SortedIsGrouped(data);
    EmittedAllWhenNamed(data);
    var out := SeriesOf(g);
    assert NameCountsYearMatrix(data) == Ok(out);
    GroupedRunsCollectTheirName(data);
    forall k | 0 <= k < |out|
      ensures out[k].total == TotalCount(WithName(data, out[k].name))
      ensures forall s :: 0 <= s < YearSlots ==>
                out[k].years[s] == TotalCount(InYears(WithName(data, out[k].name), {FirstYear + s}))
    {
      assert out[k] == Series(g[k]) && g[k].rows == WithName(data, g[k].name);
      assert g[k] in Emitted(g);
      EmittedRowsCountTheirYears(data, g[k]);
    }
  }

  /** The slots of the row of an emitted run count the run's records of each year. */
  lemma EmittedRowsCountTheirYears(data: seq<Record>, run: Run)
    requires data != [] && InRange(data) && run in Emitted(Runs(data))
    ensures forall s :: 0 <= s < YearSlots ==> Series(run).years[s] == TotalCount(InYears(run.rows, {FirstYear + s}))
  {
    assert InRange(run.rows) by {
      forall i | 0 <= i < |run.rows|
        ensures FirstYear <= run.rows[i].year <= LastYear
      {
        EmittedRowsAreRecords(data, run, run.rows[i]);
        var j :| 0 <= j < |data| && data[j] == run.rows[i];
      }
    }
    forall s | 0 <= s < YearSlots
      ensures Series(run).years[s] == TotalCount(InYears(run.rows, {FirstYear + s}))
    {
      SlotCountsItsYear(run.rows, s);
    }
  }

  /** The matrix and the merged table over the same records (every year
      within 1910..2014 and wanted) have the same rows, by name, and the total
      of each matrix row is the female plus the male count of its table row. */
  lemma MatrixAgreesWithMerge(data: seq<Record>, years: set<int>)
    requires data != [] && InRange(data) && forall i :: 0 <= i < |data| ==> data[i].year in years
    ensures NameCountsYearMatrix(data).Ok? && MergeByName.MergedByName(data, years).Ok?
    ensures var m, t := NameCountsYearMatrix(data).value, MergeByName.MergedByName(data, years).value;
      && |m| == |t|
      && forall k :: 0 <= k < |m| ==> m[k].name == t[k].name && m[k].total == t[k].female + t[k].male
  {
    InYearsAll(data, years);
    var g := Emitted(Runs(data));
    var m, t := SeriesOf(g), MergeByName.Summaries(g);
    assert NameCountsYearMatrix(data) == Ok(m);
    forall k | 0 <= k < |m|
      ensures m[k].name == t[k].name && m[k].total == t[k].female + t[k].male
    {
      SexCountsSplitTotal(g[k].rows);
    }
  }

  /** `a` and `b` hold the same records except, perhaps, for their sex. */
  ghost predicate SameButSex(a: seq<Record>, b: seq<Record>)
  {
    && |a| == |b|
    && forall i :: 0 <= i < |a| ==>
         a[i].state == b[i].state && a[i].year == b[i].year && a[i].name == b[i].name && a[i].count == b[i].count
  }

  /** `g` and `h` are the same runs except, perhaps, for the sex of their records. */
  ghost predicate SameRunsButSex(g: seq<Run>, h: seq<Run>)
  {
    |g| == |h| && forall k :: 0 <= k < |g| ==> g[k].name == h[k].name && SameButSex(g[k].rows, h[k].rows)
  }

  lemma SameButSexSnoc(a: seq<Record>, b: seq<Record>, r: Record, q: Record)
    requires SameButSex(a, b) && SameButSex([r], [q])
    ensures SameButSex(a + [r], b + [q])
  {
    assert [r][0] == r && [q][0] == q;
  }

  lemma SameButSexDropLast(a: seq<Record>, b: seq<Record>)
    requires SameButSex(a, b) && a != []
    ensures SameButSex(DropLast(a), DropLast(b)) && SameButSex([Last(a)], [Last(b)])
  {
    assert Last(a) == a[|a| - 1] && Last(b) == b[|b| - 1];
  }

  /** The row of a run does not depend on the sex of its records. */
  lemma {:induction false} SeriesIgnoresSex(a: seq<Record>, b: seq<Record>)
    requires SameButSex(a, b)
    ensures TotalCount(a) == TotalCount(b) && YearVector(a) == YearVector(b)
  {
    if a != [] {
      SameButSexDropLast(a, b);
      SeriesIgnoresSex(DropLast(a), DropLast(b));
      assert [Last(a)][0] == Last(a) && [Last(b)][0] == Last(b);
    }
  }

  lemma GrowIgnoresSex(g: seq<Run>, h: seq<Run>, r: Record, q: Record)
    requires SameRunsButSex(g, h) && SameButSex([r], [q])
    ensures SameRunsButSex(Grow(g, r), Grow(h, q))
  {
    assert [r][0] == r && [q][0] == q;
    var g', h' := Grow(g, r), Grow(h, q);
    if g != [] && Last(g).name == r.name {
      assert Last(g) == g[|g| - 1] && Last(h) == h[|h| - 1];
      SameButSexSnoc(Last(g).rows, Last(h).rows, r, q);
      forall k | 0 <= k < |g'|
        ensures g'[k].name == h'[k].name && SameButSex(g'[k].rows, h'[k].rows)
      {
        if k < |g| - 1 {
          assert g'[k] == g[k] && h'[k] == h[k];
        }
      }
    } else {
      if g != [] {
        assert Last(g) == g[|g| - 1] && Last(h) == h[|h| - 1];
      }
      forall k | 0 <= k < |g'|
        ensures g'[k].name == h'[k].name && SameButSex(g'[k].rows, h'[k].rows)
      {
        if k < |g| {
          assert g'[k] == g[k] && h'[k] == h[k];
        }
      }
    }
  }

  /** Records that differ only in sex form the same runs. */
  lemma {:induction false} RunsIgnoreSex(a: seq<Record>, b: seq<Record>)
    requires SameButSex(a, b)
    ensures SameRunsButSex(Runs(a), Runs(b))
  {
    if a != [] {
      SameButSexDropLast(a, b);
      RunsIgnoreSex(DropLast(a), DropLast(b));
      GrowIgnoresSex(Runs(DropLast(a)), Runs(DropLast(b)), Last(a), Last(b));
    }
  }

  lemma {:induction false} NamedSeriesIgnoreSex(g: seq<Run>, h: seq<Run>)
    requires SameRunsButSex(g, h)
    ensures SeriesOf(Named(g)) == SeriesOf(Named(h))
  {
    if g != [] {
      var front, back := DropLast(g), DropLast(h);
      assert SameRunsButSex(front, back) by {
        forall k | 0 <= k < |front|
          ensures front[k].name == back[k].name && SameButSex(front[k].rows, back[k].rows)
        {
          assert front[k] == g[k] && back[k] == h[k];
        }
      }
      NamedSeriesIgnoreSex(front, back);
      var x, y := Last(g), Last(h);
      assert x == g[|g| - 1] && y == h[|h| - 1];
      SeriesIgnoresSex(x.rows, y.rows);
      if x.name != "" {
        SeriesOfSnoc(Named(front), x);
        SeriesOfSnoc(Named(back), y);
      } else {
        assert Named(g) == Named(front) + [] && Named(h) == Named(back) + [];
      }
    }
  }

  /** The matrix ignores sex: records that differ only in their sex give the
      same matrix, or the same failure. */
  lemma MatrixIgnoresSex(a: seq<Record>, b: seq<Record>)
    requires SameButSex(a, b)
    ensures NameCountsYearMatrix(a) == NameCountsYearMatrix(b)
  {
    if a != [] && Indexable(a) {
      assert Indexable(b);
      var g, h := Runs(a), Runs(b);
      RunsIgnoreSex(a, b);
      var front, back := DropLast(g), DropLast(h);
      assert SameRunsButSex(front, back) by {
        forall k | 0 <= k < |front|
          ensures front[k].name == back[k].name && SameButSex(front[k].rows, back[k].rows)
        {
          assert front[k] == g[k] && back[k] == h[k];
        }
      }
      NamedSeriesIgnoreSex(front, back);
      assert Last(g) == g[|g| - 1] && Last(h) == h[|h| - 1];
      SeriesIgnoresSex(Last(g).rows, Last(h).rows);
      SeriesOfSnoc(Named(front), Last(g));
      SeriesOfSnoc(Named(back), Last(h));
    } else if a != [] {
      var i :| 0 <= i < |a| && YearSlot(a[i].year).None?;
      assert YearSlot(b[i].year).None?;
    }
  }
}
