/** `merging_by_name(data, years)`: one left-to-right scan over the records,
    sorted by name, that merges the records of each name in the wanted years
    over all states into a row [name, F count, M count, entropy]. */
module MergeByName {
  import opened Records
  import opened Grouping

  /** The gender-ambiguity score `-pF ln pF - pM ln pM` of a row. Only the
      zero branch is evaluated; `Binary` keeps the two counts the logarithms
      would be taken of. */
  datatype Entropy = Zero | Binary(female: nat, male: nat)

  /** A row of the merged table. */
  datatype NameSummary = NameSummary(name: string, female: nat, male: nat, entropy: Entropy)

  /** The entropy of a female/male split: zero exactly for a single-gender
      name; otherwise both ratios lie strictly between 0 and 1, so the
      divisions and the logarithms are defined. */
  function GenderEntropy(female: nat, male: nat): (e: Entropy)
    ensures e == Zero <==> female == 0 || male == 0
    ensures e.Binary? ==> 0 < e.female < e.female + e.male && 0 < e.male < e.female + e.male
    ensures e.Binary? ==> e.female == female && e.male == male
  {
    if female == 0 || male == 0 then Zero else Binary(female, male)
  }

  /** The row flushed for a finished run. */
  function Summarize(run: Run): NameSummary
  {
    var f, m := SexCount(run.rows, F), SexCount(run.rows, M);
    NameSummary(run.name, f, m, GenderEntropy(f, m))
  }

  /** One row per run, in order. */
  function Summaries(g: seq<Run>): (s: seq<NameSummary>)
    ensures |s| == |g|
    ensures forall k :: 0 <= k < |g| ==> s[k] == Summarize(g[k])
  {
    if g == [] then [] else Summaries(DropLast(g)) + [Summarize(Last(g))]
  }

  /** What `merging_by_name` returns: a NameError when no record is in the
      wanted years, otherwise one row per emitted run of the filtered records. */
  function MergedByName(data: seq<Record>, years: set<int>): (res: Result<seq<NameSummary>>)
    ensures res.Err? ==> res.error == NameUnbound
    ensures res.Ok? ==> res.value != [] && |res.value| <= |InYears(data, years)|
  {
    var rows := InYears(data, years);
    if rows == [] then Err(NameUnbound) else Ok(Summaries(Emitted(Runs(rows))))
  }

  /** The scan's variables after the records that formed the runs `g`:
      `out` holds the rows flushed so far, the other three the open run. */
  ghost predicate Scanned(g: seq<Run>, currentName: Option<string>, female: nat, male: nat, out: seq<NameSummary>)
  {
    && (g == [] ==> currentName == None && out == [])
    && (g != [] ==>
          && currentName == Some(Last(g).name)
          && female == SexCount(Last(g).rows, F)
          && male == SexCount(Last(g).rows, M)
          && out == Summaries(Named(DropLast(g))))
  }

  /** A record with the open run's name is added to its counts. */
  lemma ScanJoins(g: seq<Run>, r: Record, currentName: Option<string>, female: nat, male: nat, out: seq<NameSummary>)
    requires Scanned(g, currentName, female, male, out) && currentName == Some(r.name)
    ensures Scanned(Grow(g, r), currentName,
                    female + (if r.sex == F then r.count else 0),
                    male + (if r.sex == M then r.count else 0), out)
  {
    DropLastAppend(DropLast(g), Run(r.name, Last(g).rows + [r]));
    DropLastAppend(Last(g).rows, r);
  }

  /** A record with another name flushes the open run, if its name is truthy,
      and opens a run with its own count. */
  lemma ScanOpens(g: seq<Run>, r: Record, currentName: Option<string>, female: nat, male: nat, out: seq<NameSummary>)
    requires Scanned(g, currentName, female, male, out) && currentName != Some(r.name)
    ensures Scanned(Grow(g, r), Some(r.name),
                    if r.sex == F then r.count else 0,
                    if r.sex == M then r.count else 0,
                    if currentName.Some? && currentName.value != ""
                    then out + [NameSummary(currentName.value, female, male, GenderEntropy(female, male))]
                    else out)
  {
    assert Grow(g, r) == g + [Run(r.name, [r])];
    DropLastAppend(g, Run(r.name, [r]));
    DropLastAppend([], r);
    if g != [] {
      DropLastAppend(DropLast(g), Last(g));
      assert DropLast(g) + [Last(g)] == g;
      DropLastAppend(Summaries(Named(DropLast(g))), Summarize(Last(g)));
    }
  }

  /** The post-loop flush appends the open run: the table is complete. */
  lemma ScanFlushes(g: seq<Run>, currentName: Option<string>, female: nat, male: nat, out: seq<NameSummary>)
    requires Scanned(g, currentName, female, male, out) && g != []
    ensures out + [NameSummary(currentName.value, female, male, GenderEntropy(female, male))] == Summaries(Emitted(g))
  {
    DropLastAppend(Named(DropLast(g)), Last(g));
  }

  /** The scan's step for a record `r` in the wanted years with the open
      run's name: its count is added to the counter of its sex. */
  method JoinRun(r: Record, ghost g: seq<Run>, female: nat, male: nat, ghost out: seq<NameSummary>)
    returns (female': nat, male': nat)
    requires Scanned(g, Some(r.name), female, male, out)
    ensures Scanned(Grow(g, r), Some(r.name), female', male', out)
  {
    ScanJoins(g, r, Some(r.name), female, male, out);
    female', male' := female, male;
    if r.sex == F {
      female' := female + r.count;
    }
    if r.sex == M {
      male' := male + r.count;
    }
  }

  /** The scan's step for a record `r` in the wanted years with another name
      than the open run's: the open run is appended to the table when its name
      is truthy, and `r` opens a run with its own count. */
  method OpenRun(r: Record, ghost g: seq<Run>, currentName: Option<string>, female: nat, male: nat, out: seq<NameSummary>)
    returns (female': nat, male': nat, out': seq<NameSummary>)
    requires Scanned(g, currentName, female, male, out) && currentName != Some(r.name)
    ensures Scanned(Grow(g, r), Some(r.name), female', male', out')
  {
    ScanOpens(g, r, currentName, female, male, out);
    out' := out;
    if currentName.Some? && currentName.value != "" {
      out' := out + [NameSummary(currentName.value, female, male, GenderEntropy(female, male))];
    }
    if r.sex == F {
      female', male' := r.count, 0;
    }
    if r.sex == M {
      female', male' := 0, r.count;
    }
  }

  /** The scan as the source runs it. `name` is Python's loop-bound variable:
      `None` until a record passes the year filter. */
  method MergingByName(data: seq<Record>, years: set<int>) returns (res: Result<seq<NameSummary>>)
    ensures res == MergedByName(data, years)
  {
    var nameCounts: seq<NameSummary> := [];
    var currentName: Option<string> := None;
    var femaleCount: nat := 0;
    var maleCount: nat := 0;
    var name: Option<string> := None;
    for n := 0 to |data|
      invariant name == currentName
      invariant Scanned(Runs(InYears(data[..n], years)), currentName, femaleCount, maleCount, nameCounts)
    {
      ghost var before := InYears(data[..n], years);
      assert data[..n + 1] == data[..n] + [data[n]];
      InYearsSnoc(data[..n], data[n], years);
      if data[n].year in years {
        assert InYears(data[..n + 1], years) == before + [data[n]];
        RunsGrow(before, data[n]);
        name := Some(data[n].name);
        if currentName == name {
          femaleCount, maleCount := JoinRun(data[n], Runs(before), femaleCount, maleCount, nameCounts);
        } else {
          femaleCount, maleCount, nameCounts := OpenRun(data[n], Runs(before), currentName, femaleCount, maleCount, nameCounts);
          currentName := name;
        }
      } else {
        assert InYears(data[..n + 1], years) == before;
      }
    }
    assert data[..|data|] == data;
    if name.None? {
      return Err(NameUnbound);
    }
    if currentName == name {
      ScanFlushes(Runs(InYears(data, years)), currentName, femaleCount, maleCount, nameCounts);
      nameCounts := nameCounts + [NameSummary(currentName.value, femaleCount, maleCount, GenderEntropy(femaleCount, maleCount))];
    }
    return Ok(nameCounts);
  }

  /** Sum of the female counts of the rows. */
  function FemaleTotal(out: seq<NameSummary>): nat
  {
    if out == [] then 0 else FemaleTotal(DropLast(out)) + Last(out).female
  }

  /** Sum of the male counts of the rows. */
  function MaleTotal(out: seq<NameSummary>): nat
  {
    if out == [] then 0 else MaleTotal(DropLast(out)) + Last(out).male
  }

  /** The rows of runs carry the sex counts of the records of the runs. */
  lemma {:induction false} SummariesConserveCounts(g: seq<Run>)
    ensures FemaleTotal(Summaries(g)) == SexCount(Flatten(g), F)
    ensures MaleTotal(Summaries(g)) == SexCount(Flatten(g), M)
  {
    if g != [] {
      SummariesConserveCounts(DropLast(g));
      DropLastAppend(Summaries(DropLast(g)), Summarize(Last(g)));
      SexCountAppend(Flatten(DropLast(g)), Last(g).rows, F);
      SexCountAppend(Flatten(DropLast(g)), Last(g).rows, M);
    }
  }

  /** The scan raises NameError exactly when no record is in the wanted years. */
  lemma MergeFailsOnlyWithoutRecords(data: seq<Record>, years: set<int>)
    ensures MergedByName(data, years).Err? <==> forall i :: 0 <= i < |data| ==> data[i].year !in years
    ensures MergedByName(data, years).Err? ==> MergedByName(data, years).error == NameUnbound
  {
    InYearsEmpty(data, years);
  }

  /** The last group is always emitted: the table ends with the row of the
      run of the last record in the wanted years. */
  lemma FinalGroupEmitted(data: seq<Record>, years: set<int>)
    requires InYears(data, years) != []
    ensures var rows, res := InYears(data, years), MergedByName(data, years);
      && res.Ok? && res.value != []
      && Last(res.value) == Summarize(Last(Runs(rows)))
      && Last(res.value).name == Last(rows).name
  {
    var g := Runs(InYears(data, years));
    var h := Emitted(g);
    assert Summaries(h)[|h| - 1] == Summarize(h[|h| - 1]);
  }

  /** Records outside the wanted years change nothing. */
  lemma OutOfRangeRecordIgnored(a: seq<Record>, r: Record, b: seq<Record>, years: set<int>)
    requires r.year !in years
    ensures MergedByName(a + [r] + b, years) == MergedByName(a + b, years)
  {
    InYearsAppend(a + [r], b, years);
    InYearsAppend(a, [r], years);
    InYearsAppend(a, b, years);
    InYearsSnoc([], r, years);
    assert [] + [r] == [r];
    assert InYears([r], years) == [];
    assert InYears(a + [r], years) == InYears(a, years);
  }

  /** With non-empty names no count is lost: the female and male columns sum
      to the female and male counts of the records in the wanted years, and
      together to all their counts. */
  lemma MergeConservesCounts(data: seq<Record>, years: set<int>)
    requires NamesNonEmpty(data) && InYears(data, years) != []
    ensures var rows, out := InYears(data, years), MergedByName(data, years).value;
      && FemaleTotal(out) == SexCount(rows, F)
      && MaleTotal(out) == SexCount(rows, M)
      && FemaleTotal(out) + MaleTotal(out) == TotalCount(rows)
  {
    var rows := InYears(data, years);
    InYearsKeepsNames(data, years);
    EmittedAllWhenNamed(rows);
    RunsDecompose(rows);
    SummariesConserveCounts(Runs(rows));
    SexCountsSplitTotal(rows);
  }

  /** With non-empty names the table has one row per maximal run of records
      in the wanted years (whichever way such runs are found), one per name
      change plus one, and neighbouring rows have different names. */
  lemma OneRowPerMaximalRun(data: seq<Record>, years: set<int>, g: seq<Run>)
    requires NamesNonEmpty(data) && InYears(data, years) != []
    requires IsRunDecomposition(InYears(data, years), g)
    ensures var rows, out := InYears(data, years), MergedByName(data, years).value;
      && out == Summaries(g)
      && |out| == NameChanges(rows) + 1
      && forall k :: 0 < k < |out| ==> out[k - 1].name != out[k].name
  {
    var rows := InYears(data, years);
    InYearsKeepsNames(data, years);
    EmittedAllWhenNamed(rows);
    RunDecompositionUnique(rows, g);
    RunCount(rows);
  }

  /** Runs with distinct names give rows with distinct names. */
  lemma SummariesDistinct(g: seq<Run>)
    requires DistinctNames(g)
    ensures var out := Summaries(g);
      forall j, k :: 0 <= j < k < |out| ==> out[j].name != out[k].name
  {
    var out := Summaries(g);
    forall j, k | 0 <= j < k < |out|
      ensures out[j].name != out[k].name
    {
      assert out[j].name == g[j].name && out[k].name == g[k].name;
    }
  }

  /** The rows are named by the names of the runs. */
  lemma SummariesNamed(g: seq<Run>, names: set<string>, out: seq<NameSummary>)
    requires RunNames(g) == names && out == Summaries(g)
    ensures forall n :: n in names <==> exists k :: 0 <= k < |out| && out[k].name == n
  {
    forall n
      ensures n in names <==> exists k :: 0 <= k < |out| && out[k].name == n
    {
      RunNamesMembership(g, n);
      if n in names {
        var k :| 0 <= k < |g| && g[k].name == n;
        assert out[k].name == n;
      }
      if exists k :: 0 <= k < |out| && out[k].name == n {
        var k :| 0 <= k < |out| && out[k].name == n;
        assert g[k].name == n;
      }
    }
  }

  /** Runs that collect all records of their name give rows with the female
      and male counts of all those records. */
  lemma SummariesCollect(rows: seq<Record>, g: seq<Run>)
    requires CollectsTheirName(rows, g)
    ensures var out := Summaries(g);
      forall k :: 0 <= k < |out| ==>
        && out[k].female == SexCount(WithName(rows, out[k].name), F)
        && out[k].male == SexCount(WithName(rows, out[k].name), M)
  {
    var out := Summaries(g);
    forall k | 0 <= k < |out|
      ensures out[k].female == SexCount(WithName(rows, out[k].name), F)
      ensures out[k].male == SexCount(WithName(rows, out[k].name), M)
    {
      assert out[k] == Summarize(g[k]);
    }
  }

  /** The rows of the runs of grouped records with non-empty names: one row
      per name, with the female and male counts of all its records. */
  lemma GroupedSummaries(rows: seq<Record>, out: seq<NameSummary>)
    requires Grouped(rows) && out == Summaries(Runs(rows))
    ensures forall j, k :: 0 <= j < k < |out| ==> out[j].name != out[k].name
    ensures forall n :: n in Names(rows) <==> exists k :: 0 <= k < |out| && out[k].name == n
    ensures forall k :: 0 <= k < |out| ==>
      && out[k].female == SexCount(WithName(rows, out[k].name), F)
      && out[k].male == SexCount(WithName(rows, out[k].name), M)
  {
    var g := Runs(rows);
    GroupedRunsHaveDistinctNames(rows);
    SummariesDistinct(g);
    RunNamesAreNames(rows);
    SummariesNamed(g, Names(rows), out);
    GroupedRunsCollectTheirName(rows);
    SummariesCollect(rows, g);
  }

  /** On data sorted by name (as the caller sorts it) the scan groups by name:
      each name of a record in the wanted years has exactly one row, holding
      the female and male counts of all its records in those years, and its
      entropy is zero exactly when the name is single-gender. */
  lemma SortedMergeGroupsByName(data: seq<Record>, years: set<int>)
    requires SortedByName(data) && NamesNonEmpty(data) && InYears(data, years) != []
    ensures var rows, out := InYears(data, years), MergedByName(data, years).value;
      && (forall j, k :: 0 <= j < k < |out| ==> out[j].name != out[k].name)
      && (forall n :: n in Names(rows) <==> exists k :: 0 <= k < |out| && out[k].name == n)
      && (forall k :: 0 <= k < |out| ==>
            && out[k].female == SexCount(WithName(rows, out[k].name), F)
            && out[k].male == SexCount(WithName(rows, out[k].name), M)
            && (out[k].entropy == Zero <==> out[k].female == 0 || out[k].male == 0))
  {
    var rows := InYears(data, years);
    InYearsKeepsNames(data, years);
    InYearsKeepsSorted(data, years);
    SortedIsGrouped(rows);
    EmittedAllWhenNamed(rows);
    GroupedSummaries(rows, MergedByName(data, years).value);
  }
}
