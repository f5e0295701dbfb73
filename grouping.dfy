/** Maximal runs of consecutive records with the same name: the groups both
    scans of BabyNames.py form, and the groups they emit. */
module Grouping {
  import opened Records

  /** A run of consecutive records sharing `name`. */
  datatype Run = Run(name: string, rows: seq<Record>)

  ghost predicate WellFormedRun(run: Run)
  {
    run.rows != [] && forall i :: 0 <= i < |run.rows| ==> run.rows[i].name == run.name
  }

  /** The records of the runs of `g`, in order. */
  function Flatten(g: seq<Run>): seq<Record>
  {
    if g == [] then [] else Flatten(DropLast(g)) + Last(g).rows
  }

  /** `g` cuts `rs` into non-empty runs of one name each, with neighbouring
      runs named differently: the runs are maximal. */
  ghost predicate IsRunDecomposition(rs: seq<Record>, g: seq<Run>)
  {
    && Flatten(g) == rs
    && (forall k :: 0 <= k < |g| ==> WellFormedRun(g[k]))
    && (forall k :: 0 < k < |g| ==> g[k - 1].name != g[k].name)
  }

  /** One step of the scan of the groups: the record `r` joins the open (last)
      run when it has the run's name and opens a new run otherwise. */
  function Grow(g: seq<Run>, r: Record): (h: seq<Run>)
    ensures h != [] && Last(h).name == r.name
  {
    if g != [] && Last(g).name == r.name then DropLast(g) + [Run(r.name, Last(g).rows + [r])]
    else g + [Run(r.name, [r])]
  }

  /** The scan of the groups over all of `rs`. */
  function Runs(rs: seq<Record>): (g: seq<Run>)
    ensures |g| <= |rs|
    ensures g == [] <==> rs == []
    ensures g != [] ==> Last(g).name == Last(rs).name
  {
    if rs == [] then [] else Grow(Runs(DropLast(rs)), Last(rs))
  }

  lemma RunsGrow(p: seq<Record>, r: Record)
    ensures Runs(p + [r]) == Grow(Runs(p), r)
  {
    DropLastAppend(p, r);
  }

  lemma RunsGrowAt(rs: seq<Record>, n: nat)
    requires n < |rs|
    ensures Runs(rs[..n + 1]) == Grow(Runs(rs[..n]), rs[n])
  {
    assert rs[..n + 1] == rs[..n] + [rs[n]];
    RunsGrow(rs[..n], rs[n]);
  }

  /** How `Runs` grows by one record (both cases of `Grow`, spelt out). */
  lemma RunsSnoc(p: seq<Record>, r: Record)
    ensures var g, h := Runs(p), Runs(p + [r]);
      if g != [] && Last(g).name == r.name
      then h == DropLast(g) + [Run(r.name, Last(g).rows + [r])]
      else h == g + [Run(r.name, [r])]
  {
    RunsGrow(p, r);
  }

  lemma FlattenSnoc(g: seq<Run>, x: Run)
    ensures Flatten(g + [x]) == Flatten(g) + x.rows
  {
    DropLastAppend(g, x);
  }

  /** A record with the last run's name extends that run. */
  lemma ExtendLastRun(p: seq<Record>, g: seq<Run>, r: Record)
    requires IsRunDecomposition(p, g) && g != [] && Last(g).name == r.name
    ensures IsRunDecomposition(p + [r], DropLast(g) + [Run(r.name, Last(g).rows + [r])])
  {
    var front, last := DropLast(g), Last(g);
    var x := Run(r.name, last.rows + [r]);
    var h := front + [x];
    assert front + [last] == g;
    FlattenSnoc(front, last);
    FlattenSnoc(front, x);
    assert Flatten(h) == p + [r];
    assert WellFormedRun(last);
    assert WellFormedRun(x);
    assert forall k :: 0 <= k < |front| ==> h[k] == g[k];
    assert forall k :: 0 <= k < |h| ==> WellFormedRun(h[k]);
    assert forall k :: 0 < k < |h| ==> h[k - 1].name != h[k].name by {
      forall k | 0 < k < |h|
        ensures h[k - 1].name != h[k].name
      {
        assert h[k - 1] == g[k - 1] && h[k].name == g[k].name;
      }
    }
  }

  /** A record with another name than the last run's opens a new run. */
  lemma OpenNewRun(p: seq<Record>, g: seq<Run>, r: Record)
    requires IsRunDecomposition(p, g) && (g == [] || Last(g).name != r.name)
    ensures IsRunDecomposition(p + [r], g + [Run(r.name, [r])])
  {
    var x := Run(r.name, [r]);
    var h := g + [x];
    FlattenSnoc(g, x);
    assert WellFormedRun(x);
    assert forall k :: 0 <= k < |g| ==> h[k] == g[k];
    assert forall k :: 0 <= k < |h| ==> WellFormedRun(h[k]);
    assert forall k :: 0 < k < |h| ==> h[k - 1].name != h[k].name by {
      forall k | 0 < k < |h|
        ensures h[k - 1].name != h[k].name
      {
        assert h[k - 1] == g[k - 1];
        if k == |g| {
          assert g[k - 1] == Last(g);
        } else {
          assert h[k] == g[k];
        }
      }
    }
  }

  /** `Runs` computes the maximal runs. */
  lemma {:induction false} RunsDecompose(rs: seq<Record>)
    ensures IsRunDecomposition(rs, Runs(rs))
  {
    if rs != [] {
      var p, r := DropLast(rs), Last(rs);
      var g := Runs(p);
      RunsDecompose(p);
      RunsSnoc(p, r);
      assert p + [r] == rs;
      if g != [] && Last(g).name == r.name {
        ExtendLastRun(p, g, r);
      } else {
        OpenNewRun(p, g, r);
      }
    }
  }

  /** The last record of a decomposed sequence is the last record of its last run. */
  lemma LastRecordOfLastRun(rs: seq<Record>, g: seq<Run>)
    requires IsRunDecomposition(rs, g) && g != []
    ensures rs != [] && WellFormedRun(Last(g))
    ensures Flatten(DropLast(g)) + Last(g).rows == rs
    ensures Last(rs) == Last(Last(g).rows)
    ensures DropLast(rs) == Flatten(DropLast(g)) + DropLast(Last(g).rows)
  {
    var front, last := DropLast(g), Last(g);
    assert g == front + [last];
    assert WellFormedRun(last);
    FlattenSnoc(front, last);
    var a, b := Flatten(front), last.rows;
    assert b == DropLast(b) + [Last(b)];
    assert rs == (a + DropLast(b)) + [Last(b)];
    DropLastAppend(a + DropLast(b), Last(b));
  }

  /** Taking away a last run of one record leaves a decomposition of the rest. */
  lemma DropSingletonRun(rs: seq<Record>, g: seq<Run>)
    requires IsRunDecomposition(rs, g) && g != [] && |Last(g).rows| == 1
    ensures IsRunDecomposition(DropLast(rs), DropLast(g))
  {
    LastRecordOfLastRun(rs, g);
    var front := DropLast(g);
    assert forall k :: 0 <= k < |front| ==> front[k] == g[k];
  }

  /** Taking the last record off a longer last run leaves a decomposition of the rest. */
  lemma ShortenLastRun(rs: seq<Record>, g: seq<Run>)
    requires IsRunDecomposition(rs, g) && g != [] && |Last(g).rows| > 1
    ensures IsRunDecomposition(DropLast(rs), DropLast(g) + [Run(Last(g).name, DropLast(Last(g).rows))])
  {
    LastRecordOfLastRun(rs, g);
    var front, last := DropLast(g), Last(g);
    var shorter := Run(last.name, DropLast(last.rows));
    var h := front + [shorter];
    FlattenSnoc(front, shorter);
    assert WellFormedRun(shorter);
    assert forall k :: 0 <= k < |front| ==> h[k] == g[k];
    assert forall k :: 0 <= k < |h| ==> WellFormedRun(h[k]);
    assert forall k :: 0 < k < |h| ==> h[k - 1].name != h[k].name by {
      forall k | 0 < k < |h|
        ensures h[k - 1].name != h[k].name
      {
        assert h[k - 1] == g[k - 1] && h[k].name == g[k].name;
      }
    }
  }

  /** A last run of one record is the run that record opens. */
  lemma SingletonRunIsGrown(rs: seq<Record>, g: seq<Run>)
    requires IsRunDecomposition(rs, g) && g != [] && |Last(g).rows| == 1
    ensures rs != [] && g == Grow(DropLast(g), Last(rs))
  {
    LastRecordOfLastRun(rs, g);
    var front, last, r := DropLast(g), Last(g), Last(rs);
    assert last.rows == [r] by {
      assert last.rows == [last.rows[0]];
    }
    assert last.name == r.name by {
      assert last.rows[0].name == last.name;
    }
    if front != [] {
      assert Last(front) == g[|g| - 2] && last == g[|g| - 1];
    }
    assert g == front + [last];
  }

  /** A longer last run is the run without its last record, extended by it. */
  lemma LongerRunIsGrown(rs: seq<Record>, g: seq<Run>)
    requires IsRunDecomposition(rs, g) && g != [] && |Last(g).rows| > 1
    ensures rs != [] && g == Grow(DropLast(g) + [Run(Last(g).name, DropLast(Last(g).rows))], Last(rs))
  {
    LastRecordOfLastRun(rs, g);
    var front, last, r := DropLast(g), Last(g), Last(rs);
    var shorter := Run(last.name, DropLast(last.rows));
    DropLastAppend(front, shorter);
    assert r.name == last.name by {
      assert last.rows[|last.rows| - 1] == r;
    }
    assert DropLast(last.rows) + [r] == last.rows;
    assert g == front + [last];
  }

  /** The maximal runs are unique: any decomposition into maximal runs is the
      one `Runs` computes. */
  lemma {:induction false} RunDecompositionUnique(rs: seq<Record>, g: seq<Run>)
    requires IsRunDecomposition(rs, g)
    ensures g == Runs(rs)
    decreases |rs|
  {
    if g != [] {
      LastRecordOfLastRun(rs, g);
      assert DropLast(rs) + [Last(rs)] == rs;
      RunsGrow(DropLast(rs), Last(rs));
      if |Last(g).rows| == 1 {
        DropSingletonRun(rs, g);
        RunDecompositionUnique(DropLast(rs), DropLast(g));
        SingletonRunIsGrown(rs, g);
      } else {
        ShortenLastRun(rs, g);
        RunDecompositionUnique(DropLast(rs), DropLast(g) + [Run(Last(g).name, DropLast(Last(g).rows))]);
        LongerRunIsGrown(rs, g);
      }
    }
  }

  /** `Runs` is characterised by the maximal-run decomposition. */
  lemma RunsCharacterized(rs: seq<Record>, g: seq<Run>)
    ensures IsRunDecomposition(rs, g) <==> g == Runs(rs)
  {
    RunsDecompose(rs);
    if IsRunDecomposition(rs, g) {
      RunDecompositionUnique(rs, g);
    }
  }

  /** The number of places where the name differs from the previous record's. */
  function NameChanges(rs: seq<Record>): nat
  {
    if |rs| < 2 then 0
    else NameChanges(DropLast(rs)) + (if Last(DropLast(rs)).name != Last(rs).name then 1 else 0)
  }

  /** One run per name change, plus the first. */
  lemma {:induction false} RunCount(rs: seq<Record>)
    requires rs != []
    ensures |Runs(rs)| == NameChanges(rs) + 1
  {
    var p, r := DropLast(rs), Last(rs);
    if p != [] {
      RunCount(p);
      var g := Runs(p);
      assert Runs(rs) == Grow(g, r);
      assert Last(g).name == Last(p).name;
      assert |Grow(g, r)| == |g| + (if Last(p).name == r.name then 0 else 1);
    }
  }

  /** The names of the runs of `g`. */
  function RunNames(g: seq<Run>): set<string>
  {
    if g == [] then {} else RunNames(DropLast(g)) + {Last(g).name}
  }

  lemma RunNamesMembership(g: seq<Run>, n: string)
    ensures n in RunNames(g) <==> exists k :: 0 <= k < |g| && g[k].name == n
  {
    if g != [] {
      RunNamesMembership(DropLast(g), n);
      if exists k :: 0 <= k < |g| && g[k].name == n {
        var k :| 0 <= k < |g| && g[k].name == n;
        if k < |g| - 1 {
          assert DropLast(g)[k].name == n;
        }
      }
    }
  }

  /** The runs are named by exactly the names of the records. */
  lemma {:induction false} RunNamesAreNames(rs: seq<Record>)
    ensures RunNames(Runs(rs)) == Names(rs)
  {
    if rs != [] {
      var p, r := DropLast(rs), Last(rs);
      var g := Runs(p);
      RunNamesAreNames(p);
      RunsSnoc(p, r);
      assert p + [r] == rs;
      if g != [] && Last(g).name == r.name {
        var x := Run(r.name, Last(g).rows + [r]);
        DropLastAppend(DropLast(g), x);
        assert RunNames(g) == RunNames(DropLast(g)) + {r.name};
      } else {
        DropLastAppend(g, Run(r.name, [r]));
      }
    }
  }

  /** No two runs of `g` share a name. */
  ghost predicate DistinctNames(g: seq<Run>)
  {
    forall j, k :: 0 <= j < k < |g| ==> g[j].name != g[k].name
  }

  lemma DistinctWithLastReplaced(g: seq<Run>, x: Run)
    requires DistinctNames(g) && g != [] && x.name == Last(g).name
    ensures DistinctNames(DropLast(g) + [x])
  {
    var h := DropLast(g) + [x];
    forall j, k | 0 <= j < k < |h|
      ensures h[j].name != h[k].name
    {
      assert h[j] == g[j] && h[k].name == g[k].name;
    }
  }

  lemma DistinctWithNewName(g: seq<Run>, x: Run)
    requires DistinctNames(g) && x.name !in RunNames(g)
    ensures DistinctNames(g + [x])
  {
    var h := g + [x];
    RunNamesMembership(g, x.name);
    forall j, k | 0 <= j < k < |h|
      ensures h[j].name != h[k].name
    {
      assert h[j] == g[j];
      if k < |g| {
        assert h[k] == g[k];
      }
    }
  }

  /** When records with the same name are consecutive, no two runs share a name. */
  lemma {:induction false} GroupedRunsHaveDistinctNames(rs: seq<Record>)
    requires Grouped(rs)
    ensures DistinctNames(Runs(rs))
  {
    if rs != [] {
      var p, r := DropLast(rs), Last(rs);
      var g := Runs(p);
      GroupedDropLast(rs);
      GroupedRunsHaveDistinctNames(p);
      assert p + [r] == rs;
      RunsSnoc(p, r);
      if g != [] && Last(g).name == r.name {
        DistinctWithLastReplaced(g, Run(r.name, Last(g).rows + [r]));
      } else {
        if g != [] {
          GroupedNewName(p, r);
        }
        RunNamesAreNames(p);
        DistinctWithNewName(g, Run(r.name, [r]));
      }
    }
  }

  /** Every run of `g` holds all the records of `rs` with its name. */
  ghost predicate CollectsTheirName(rs: seq<Record>, g: seq<Run>)
  {
    forall k :: 0 <= k < |g| ==> g[k].rows == WithName(rs, g[k].name)
  }

  lemma CollectsWhenJoining(p: seq<Record>, g: seq<Run>, r: Record)
    requires CollectsTheirName(p, g) && DistinctNames(g) && g != [] && Last(g).name == r.name
    ensures CollectsTheirName(p + [r], DropLast(g) + [Run(r.name, Last(g).rows + [r])])
  {
    var h := DropLast(g) + [Run(r.name, Last(g).rows + [r])];
    forall k | 0 <= k < |h|
      ensures h[k].rows == WithName(p + [r], h[k].name)
    {
      WithNameSnoc(p, r, h[k].name);
      if k < |g| - 1 {
        assert h[k] == g[k] && g[k].name != g[|g| - 1].name;
      } else {
        assert Last(g) == g[k];
      }
    }
  }

  lemma CollectsWhenOpening(p: seq<Record>, g: seq<Run>, r: Record)
    requires CollectsTheirName(p, g) && r.name !in Names(p) && RunNames(g) == Names(p)
    ensures CollectsTheirName(p + [r], g + [Run(r.name, [r])])
  {
    var h := g + [Run(r.name, [r])];
    WithAbsentName(p, r.name);
    RunNamesMembership(g, r.name);
    forall k | 0 <= k < |h|
      ensures h[k].rows == WithName(p + [r], h[k].name)
    {
      WithNameSnoc(p, r, h[k].name);
      if k < |g| {
        assert h[k] == g[k];
      } else {
        assert [] + [r] == [r];
      }
    }
  }

  /** When records with the same name are consecutive, each run holds every
      record with its name: grouping by runs is grouping by name. */
  lemma {:induction false} GroupedRunsCollectTheirName(rs: seq<Record>)
    requires Grouped(rs)
    ensures CollectsTheirName(rs, Runs(rs))
  {
    if rs != [] {
      var p, r := DropLast(rs), Last(rs);
      var g := Runs(p);
      GroupedDropLast(rs);
      GroupedRunsCollectTheirName(p);
      assert p + [r] == rs;
      RunsSnoc(p, r);
      if g != [] && Last(g).name == r.name {
        GroupedRunsHaveDistinctNames(p);
        CollectsWhenJoining(p, g, r);
      } else {
        if g != [] {
          GroupedNewName(p, r);
        }
        RunNamesAreNames(p);
        CollectsWhenOpening(p, g, r);
      }
    }
  }

  /** The runs that pass the scans' `if current_name:` test: those whose name
      is not the empty string. */
  function Named(g: seq<Run>): (h: seq<Run>)
    ensures |h| <= |g|
  {
    if g == [] then []
    else Named(DropLast(g)) + (if Last(g).name != "" then [Last(g)] else [])
  }

  /** The runs a scan emits: inside the loop every finished run that passes
      `if current_name:`, after the loop the last run unconditionally. */
  function Emitted(g: seq<Run>): (h: seq<Run>)
    requires g != []
    ensures h != [] && Last(h) == Last(g)
  {
    Named(DropLast(g)) + [Last(g)]
  }

  lemma {:induction false} NamedKeepsNamedRuns(g: seq<Run>)
    requires forall k :: 0 <= k < |g| ==> g[k].name != ""
    ensures Named(g) == g
  {
    if g != [] {
      var p := DropLast(g);
      forall k | 0 <= k < |p|
        ensures p[k].name != ""
      {
        assert p[k] == g[k];
      }
      NamedKeepsNamedRuns(p);
      assert Last(g) == g[|g| - 1];
      assert Named(g) == p + [Last(g)];
      assert p + [Last(g)] == g;
    }
  }

  /** Without empty names every run is emitted. */
  lemma EmittedAllWhenNamed(rs: seq<Record>)
    requires rs != [] && NamesNonEmpty(rs)
    ensures Emitted(Runs(rs)) == Runs(rs)
  {
    var g := Runs(rs);
    RunsDecompose(rs);
    forall k | 0 <= k < |g|
      ensures g[k].name != ""
    {
      RunNamesMembership(g, g[k].name);
      RunNamesAreNames(rs);
      NamesMembership(rs, g[k].name);
    }
    NamedKeepsNamedRuns(DropLast(g));
  }

  /** Every record of a run is a record of the flattened sequence. */
  lemma {:induction false} RunRowsAreFlattened(g: seq<Run>, k: nat, x: Record)
    requires k < |g| && x in g[k].rows
    ensures x in Flatten(g)
  {
    FlattenSnoc(DropLast(g), Last(g));
    assert DropLast(g) + [Last(g)] == g;
    if k < |g| - 1 {
      assert g[k] == DropLast(g)[k];
      RunRowsAreFlattened(DropLast(g), k, x);
    }
  }

  /** The runs emitted are runs of `g`. */
  lemma {:induction false} NamedRunsAreRuns(g: seq<Run>, x: Run)
    requires x in Named(g)
    ensures x in g
  {
    if g != [] {
      assert g == DropLast(g) + [Last(g)];
      if x in Named(DropLast(g)) {
        NamedRunsAreRuns(DropLast(g), x);
      }
    }
  }

  lemma EmittedRunsAreRuns(g: seq<Run>, x: Run)
    requires g != [] && x in Emitted(g)
    ensures x in g
  {
    assert g == DropLast(g) + [Last(g)];
    if x in Named(DropLast(g)) {
      NamedRunsAreRuns(DropLast(g), x);
    }
  }
}
