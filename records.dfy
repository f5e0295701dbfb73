/** The loaded data set of the baby-name statistics: one record per
    (state, sex, year, name, count) line of the input files, the outcome of a
    scan (a value or the Python exception it raises), and the aggregates over
    record sequences that the scans are specified by. All folds are defined on
    the last element, in the order a left-to-right scan meets the records. */
module Records {

  datatype Option<T> = None | Some(value: T)

  /** The exceptions the scans can raise. */
  datatype Failure =
    | NameUnbound      // the loop variable `name` is read after a loop that never bound it (NameError)
    | IndexOutOfRange  // `year_count[year - 1910]` outside the 105 slots (IndexError)

  datatype Result<T> = Ok(value: T) | Err(error: Failure)

  datatype Sex = F | M

  datatype Record = Record(state: string, sex: Sex, year: int, name: string, count: nat)

  function Last<T>(s: seq<T>): T
    requires s != []
  {
    s[|s| - 1]
  }

  function DropLast<T>(s: seq<T>): seq<T>
    requires s != []
  {
    s[..|s| - 1]
  }

  lemma DropLastAppend<T>(s: seq<T>, x: T)
    ensures DropLast(s + [x]) == s && Last(s + [x]) == x
  {
    assert (s + [x])[..|s|] == s;
  }

  /** Sum of the counts of `rs`. */
  function TotalCount(rs: seq<Record>): nat
  {
    if rs == [] then 0 else TotalCount(DropLast(rs)) + Last(rs).count
  }

  lemma TotalCountSnoc(rs: seq<Record>, r: Record)
    ensures TotalCount(rs + [r]) == TotalCount(rs) + r.count
  {
    DropLastAppend(rs, r);
  }

  /** Sum of the counts of the records of `rs` whose sex is `s`. */
  function SexCount(rs: seq<Record>, s: Sex): nat
  {
    if rs == [] then 0
    else SexCount(DropLast(rs), s) + (if Last(rs).sex == s then Last(rs).count else 0)
  }

  /** The records of `rs` whose year is in `years`, in their order. */
  function InYears(rs: seq<Record>, years: set<int>): seq<Record>
  {
    if rs == [] then []
    else InYears(DropLast(rs), years) + (if Last(rs).year in years then [Last(rs)] else [])
  }

  lemma InYearsSnoc(rs: seq<Record>, r: Record, years: set<int>)
    ensures InYears(rs + [r], years) == InYears(rs, years) + (if r.year in years then [r] else [])
  {
    DropLastAppend(rs, r);
  }

  /** The records of `rs` named `n`, in their order. */
  function WithName(rs: seq<Record>, n: string): seq<Record>
  {
    if rs == [] then []
    else WithName(DropLast(rs), n) + (if Last(rs).name == n then [Last(rs)] else [])
  }

  lemma WithNameSnoc(rs: seq<Record>, r: Record, n: string)
    ensures WithName(rs + [r], n) == WithName(rs, n) + (if r.name == n then [r] else [])
  {
    DropLastAppend(rs, r);
  }

  /** The names that occur in `rs`. */
  function Names(rs: seq<Record>): set<string>
  {
    if rs == [] then {} else Names(DropLast(rs)) + {Last(rs).name}
  }

  ghost predicate NamesNonEmpty(rs: seq<Record>)
  {
    forall i :: 0 <= i < |rs| ==> rs[i].name != ""
  }

  lemma {:induction false} TotalCountAppend(a: seq<Record>, b: seq<Record>)
    ensures TotalCount(a + b) == TotalCount(a) + TotalCount(b)
    decreases |b|
  {
    if b == [] {
      assert a + b == a;
    } else {
      assert a + b == (a + DropLast(b)) + [Last(b)];
      DropLastAppend(a + DropLast(b), Last(b));
      DropLastAppend(DropLast(b), Last(b));
      assert DropLast(b) + [Last(b)] == b;
      TotalCountAppend(a, DropLast(b));
    }
  }

  lemma {:induction false} SexCountAppend(a: seq<Record>, b: seq<Record>, s: Sex)
    ensures SexCount(a + b, s) == SexCount(a, s) + SexCount(b, s)
    decreases |b|
  {
    if b == [] {
      assert a + b == a;
    } else {
      assert a + b == (a + DropLast(b)) + [Last(b)];
      DropLastAppend(a + DropLast(b), Last(b));
      SexCountAppend(a, DropLast(b), s);
    }
  }

  /** Every record is female or male, so the two sex counts split the total. */
  lemma {:induction false} SexCountsSplitTotal(rs: seq<Record>)
    ensures SexCount(rs, F) + SexCount(rs, M) == TotalCount(rs)
  {
    if rs != [] {
      SexCountsSplitTotal(DropLast(rs));
    }
  }

  lemma {:induction false} NamesMembership(rs: seq<Record>, n: string)
    ensures n in Names(rs) <==> exists i :: 0 <= i < |rs| && rs[i].name == n
  {
    if rs != [] {
      NamesMembership(DropLast(rs), n);
      if n in Names(DropLast(rs)) {
        var i :| 0 <= i < |DropLast(rs)| && DropLast(rs)[i].name == n;
        assert rs[i].name == n;
      }
      if exists i :: 0 <= i < |rs| && rs[i].name == n {
        var i :| 0 <= i < |rs| && rs[i].name == n;
        if i < |rs| - 1 {
          assert DropLast(rs)[i].name == n;
        }
      }
    }
  }

  /** A name that does not occur selects nothing. */
  lemma {:induction false} WithAbsentName(rs: seq<Record>, n: string)
    requires n !in Names(rs)
    ensures WithName(rs, n) == []
  {
    if rs != [] {
      WithAbsentName(DropLast(rs), n);
    }
  }

  /** Filtering by year keeps exactly the records of the wanted years. */
  lemma {:induction false} InYearsMembership(rs: seq<Record>, years: set<int>, r: Record)
    ensures r in InYears(rs, years) <==> r in rs && r.year in years
  {
    if rs != [] {
      InYearsMembership(DropLast(rs), years, r);
      assert rs == DropLast(rs) + [Last(rs)];
    }
  }

  /** A filter that every record passes keeps all of them. */
  lemma {:induction false} InYearsAll(rs: seq<Record>, years: set<int>)
    requires forall i :: 0 <= i < |rs| ==> rs[i].year in years
    ensures InYears(rs, years) == rs
  {
    if rs != [] {
      var p, r := DropLast(rs), Last(rs);
      assert p + [r] == rs;
      forall i | 0 <= i < |p|
        ensures p[i].year in years
      {
        assert p[i] == rs[i];
      }
      InYearsAll(p, years);
      assert r.year in years by {
        assert r == rs[|rs| - 1];
      }
      InYearsSnoc(p, r, years);
    }
  }

  /** Filtering keeps records with non-empty names. */
  lemma InYearsKeepsNames(rs: seq<Record>, years: set<int>)
    requires NamesNonEmpty(rs)
    ensures NamesNonEmpty(InYears(rs, years))
  {
    var f := InYears(rs, years);
    forall i | 0 <= i < |f|
      ensures f[i].name != ""
    {
      InYearsMembership(rs, years, f[i]);
    }
  }

  /** Nothing is left exactly when no record is in the wanted years. */
  lemma InYearsEmpty(rs: seq<Record>, years: set<int>)
    ensures InYears(rs, years) == [] <==> forall i :: 0 <= i < |rs| ==> rs[i].year !in years
  {
    var f := InYears(rs, years);
    if f != [] {
      InYearsMembership(rs, years, f[0]);
    }
    forall i | 0 <= i < |rs| && rs[i].year in years
      ensures f != []
    {
      InYearsMembership(rs, years, rs[i]);
    }
  }

  lemma {:induction false} InYearsAppend(a: seq<Record>, b: seq<Record>, years: set<int>)
    ensures InYears(a + b, years) == InYears(a, years) + InYears(b, years)
    decreases |b|
  {
    if b == [] {
      assert a + b == a;
    } else {
      assert a + b == (a + DropLast(b)) + [Last(b)];
      DropLastAppend(a + DropLast(b), Last(b));
      InYearsAppend(a, DropLast(b), years);
    }
  }

  /** Lexicographic order of names by character code, the order the data is
      sorted in before the scans. */
  predicate NameLe(a: string, b: string)
  {
    a == [] || (b != [] && (a[0] < b[0] || (a[0] == b[0] && NameLe(a[1..], b[1..]))))
  }

  lemma {:induction false} NameLeAntisymmetric(a: string, b: string)
    requires NameLe(a, b) && NameLe(b, a)
    ensures a == b
  {
    if a != [] {
      NameLeAntisymmetric(a[1..], b[1..]);
      assert a == [a[0]] + a[1..] && b == [b[0]] + b[1..];
    }
  }

  /** The records are sorted by name. */
  ghost predicate SortedByName(rs: seq<Record>)
  {
    forall i, j :: 0 <= i < j < |rs| ==> NameLe(rs[i].name, rs[j].name)
  }

  /** All records that share a name are consecutive: the adjacency the scans
      rely on. */
  ghost predicate Grouped(rs: seq<Record>)
  {
    forall i, j, k :: 0 <= i < j < k < |rs| && rs[i].name == rs[k].name ==> rs[j].name == rs[i].name
  }

  lemma SortedIsGrouped(rs: seq<Record>)
    requires SortedByName(rs)
    ensures Grouped(rs)
  {
    forall i, j, k | 0 <= i < j < k < |rs| && rs[i].name == rs[k].name
      ensures rs[j].name == rs[i].name
    {
      NameLeAntisymmetric(rs[i].name, rs[j].name);
    }
  }

  /** Filtering by year keeps the records sorted by name. */
  lemma {:induction false} InYearsKeepsSorted(rs: seq<Record>, years: set<int>)
    requires SortedByName(rs)
    ensures SortedByName(InYears(rs, years))
  {
    if rs != [] {
      var p, r := DropLast(rs), Last(rs);
      assert SortedByName(p);
      InYearsKeepsSorted(p, years);
      var f := InYears(p, years);
      if r.year in years {
        forall i, j | 0 <= i < j < |f + [r]|
          ensures NameLe((f + [r])[i].name, (f + [r])[j].name)
        {
          if j == |f| {
            InYearsMembership(p, years, f[i]);
            var a :| 0 <= a < |p| && p[a] == f[i];
            assert rs[a] == f[i];
          }
        }
      }
    }
  }

  /** In grouped records a name different from the last one is a new name. */
  lemma GroupedNewName(p: seq<Record>, r: Record)
    requires Grouped(p + [r]) && p != [] && Last(p).name != r.name
    ensures r.name !in Names(p)
  {
    var q := p + [r];
    forall i | 0 <= i < |p|
      ensures p[i].name != r.name
    {
      var a, b, c := q[i], q[|p| - 1], q[|p|];
      assert a == p[i] && b == Last(p) && c == r;
      if i < |p| - 1 {
        assert a.name == c.name ==> b.name == a.name;
      }
    }
    NamesMembership(p, r.name);
  }

  lemma GroupedDropLast(rs: seq<Record>)
    requires rs != [] && Grouped(rs)
    ensures Grouped(DropLast(rs))
  {
    var p := DropLast(rs);
    forall i, j, k | 0 <= i < j < k < |p| && p[i].name == p[k].name
      ensures p[j].name == p[i].name
    {
      assert rs[i] == p[i] && rs[j] == p[j] && rs[k] == p[k];
    }
  }
}
