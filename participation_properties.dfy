/**
 * What the aggregation of moodle_report.py guarantees, stated against
 * definitions that read the log directly (which rows enrol whom, how many
 * rows are accesses by whom) rather than through the fold.
 */
module ParticipationProperties {
  import opened SortByCount
  import opened MoodleReport

  /** Row `i` is an enrolment whose affected user, upper-cased, is `u`. */
  predicate EnrolledBy(rows: seq<Row>, i: nat, u: string, upper: string -> string)
    requires i < |rows|
  {
    |rows[i]| > ColEvent && rows[i][ColEvent] == EnrollEvent && upper(rows[i][ColAffected]) == u
  }

  /** `row` is a counted access: not an enrolment, and an actor is named. */
  predicate IsAccessRow(row: Row)
  {
    |row| > ColEvent && row[ColEvent] != EnrollEvent && row[ColName] != NoActor
  }

  /** Number of access rows among the data rows 1 .. n-1 whose actor, upper-cased, is `u`. */
  function AccessesBy(rows: seq<Row>, n: nat, u: string, upper: string -> string): nat
    requires 1 <= n <= |rows|
  {
    if n == 1 then 0
    else AccessesBy(rows, n - 1, u, upper)
         + (if IsAccessRow(rows[n - 1]) && upper(rows[n - 1][ColName]) == u then 1 else 0)
  }

  /** Number of access rows among the data rows 1 .. n-1. */
  function AccessRows(rows: seq<Row>, n: nat): nat
    requires 1 <= n <= |rows|
  {
    if n == 1 then 0
    else AccessRows(rows, n - 1) + (if IsAccessRow(rows[n - 1]) then 1 else 0)
  }

  /** The fold only looks at data rows 1 .. n-1. */
  lemma {:induction false} SameDataRows(rows1: seq<Row>, rows2: seq<Row>, n: nat, upper: string -> string)
    requires 1 <= n <= |rows1| && n <= |rows2|
    requires forall i :: 1 <= i < n ==> rows1[i] == rows2[i]
    ensures Accumulate(rows1, n, upper) == Accumulate(rows2, n, upper)
    decreases n
  {
    if n > 1 {
      SameDataRows(rows1, rows2, n - 1, upper);
    }
  }

  /**
   * The first row is a header: whatever it holds, the result is the same;
   * a header alone gives no users and no accesses, and no header is an error.
   */
  lemma HeaderSkipped(h1: Row, h2: Row, data: seq<Row>, upper: string -> string)
    ensures Aggregate([h1] + data, upper) == Aggregate([h2] + data, upper)
    ensures Aggregate([h1], upper) == Success(Stats({}, map[], []))
    ensures Aggregate([], upper) == Failure(EmptyInput)
  {
    SameDataRows([h1] + data, [h2] + data, |data| + 1, upper);
  }

  lemma {:induction false} AccumulateFailure(rows: seq<Row>, n: nat, upper: string -> string)
    requires 1 <= n <= |rows|
    ensures Accumulate(rows, n, upper).Success? <==> forall i :: 1 <= i < n ==> |rows[i]| > ColEvent
    ensures Accumulate(rows, n, upper).Failure? ==>
              forall j :: 1 <= j < Accumulate(rows, n, upper).error.index ==> |rows[j]| > ColEvent
    decreases n
  {
    if n > 1 {
      AccumulateFailure(rows, n - 1, upper);
    }
  }

  /**
   * The aggregation succeeds exactly when there is a header and every data
   * row has a field 5; otherwise it fails as a whole, at the first short row.
   */
  lemma ShortRowFails(rows: seq<Row>, upper: string -> string)
    ensures Aggregate(rows, upper).Success? <==>
              |rows| > 0 && forall i :: 1 <= i < |rows| ==> |rows[i]| > ColEvent
    ensures |rows| > 0 && Aggregate(rows, upper).Failure? ==>
              && Aggregate(rows, upper).error.ShortRow?
              && var i := Aggregate(rows, upper).error.index;
              && 1 <= i < |rows| && |rows[i]| <= ColEvent
              && forall j :: 1 <= j < i ==> |rows[j]| > ColEvent
  {
    if |rows| > 0 {
      AccumulateFailure(rows, |rows|, upper);
    }
  }

  /** Appending a row to the log extends the fold by one step. */
  lemma AppendRow(rows: seq<Row>, row: Row, upper: string -> string)
    requires |rows| > 0
    ensures Accumulate(rows + [row], |rows|, upper) == Aggregate(rows, upper)
  {
    SameDataRows(rows + [row], rows, |rows|, upper);
  }

  /** An enrolment row adds its upper-cased affected user to the set and changes no counter. */
  lemma EnrollmentRow(rows: seq<Row>, row: Row, s: Stats, upper: string -> string)
    requires Aggregate(rows, upper) == Success(s)
    requires |row| > ColEvent && row[ColEvent] == EnrollEvent
    ensures Aggregate(rows + [row], upper).Success?
    ensures var t := Aggregate(rows + [row], upper).value;
            t.enrolled == s.enrolled + {upper(row[ColAffected])} && t.access == s.access && t.order == s.order
  {
    AppendRow(rows, row, upper);
  }

  /**
   * A row that is not an enrolment and names an actor adds exactly one to
   * the upper-cased actor's counter (starting from zero), and changes no
   * other counter and not the enrolled set.
   */
  lemma AccessRow(rows: seq<Row>, row: Row, s: Stats, upper: string -> string)
    requires Aggregate(rows, upper) == Success(s)
    requires |row| > ColEvent && row[ColEvent] != EnrollEvent && row[ColName] != NoActor
    ensures Aggregate(rows + [row], upper).Success?
    ensures var t := Aggregate(rows + [row], upper).value;
            var name := upper(row[ColName]);
            && t.enrolled == s.enrolled
            && name in t.access
            && t.access[name] == (if name in s.access then s.access[name] else 0) + 1
            && t.access - {name} == s.access - {name}
  {
    AppendRow(rows, row, upper);
  }

  /** A row that is not an enrolment and whose actor is "-" changes nothing. */
  lemma IgnoredRow(rows: seq<Row>, row: Row, s: Stats, upper: string -> string)
    requires Aggregate(rows, upper) == Success(s)
    requires |row| > ColEvent && row[ColEvent] != EnrollEvent && row[ColName] == NoActor
    ensures Aggregate(rows + [row], upper) == Success(s)
  {
    AppendRow(rows, row, upper);
  }

  /** A short data row makes the whole aggregation fail, whatever came before it. */
  lemma ShortRowAppended(rows: seq<Row>, row: Row, upper: string -> string)
    requires |rows| > 0
    requires |row| <= ColEvent
    ensures Aggregate(rows + [row], upper).Failure?
  {
    AppendRow(rows, row, upper);
  }

  /** The enrolled set holds exactly the upper-cased affected users of the enrolment rows. */
  lemma {:induction false} EnrolledFromRows(rows: seq<Row>, n: nat, s: Stats, upper: string -> string)
    requires 1 <= n <= |rows|
    requires Accumulate(rows, n, upper) == Success(s)
    ensures forall u :: u in s.enrolled <==> exists i :: 1 <= i < n && EnrolledBy(rows, i, u, upper)
    decreases n
  {
    if n > 1 {
      var p := Accumulate(rows, n - 1, upper).value;
      EnrolledFromRows(rows, n - 1, p, upper);
      forall u
        ensures u in s.enrolled <==> exists i :: 1 <= i < n && EnrolledBy(rows, i, u, upper)
      {
        if u in s.enrolled && u !in p.enrolled {
          assert EnrolledBy(rows, n - 1, u, upper);
        }
        if exists i :: 1 <= i < n && EnrolledBy(rows, i, u, upper) {
          var i :| 1 <= i < n && EnrolledBy(rows, i, u, upper);
          if i < n - 1 {
            assert u in p.enrolled;
          }
        }
      }
    }
  }

  /**
   * A name has a counter exactly when some access row names it as actor,
   * and the counter is the number of those rows (so at least one).
   */
  lemma {:induction false} CountsFromRows(rows: seq<Row>, n: nat, s: Stats, upper: string -> string)
    requires 1 <= n <= |rows|
    requires Accumulate(rows, n, upper) == Success(s)
    ensures forall u :: u in s.access <==> AccessesBy(rows, n, u, upper) > 0
    ensures forall u :: u in s.access ==> s.access[u] == AccessesBy(rows, n, u, upper) >= 1
    decreases n
  {
    if n > 1 {
      var p := Accumulate(rows, n - 1, upper).value;
      CountsFromRows(rows, n - 1, p, upper);
      var row := rows[n - 1];
      assert s == Step(p, row, upper);
      if IsAccessRow(row) {
        var name := upper(row[ColName]);
        assert s == AddAccess(p, name);
        forall u ensures AccessesBy(rows, n, u, upper)
                         == AccessesBy(rows, n - 1, u, upper) + (if u == name then 1 else 0) {
        }
      } else {
        assert s.access == p.access;
        forall u ensures AccessesBy(rows, n, u, upper) == AccessesBy(rows, n - 1, u, upper) {
        }
      }
    }
  }

  /** One more access adds one to the total of the counters. */
  lemma AddAccessSum(p: Stats, name: string)
    requires Valid(p)
    ensures CountSum(Items(AddAccess(p, name))) == CountSum(Items(p)) + 1
  {
    var s := AddAccess(p, name);
    if name in p.access {
      var j :| 0 <= j < |p.order| && p.order[j] == name;
      assert Items(s) == Items(p)[j := (name, p.access[name] + 1)];
      CountSumIncrement(Items(p), j);
    } else {
      assert Items(s) == Items(p) + [(name, 1)];
      CountSumAppend(Items(p), (name, 1));
    }
  }

  /** The counters add up to the number of access rows. */
  lemma {:induction false} TotalFromRows(rows: seq<Row>, n: nat, s: Stats, upper: string -> string)
    requires 1 <= n <= |rows|
    requires Accumulate(rows, n, upper) == Success(s)
    ensures CountSum(Items(s)) == AccessRows(rows, n)
    decreases n
  {
    if n > 1 {
      var p := Accumulate(rows, n - 1, upper).value;
      TotalFromRows(rows, n - 1, p, upper);
      var row := rows[n - 1];
      assert s == Step(p, row, upper);
      if IsAccessRow(row) {
        AccumulateValid(rows, n - 1, upper);
        AddAccessSum(p, upper(row[ColName]));
      } else {
        assert s.access == p.access && s.order == p.order;
        assert Items(s) == Items(p);
      }
    }
  }

  /** `items()` lists every counter once, with its count, and nothing else. */
  lemma ItemsListCounters(s: Stats)
    requires Valid(s)
    ensures forall i, j :: 0 <= i < j < |Items(s)| ==> Items(s)[i].0 != Items(s)[j].0
    ensures forall e :: e in Items(s) <==> e.0 in s.access && s.access[e.0] == e.1
  {
    forall e: Entry | e.0 in s.access && s.access[e.0] == e.1
      ensures e in Items(s)
    {
      var j :| 0 <= j < |s.order| && s.order[j] == e.0;
      assert Items(s)[j] == e;
    }
  }

  /**
   * The users reported as never having accessed are exactly those enrolled
   * by some row and named as actor by no access row. Users who accessed
   * without being enrolled are kept in the counter: nothing removes them.
   */
  lemma InactiveFromRows(rows: seq<Row>, s: Stats, upper: string -> string)
    requires Aggregate(rows, upper) == Success(s)
    ensures forall u :: u in UsageReport(s).inactive <==>
              (exists i :: 1 <= i < |rows| && EnrolledBy(rows, i, u, upper)) && AccessesBy(rows, |rows|, u, upper) == 0
  {
    EnrolledFromRows(rows, |rows|, s, upper);
    CountsFromRows(rows, |rows|, s, upper);
  }

  /**
   * The ranking holds one entry per user with an access, whose count is the
   * number of that user's access rows, sorted by count with the largest
   * first; its counts add up to the number of access rows.
   */
  lemma RankingFromRows(rows: seq<Row>, s: Stats, upper: string -> string)
    requires Aggregate(rows, upper) == Success(s)
    ensures SortedDesc(UsageReport(s).ranking)
    ensures |UsageReport(s).ranking| == |s.access.Keys|
    ensures forall e :: e in UsageReport(s).ranking <==>
              e.1 == AccessesBy(rows, |rows|, e.0, upper) && e.1 >= 1
    ensures CountSum(UsageReport(s).ranking) == AccessRows(rows, |rows|)
  {
    var ranking := UsageReport(s).ranking;
    CountsFromRows(rows, |rows|, s, upper);
    AggregateValid(rows, upper);
    ItemsListCounters(s);
    forall e: Entry ensures e in ranking <==> e in Items(s) {
      assert e in ranking <==> e in multiset(ranking);
      assert e in Items(s) <==> e in multiset(Items(s));
    }
    assert |ranking| == |multiset(ranking)| == |Items(s)|;
    KeysOfDistinct(s);
    TotalFromRows(rows, |rows|, s, upper);
    SortKeepsSum(Items(s));
  }

  /** A list of distinct names has as many elements as the set it lists. */
  lemma {:induction false} DistinctCard(xs: seq<string>)
    requires Distinct(xs)
    ensures |set x | x in xs| == |xs|
  {
    if xs != [] {
      var rest := xs[1..];
      assert Distinct(rest);
      DistinctCard(rest);
      assert (set x | x in xs) == {xs[0]} + (set x | x in rest);
      assert xs[0] !in (set x | x in rest);
    }
  }

  lemma KeysOfDistinct(s: Stats)
    requires Valid(s)
    ensures |s.access.Keys| == |s.order|
  {
    assert s.access.Keys == set x | x in s.order;
    DistinctCard(s.order);
  }

  /** An enrolment row whose actor is "-": the user is enrolled and reported as inactive. */
  lemma EnrolledNeverAccessed(h: Row, upper: string -> string)
    ensures var rows := [h, ["t", "-", "ana", "x", "x", EnrollEvent]];
            && Aggregate(rows, upper) == Success(Stats({upper("ana")}, map[], []))
            && UsageReport(Aggregate(rows, upper).value).inactive == {upper("ana")}
  {
    var rows := [h, ["t", "-", "ana", "x", "x", EnrollEvent]];
    assert Classify(rows[1]) == Enrollment;
    assert Accumulate(rows, 1, upper) == Success(NoStats);
    assert Aggregate(rows, upper) == Accumulate(rows, 2, upper) == Success(Step(NoStats, rows[1], upper));
    assert rows[1][ColAffected] == "ana";
    assert Step(NoStats, rows[1], upper).enrolled == {upper("ana")};
  }

  /** Access by a name that was never enrolled is counted all the same. */
  lemma UnenrolledAccessCounted(h: Row, upper: string -> string)
    ensures var rows := [h, ["t", "eve", "-", "x", "x", "Curso visualizado"]];
            && Aggregate(rows, upper) == Success(Stats({}, map[upper("eve") := 1], [upper("eve")]))
            && UsageReport(Aggregate(rows, upper).value).ranking == [(upper("eve"), 1)]
  {
    var rows := [h, ["t", "eve", "-", "x", "x", "Curso visualizado"]];
    assert rows[1][ColEvent] != EnrollEvent by {
      assert rows[1][ColEvent][0] != EnrollEvent[0];
    }
    assert Classify(rows[1]) == Access;
    assert Accumulate(rows, 1, upper) == Success(NoStats);
    assert Aggregate(rows, upper) == Accumulate(rows, 2, upper) == Success(Step(NoStats, rows[1], upper));
    var s := Stats({}, map[upper("eve") := 1], [upper("eve")]);
    assert rows[1][ColName] == "eve";
    assert AddAccess(NoStats, upper("eve")) == s;
    assert Items(s) == [(upper("eve"), 1)];
  }
}
