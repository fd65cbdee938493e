/**
 * The aggregation core of moodle_report.py: a Moodle activity log, already
 * split into rows of fields, is folded into the set of enrolled users and a
 * per-user access counter; the usage report then derives the users who never
 * accessed the course and the ranking of users by number of accesses.
 *
 * Python's `str.upper` is not modelled: every operation takes it as the
 * parameter `upper`, and applies the same function to the enrolled name and
 * to the actor name.
 */
module MoodleReport {
  import opened SortByCount

  // Field positions in an event row (COL_HORA, COL_NOME, COL_AFETADO, COL_EVENTO).
  const ColTime: nat := 0
  const ColName: nat := 1
  const ColAffected: nat := 2
  const ColEvent: nat := 5

  /** Event label of an enrolment (EVENTO_INSCRICAO). */
  const EnrollEvent: string := "Usuário inscrito no curso"

  /** Placeholder written in the actor field when no user acted. */
  const NoActor: string := "-"

  /** One line of the log, split into its fields. */
  type Row = seq<string>

  /** The one kind each data row is classified as; enrolment is tested first. */
  datatype EventKind = Enrollment | Access | Ignored

  datatype Error =
    | EmptyInput          // the log has no header line: `next(reader)` fails
    | ShortRow(index: nat) // row `index` has no field 5: `row[COL_EVENTO]` fails

  datatype Result<T> = Success(value: T) | Failure(error: Error)

  /**
   * What `get_participation_stats` returns: `enrolled` is `enrolled_users`;
   * `access` and `order` together are the `defaultdict` `access_by_user`,
   * `order` being its keys in insertion order, which is the order in which
   * a Python dictionary lists its items.
   */
  datatype Stats = Stats(enrolled: set<string>, access: map<string, nat>, order: seq<string>)

  /** The report computed by `show_usage_report` before it prints anything. */
  datatype Report = Report(inactive: set<string>, ranking: seq<Entry>)

  const NoStats := Stats({}, map[], [])

  predicate Distinct(xs: seq<string>)
  {
    forall i, j :: 0 <= i < j < |xs| ==> xs[i] != xs[j]
  }

  /** The access counter is a dictionary: keys listed once each, every count at least one. */
  ghost predicate Valid(s: Stats)
  {
    && Distinct(s.order)
    && (forall k :: k in s.access <==> k in s.order)
    && (forall k :: k in s.access ==> s.access[k] >= 1)
  }

  predicate IsEnrollEvent(row: Row)
    requires |row| > ColEvent
  {
    row[ColEvent] == EnrollEvent
  }

  predicate IsAccessEvent(row: Row)
    requires |row| > ColName
  {
    row[ColName] != NoActor
  }

  /** The branch of the loop body a data row takes. */
  function Classify(row: Row): (k: EventKind)
    requires |row| > ColEvent
    ensures k == Enrollment <==> row[ColEvent] == EnrollEvent
    ensures k == Access <==> row[ColEvent] != EnrollEvent && row[ColName] != NoActor
    ensures k == Ignored <==> row[ColEvent] != EnrollEvent && row[ColName] == NoActor
  {
    if IsEnrollEvent(row) then Enrollment
    else if IsAccessEvent(row) then Access
    else Ignored
  }

  /** `access_by_user[name] += 1` on a `defaultdict(int)`. */
  function AddAccess(s: Stats, name: string): (r: Stats)
    ensures Valid(s) ==> Valid(r)
    ensures r.enrolled == s.enrolled
    ensures name in r.access && r.access[name] == (if name in s.access then s.access[name] else 0) + 1
    ensures r.access - {name} == s.access - {name}
  {
    if name in s.access then
      s.(access := s.access[name := s.access[name] + 1])
    else
      s.(access := s.access[name := 1], order := s.order + [name])
  }

  /** The effect of one data row on the accumulated statistics. */
  function Step(s: Stats, row: Row, upper: string -> string): (r: Stats)
    requires |row| > ColEvent
    ensures Valid(s) ==> Valid(r)
  {
    match Classify(row)
    case Enrollment => s.(enrolled := s.enrolled + {upper(row[ColAffected])})
    case Access => AddAccess(s, upper(row[ColName]))
    case Ignored => s
  }

  /**
   * The statistics after the data rows 1 .. n-1 of `rows` (row 0 is the
   * header), or the error raised by the first of them that is too short.
   */
  function Accumulate(rows: seq<Row>, n: nat, upper: string -> string): (r: Result<Stats>)
    requires 1 <= n <= |rows|
    ensures r.Failure? ==> r.error.ShortRow? && 1 <= r.error.index < n && |rows[r.error.index]| <= ColEvent
    decreases n
  {
    if n == 1 then
      Success(NoStats)
    else
      match Accumulate(rows, n - 1, upper)
      case Failure(e) => Failure(e)
      case Success(s) =>
        if |rows[n - 1]| <= ColEvent then Failure(ShortRow(n - 1))
        else Success(Step(s, rows[n - 1], upper))
  }

  /** Specification of `get_participation_stats` over the rows of the log. */
  function Aggregate(rows: seq<Row>, upper: string -> string): (r: Result<Stats>)
    ensures r == Failure(EmptyInput) <==> |rows| == 0
  {
    if |rows| == 0 then Failure(EmptyInput) else Accumulate(rows, |rows|, upper)
  }

  /** Every state the fold reaches is a well-formed dictionary. */
  lemma {:induction false} AccumulateValid(rows: seq<Row>, n: nat, upper: string -> string)
    requires 1 <= n <= |rows|
    ensures Accumulate(rows, n, upper).Success? ==> Valid(Accumulate(rows, n, upper).value)
    decreases n
  {
    if n > 1 {
      AccumulateValid(rows, n - 1, upper);
    }
  }

  lemma AggregateValid(rows: seq<Row>, upper: string -> string)
    ensures Aggregate(rows, upper).Success? ==> Valid(Aggregate(rows, upper).value)
  {
    if |rows| > 0 {
      AccumulateValid(rows, |rows|, upper);
    }
  }

  /** Once a short row has aborted the fold, later rows do not matter. */
  lemma {:induction false} FailureSticks(rows: seq<Row>, n: nat, m: nat, upper: string -> string)
    requires 1 <= n <= m <= |rows|
    requires Accumulate(rows, n, upper).Failure?
    ensures Accumulate(rows, m, upper) == Accumulate(rows, n, upper)
    decreases m
  {
    if m > n {
      FailureSticks(rows, n, m - 1, upper);
    }
  }

  /** One more data row: a short one fails the fold, any other applies `Step`. */
  lemma AccumulateNext(rows: seq<Row>, i: nat, upper: string -> string)
    requires 1 <= i < |rows|
    requires Accumulate(rows, i, upper).Success?
    ensures |rows[i]| <= ColEvent ==> Accumulate(rows, i + 1, upper) == Failure(ShortRow(i))
    ensures |rows[i]| > ColEvent ==>
              Accumulate(rows, i + 1, upper) == Success(Step(Accumulate(rows, i, upper).value, rows[i], upper))
  {
  }

  /**
   * `get_participation_stats`: skips the header, then for each row either
   * adds the enrolled name to the set or counts one access for the actor.
   */
  method GetParticipationStats(rows: seq<Row>, upper: string -> string) returns (r: Result<Stats>)
    ensures r == Aggregate(rows, upper)
  {
    if |rows| == 0 {
      return Failure(EmptyInput);
    }
    var enrolledUsers: set<string> := {};
    var accessByUser: map<string, nat> := map[];
    var accessOrder: seq<string> := [];
    var i := 1;
    while i < |rows|
      invariant 1 <= i <= |rows|
      invariant Accumulate(rows, i, upper) == Success(Stats(enrolledUsers, accessByUser, accessOrder))
    {
      var row := rows[i];
      AccumulateNext(rows, i, upper);
      if |row| <= ColEvent {
        FailureSticks(rows, i + 1, |rows|, upper);
        return Failure(ShortRow(i));
      }
      ghost var before := Stats(enrolledUsers, accessByUser, accessOrder);
      if IsEnrollEvent(row) {
        enrolledUsers := enrolledUsers + {upper(row[ColAffected])};
        assert Classify(row) == Enrollment;
      } else if IsAccessEvent(row) {
        var name := upper(row[ColName]);
        assert Classify(row) == Access;
        if name in accessByUser {
          accessByUser := accessByUser[name := accessByUser[name] + 1];
        } else {
          // a missing key of the defaultdict reads as 0 and is appended to its keys
          accessOrder := accessOrder + [name];
          accessByUser := accessByUser[name := 1];
        }
        assert Stats(enrolledUsers, accessByUser, accessOrder) == AddAccess(before, name);
      } else {
        assert Classify(row) == Ignored;
      }
      i := i + 1;
    }
    return Success(Stats(enrolledUsers, accessByUser, accessOrder));
  }

  /** `access_by_user[name]` on the `defaultdict(int)`: a missing name reads as zero. */
  function Count(s: Stats, name: string): nat
  {
    if name in s.access then s.access[name] else 0
  }

  /** `access_by_user.items()`: the (name, count) pairs in insertion order. */
  function Items(s: Stats): seq<Entry>
  {
    seq(|s.order|, i requires 0 <= i < |s.order| => (s.order[i], Count(s, s.order[i])))
  }

  /**
   * The computations of `show_usage_report`: the enrolled users with no
   * access, and the accessing users sorted by access count, largest first.
   */
  function UsageReport(s: Stats): (r: Report)
    ensures r.inactive <= s.enrolled
    ensures r.inactive !! s.access.Keys
    ensures forall u :: u in s.enrolled && u !in s.access ==> u in r.inactive
    ensures SortedDesc(r.ranking)
    ensures multiset(r.ranking) == multiset(Items(s))
  {
    Report(s.enrolled - s.access.Keys, SortDesc(Items(s)))
  }
}
