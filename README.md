# moodle_report: aggregation of a Moodle activity log, in Dafny

`moodle_report.py` reads a Moodle activity log exported as CSV and prints a
usage report. It skips the header line. Then each data row is either an
enrolment (field 5 is the label `Usuário inscrito no curso`), which adds the
upper-cased affected user (field 2) to the set of enrolled users, or else an
access when the actor (field 1) is not `-`, which adds one to the upper-cased
actor's counter in a `defaultdict(int)`. Every other row is ignored. The
report lists two things: the enrolled users who have no counter, and the
counters sorted by count, largest first.

This project models that logic over rows that are already split into fields
(`seq<seq<string>>`):

- `sort_by_count.dfy`, module `SortByCount`: the ordering done by
  `sorted(..., key=count, reverse=True)`, a stable sort by count with the
  largest first.
- `moodle_report.dfy`, module `MoodleReport`: the constants, the row
  classification, and the fold `Accumulate`/`Aggregate` that specifies
  `get_participation_stats`. It also holds that function's loop as the method
  `GetParticipationStats`, proved equal to the fold, and the computations of
  `show_usage_report` as `UsageReport`.
- `participation_properties.dfy`, module `ParticipationProperties`: what the
  aggregation guarantees. These lemmas are stated against definitions that
  read the log directly: which rows enrol whom (`EnrolledBy`), and how many
  rows are accesses by whom (`AccessesBy`, `AccessRows`).

Modelling decisions:

- Python's `str.upper` is the parameter `upper: string -> string` of every
  operation. The same function is applied to enrolled names and to actor
  names, so the results hold for any case mapping.
- The `defaultdict` is a map together with its keys in insertion order
  (`Stats.order`), because a Python dictionary lists its items in that order.
  `Items` is therefore `access_by_user.items()`, and the ranking is the stable
  sort of that list.
- The two ways the code fails are the error values of `Result`:
  - `EmptyInput`: `next(reader)` finds no header.
  - `ShortRow(i)`: `row[COL_EVENTO]` is out of range in data row `i`.

  A failure discards everything counted so far.
- Other descriptions of this tool mention submission counts, removal of
  users who were never enrolled, and a sorted list of inactive users. None of
  these is in `moodle_report.py`, and the model follows the code. Names that
  were never enrolled keep their counters (`UnenrolledAccessCounted`). The
  inactive users are a set, with no order.

## Model

| member | source | states |
|---|---|---|
| `MoodleReport.Classify` | moodle_report.py:57-61 | a data row is exactly one of: an enrolment, when field 5 is the enrolment label; an access, when it is not an enrolment and field 1 is not "-"; otherwise ignored. Enrolment is tested first |
| `MoodleReport.AddAccess` | moodle_report.py:38-39 | incrementing the defaultdict gives the name a count one more than before (a missing name counts from 0). No other name's count changes, the enrolled set is unchanged, and the counter stays a well-formed dictionary |
| `MoodleReport.Step` | moodle_report.py:34-39 | handling one data row keeps the counter a well-formed dictionary: each key listed once, every count at least 1 |
| `MoodleReport.Accumulate` | moodle_report.py:31-39 | the fold over data rows 1..n-1 fails only with `ShortRow(i)`, where i is a data row before n that has no field 5 |
| `MoodleReport.Aggregate` | moodle_report.py:29-31 | the aggregation fails with `EmptyInput` exactly when the log has no line at all, so there is no header to skip |
| `MoodleReport.AccumulateValid` | moodle_report.py:26-39 | every state the loop reaches is a well-formed dictionary: keys listed once in insertion order, each with count at least 1 |
| `MoodleReport.FailureSticks` | moodle_report.py:33-39 | once a short row has raised, later rows cannot change the outcome: no partial result |
| `MoodleReport.GetParticipationStats` | moodle_report.py:25-41 | the loop that fills `enrolled_users` and `access_by_user` returns exactly the result of the fold, including the error raised by an empty log or a short row |
| `MoodleReport.UsageReport` | moodle_report.py:43-46 | the inactive users are the enrolled users with no counter: a subset of the enrolled set, disjoint from the active users, and containing every enrolled user without a counter. The ranking is sorted by count, largest first, and is a permutation of the dictionary's items |
| `SortByCount.Insert` | moodle_report.py:46 | inserting into a list sorted by count, largest first, keeps it sorted and adds exactly the one entry |
| `SortByCount.SortDesc` | moodle_report.py:46 | the result is sorted by count with the largest first, and is a permutation of the input |
| `SortByCount.SortKeepsSum` | moodle_report.py:46 | sorting does not change the total of the counts |
| `ParticipationProperties.HeaderSkipped` | moodle_report.py:31 | the first row never affects the result; a header alone gives an empty set and an empty counter; no rows at all is the `EmptyInput` error |
| `ParticipationProperties.ShortRowFails` | moodle_report.py:57-58 | the aggregation succeeds if and only if there is a header and every data row has a field 5. Otherwise it fails as a whole, naming the first short data row |
| `ParticipationProperties.ShortRowAppended` | moodle_report.py:58 | a short data row makes the whole aggregation fail, whatever came before it |
| `ParticipationProperties.EnrollmentRow` | moodle_report.py:34-36 | an enrolment row adds its upper-cased field 2 to the enrolled set and changes no counter |
| `ParticipationProperties.AccessRow` | moodle_report.py:37-39 | a non-enrolment row whose actor is not "-" adds exactly 1 to the upper-cased actor's count. No other count and not the enrolled set changes |
| `ParticipationProperties.IgnoredRow` | moodle_report.py:37 | a non-enrolment row whose actor is "-" changes nothing |
| `ParticipationProperties.EnrolledFromRows` | moodle_report.py:33-36 | a name is in the enrolled set if and only if some enrolment data row has it as its upper-cased field 2 |
| `ParticipationProperties.CountsFromRows` | moodle_report.py:27-39 | a name has a counter if and only if some access row has it as its upper-cased actor. The count equals the number of such rows, so it is at least 1 |
| `ParticipationProperties.AddAccessSum` | moodle_report.py:39 | one increment adds exactly 1 to the total of the dictionary's values |
| `ParticipationProperties.TotalFromRows` | moodle_report.py:33-39 | the counts add up to the number of access rows: non-enrolment data rows whose actor is not "-" |
| `ParticipationProperties.ItemsListCounters` | moodle_report.py:46 | `items()` lists every counter exactly once, with its count, and nothing else |
| `ParticipationProperties.InactiveFromRows` | moodle_report.py:44-45 | a name is reported as inactive if and only if some row enrols it and no access row names it as actor |
| `ParticipationProperties.RankingFromRows` | moodle_report.py:46 | the ranking is sorted by count, largest first, with one entry per name that has a counter. Each entry's count is the number of that name's access rows (at least 1), and the counts add up to the number of access rows |
| `ParticipationProperties.EnrolledNeverAccessed` | moodle_report.py:33-45 | a log whose one data row enrols "ana" with actor "-" yields the enrolled set {upper("ana")}, no counters, and upper("ana") as the only inactive user |
| `ParticipationProperties.UnenrolledAccessCounted` | moodle_report.py:37-46 | an access by a name that was never enrolled is counted and ranked: nothing removes it |

## Left out

- `main` (moodle_report.py:11-23) is not modelled. It reads the file name from the command line and prints messages. Its `except e:` names an undefined variable, so an error would raise `NameError` instead of being reported.
- Opening the file and CSV parsing (moodle_report.py:29-30) are not modelled, nor are quoting and escaping: the model takes rows already split into fields. Decoding errors are not modelled either.
- The printed text of `show_usage_report` (moodle_report.py:48-55) is left out. The model stops at the inactive set and the ranking it prints.
- Python's Unicode `str.upper` is a parameter, not a definition. No case mapping is modelled.
- The order in which the inactive users are printed (set iteration order) is not modelled: they are a set.
- UsageReport: the ranking breaks ties the way Python's stable sort does, keeping insertion order. Only sortedness and being a permutation are stated, not the order among equal counts.
- server.py is not part of this model. It is the HTTP wrapper, which swaps `sys.stdout` to capture the output, and it calls a `moodle_report.process` that moodle_report.py does not define.
