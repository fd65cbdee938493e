/**
 * Ordering of (name, count) pairs by count, largest first, as the report
 * does with `sorted(items, key=count, reverse=True)`. The sort is a stable
 * insertion sort: an entry is placed before every entry whose count is not
 * larger, so entries with equal counts keep their input order, as Python's
 * `sorted` does with `reverse=True`.
 */
module SortByCount {

  /** A user name and how many times it was counted. */
  type Entry = (string, nat)

  /** Counts never increase from left to right. */
  predicate SortedDesc(s: seq<Entry>)
  {
    forall i, j :: 0 <= i < j < |s| ==> s[i].1 >= s[j].1
  }

  /** Sum of the counts of a list of entries. */
  function CountSum(s: seq<Entry>): nat
  {
    if s == [] then 0 else s[0].1 + CountSum(s[1..])
  }

  /** An entry whose count is at least that of the head of a sorted list may go in front of it. */
  lemma PrependSorted(x: Entry, t: seq<Entry>)
    requires SortedDesc(t)
    requires t == [] || x.1 >= t[0].1
    ensures SortedDesc([x] + t)
  {
  }

  /** Inserts `e` into a sorted list, before the first entry whose count is at most its own. */
  function Insert(e: Entry, s: seq<Entry>): (r: seq<Entry>)
    requires SortedDesc(s)
    ensures SortedDesc(r)
    ensures |r| == |s| + 1
    ensures multiset(r) == multiset(s) + multiset{e}
    ensures r[0] == e || (s != [] && r[0] == s[0])
  {
    if s == [] || e.1 >= s[0].1 then
      PrependSorted(e, s);
      [e] + s
    else
      assert s == [s[0]] + s[1..];
      var t := Insert(e, s[1..]);
      PrependSorted(s[0], t);
      assert multiset([s[0]] + t) == multiset{s[0]} + multiset(t);
      assert multiset(s) == multiset{s[0]} + multiset(s[1..]);
      [s[0]] + t
  }

  /** Sorts by count, largest first, keeping the input order among equal counts. */
  function SortDesc(s: seq<Entry>): (r: seq<Entry>)
    ensures SortedDesc(r)
    ensures multiset(r) == multiset(s)
  {
    if s == [] then
      []
    else
      assert s == [s[0]] + s[1..];
      Insert(s[0], SortDesc(s[1..]))
  }

  lemma {:induction false} CountSumAppend(s: seq<Entry>, e: Entry)
    ensures CountSum(s + [e]) == CountSum(s) + e.1
  {
    if s != [] {
      assert (s + [e])[1..] == s[1..] + [e];
      CountSumAppend(s[1..], e);
    }
  }

  /** Adding one to the count of one entry adds one to the sum. */
  lemma {:induction false} CountSumIncrement(s: seq<Entry>, j: nat)
    requires j < |s|
    ensures CountSum(s[j := (s[j].0, s[j].1 + 1)]) == CountSum(s) + 1
  {
    if j > 0 {
      assert s[j := (s[j].0, s[j].1 + 1)][1..] == s[1..][j - 1 := (s[j].0, s[j].1 + 1)];
      CountSumIncrement(s[1..], j - 1);
    }
  }

  lemma {:induction false} InsertKeepsSum(e: Entry, s: seq<Entry>)
    requires SortedDesc(s)
    ensures CountSum(Insert(e, s)) == CountSum(s) + e.1
  {
    if s != [] && e.1 < s[0].1 {
      InsertKeepsSum(e, s[1..]);
    }
  }

  /** Sorting does not change the total of the counts. */
  lemma {:induction false} SortKeepsSum(s: seq<Entry>)
    ensures CountSum(SortDesc(s)) == CountSum(s)
  {
    if s != [] {
      SortKeepsSum(s[1..]);
      InsertKeepsSum(s[0], SortDesc(s[1..]));
    }
  }
}
