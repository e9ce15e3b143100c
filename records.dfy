/** The table of followed subreddits, as values.

    A row of the table is a `Subreddit` record: the `name` column and the
    `date_followed` stamp that the `follow` view orders by. Rows are kept in
    the order they were saved. The functions here are the rules the `follow`
    view applies to the table: which row `latest('date_followed')` selects,
    what deleting it leaves, and what a whole admission (evict at capacity,
    then save) leaves.
 */
module Subreddits {

  /** Number of rows at which `follow` evicts before saving (the `== 5` test). */
  const Capacity: nat := 5

  /** `max_length` of the `name` column. */
  const MaxNameLength: nat := 180

  /** One row. `stamp` stands for `date_followed`, which the model does not
      declare; it is an abstract counter handed out at save time. Nothing
      makes `name` unique: the column has no uniqueness constraint. */
  datatype Subreddit = Subreddit(name: string, stamp: nat)

  /** What the `name` form field's cleaning reports: the field is required
      (the column is not `blank=True`), and a non-empty value is checked
      against `max_length`. The required check stops cleaning, so at most one
      error is reported. */
  datatype FieldError = Required | TooLong(limit: nat, length: nat)

  /** The errors `is_valid()` collects for the submitted name. */
  function NameErrors(name: string): seq<FieldError> {
    if name == [] then [Required]
    else if |name| > MaxNameLength then [TooLong(MaxNameLength, |name|)]
    else []
  }

  /** `follow_form.is_valid()`: no check on the only field reports an error. */
  predicate ValidName(name: string) {
    NameErrors(name) == []
  }

  /** The form accepts exactly the names of 1 to 180 characters; a rejected
      name gets the required error iff it is empty. */
  lemma ValidNameIff(name: string)
    ensures ValidName(name) <==> 0 < |name| <= MaxNameLength
    ensures Required in NameErrors(name) <==> name == []
  {
  }

  /** Rows in save order carry strictly increasing stamps. */
  ghost predicate Increasing(rows: seq<Subreddit>) {
    forall i, j :: 0 <= i < j < |rows| ==> rows[i].stamp < rows[j].stamp
  }

  /** Position of the row that `latest('date_followed')` returns: a row with
      the LARGEST stamp (on a tie, the earliest such row; ties do not arise
      while stamps increase). An empty table has no such row. */
  function LatestIndex(rows: seq<Subreddit>): (k: nat)
    requires |rows| > 0
    ensures k < |rows|
    ensures forall j :: 0 <= j < |rows| ==> rows[j].stamp <= rows[k].stamp
  {
    if |rows| == 1 then 0
    else
      var k := LatestIndex(rows[..|rows| - 1]);
      if rows[|rows| - 1].stamp > rows[k].stamp then |rows| - 1 else k
  }

  /** The row `latest('date_followed')` returns. */
  function Latest(rows: seq<Subreddit>): (r: Subreddit)
    requires |rows| > 0
    ensures r in rows
    ensures forall x :: x in rows ==> x.stamp <= r.stamp
  {
    rows[LatestIndex(rows)]
  }

  /** The table without its `k`-th row; the other rows keep their order. */
  function RemoveAt(rows: seq<Subreddit>, k: nat): (r: seq<Subreddit>)
    requires k < |rows|
    ensures |r| == |rows| - 1
    ensures forall j :: 0 <= j < k ==> r[j] == rows[j]
    ensures forall j :: k <= j < |r| ==> r[j] == rows[j + 1]
    ensures multiset(r) + multiset{rows[k]} == multiset(rows)
  {
    assert rows == rows[..k] + [rows[k]] + rows[k + 1..];
    rows[..k] + rows[k + 1..]
  }

  /** The table after `evict_oldest_subreddit`: exactly the row that `latest`
      selects is gone, every other row is still there. */
  function Evicted(rows: seq<Subreddit>): (r: seq<Subreddit>)
    requires |rows| > 0
    ensures |r| == |rows| - 1
    ensures multiset(r) + multiset{Latest(rows)} == multiset(rows)
  {
    RemoveAt(rows, LatestIndex(rows))
  }

  /** The table after a valid follow of `name`, saved with `stamp`. Only a
      table of exactly `Capacity` rows loses a row first; the new row always
      ends up last, so it is never the one evicted. */
  function Admitted(rows: seq<Subreddit>, name: string, stamp: nat): (r: seq<Subreddit>)
    ensures |r| > 0 && r[|r| - 1] == Subreddit(name, stamp)
    ensures |rows| == Capacity ==>
              |r| == Capacity &&
              multiset(r) + multiset{Latest(rows)} == multiset(rows) + multiset{Subreddit(name, stamp)}
    ensures |rows| != Capacity ==> |r| == |rows| + 1 && r[..|rows|] == rows
    ensures |rows| <= Capacity ==> |r| <= Capacity
  {
    (if |rows| == Capacity then Evicted(rows) else rows) + [Subreddit(name, stamp)]
  }

  /** While stamps increase, `latest` selects the last row saved, and
      eviction drops exactly that row. */
  lemma LatestIsLast(rows: seq<Subreddit>)
    requires |rows| > 0 && Increasing(rows)
    ensures LatestIndex(rows) == |rows| - 1
    ensures Evicted(rows) == rows[..|rows| - 1]
  {
  }

  /** The doc-comment promises to evict the oldest follow; the code does not.
      With two or more rows the first-saved (oldest) row survives eviction,
      and the row removed is strictly newer than it. */
  lemma EvictionKeepsOldest(rows: seq<Subreddit>)
    requires |rows| >= 2 && Increasing(rows)
    ensures Latest(rows).stamp > rows[0].stamp
    ensures rows[0] in Evicted(rows)
  {
    LatestIsLast(rows);
    assert Evicted(rows)[0] == rows[0];
  }

  /** A row list that is a prefix of an increasing one is increasing. */
  lemma PrefixIncreasing(rows: seq<Subreddit>, n: nat)
    requires n <= |rows| && Increasing(rows)
    ensures Increasing(rows[..n])
  {
  }

  /** Admission keeps the stamps increasing when the new stamp is larger
      than every stamp already in the table. */
  lemma AdmittedIncreasing(rows: seq<Subreddit>, name: string, stamp: nat)
    requires Increasing(rows)
    requires forall x :: x in rows ==> x.stamp < stamp
    ensures Increasing(Admitted(rows, name, stamp))
    ensures forall x :: x in Admitted(rows, name, stamp) ==> x.stamp <= stamp
  {
    var kept := if |rows| == Capacity then Evicted(rows) else rows;
    if |rows| == Capacity {
      LatestIsLast(rows);
      PrefixIncreasing(rows, |rows| - 1);
    }
    assert Increasing(kept);
    assert forall x :: x in kept ==> x in rows;
    assert Admitted(rows, name, stamp) == kept + [Subreddit(name, stamp)];
  }

  /** What a follow at full capacity really does: the most recent follow is
      replaced by the new one, and the four older rows stay in place. */
  lemma FullFollowReplacesNewest(rows: seq<Subreddit>, name: string, stamp: nat)
    requires |rows| == Capacity && Increasing(rows)
    ensures Admitted(rows, name, stamp) == rows[..Capacity - 1] + [Subreddit(name, stamp)]
  {
    LatestIsLast(rows);
  }

  /** Five follows a..e saved at stamps 1..5, then a follow of f: the table
      ends as a, b, c, d, f. The newest row (e) is gone and the oldest (a)
      is kept, the opposite of evicting the oldest. */
  lemma FullTableScenario(a: string, b: string, c: string, d: string, e: string, f: string)
    ensures Admitted([Subreddit(a, 1), Subreddit(b, 2), Subreddit(c, 3),
                      Subreddit(d, 4), Subreddit(e, 5)], f, 6)
         == [Subreddit(a, 1), Subreddit(b, 2), Subreddit(c, 3),
             Subreddit(d, 4), Subreddit(f, 6)]
  {
    var rows := FiveFollows(a, b, c, d, e);
    FullFollowReplacesNewest(rows, f, 6);
    FiveFollowsPrefix(a, b, c, d, e, f);
  }

  /** Fixture for `FullTableScenario` only, split out to keep that proof
      small: the table after following a..e at stamps 1..5. */
  function FiveFollows(a: string, b: string, c: string, d: string, e: string): (rows: seq<Subreddit>)
    ensures |rows| == Capacity && Increasing(rows)
  {
    var rows := [Subreddit(a, 1), Subreddit(b, 2), Subreddit(c, 3),
                 Subreddit(d, 4), Subreddit(e, 5)];
    assert Increasing(rows) by {
      forall i, j | 0 <= i < j < |rows| ensures rows[i].stamp < rows[j].stamp {
        assert rows[i].stamp == i + 1 && rows[j].stamp == j + 1;
      }
    }
    rows
  }

  /** Fixture for `FullTableScenario` only: the five rows of `FiveFollows`
      without the newest, then f. */
  lemma FiveFollowsPrefix(a: string, b: string, c: string, d: string, e: string, f: string)
    ensures FiveFollows(a, b, c, d, e)[..Capacity - 1] + [Subreddit(f, 6)]
         == [Subreddit(a, 1), Subreddit(b, 2), Subreddit(c, 3),
             Subreddit(d, 4), Subreddit(f, 6)]
  {
    var r := FiveFollows(a, b, c, d, e)[..Capacity - 1] + [Subreddit(f, 6)];
    assert r[0] == Subreddit(a, 1) && r[1] == Subreddit(b, 2) && r[2] == Subreddit(c, 3);
    assert r[3] == Subreddit(d, 4) && r[4] == Subreddit(f, 6);
  }

  /** Nothing rejects a name that is already followed: below capacity, a
      second follow of the same name adds a second row with that name. */
  lemma RepeatedNameAdmitted(rows: seq<Subreddit>, x: Subreddit, stamp: nat)
    requires |rows| < Capacity && x in rows
    ensures |Admitted(rows, x.name, stamp)| == |rows| + 1
    ensures x in Admitted(rows, x.name, stamp)
    ensures Subreddit(x.name, stamp) in Admitted(rows, x.name, stamp)
  {
    assert Admitted(rows, x.name, stamp) == rows + [Subreddit(x.name, stamp)];
  }

  /** The capacity test is `==`, not `>=`: a table that already holds more
      than `Capacity` rows is not trimmed, it grows by one. */
  lemma OverfullTableGrows(rows: seq<Subreddit>, name: string, stamp: nat)
    requires |rows| > Capacity
    ensures |Admitted(rows, name, stamp)| == |rows| + 1
    ensures multiset(rows) <= multiset(Admitted(rows, name, stamp))
  {
    assert Admitted(rows, name, stamp) == rows + [Subreddit(name, stamp)];
  }
}
