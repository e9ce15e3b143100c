/** The `follow` view and its eviction helper, as operations on one table
    that they update in place.

    HTTP plumbing is reduced to what the view branches on: the request
    method and the submitted `name` field. What the view answers is reduced
    to a tag: `Redirect` for a request that is not a POST, `Invalid` for a
    form that fails validation, `Followed` for a saved follow (which the
    view also answers with a redirect).
 */
module Views {
  import opened Subreddits

  /** The parts of an HTTP request the view reads. A POST without a `name`
      field is represented by the empty name: both fail the required check. */
  datatype Request = Request(verb: string, name: string)

  datatype Outcome = Redirect | Invalid | Followed

  /** The `Subreddit` table. `rows` lists the rows in the order they were
      saved; `clock` is the stamp the next saved row receives, standing for
      the `date_followed` the view orders by. */
  class SubredditTable {
    var rows: seq<Subreddit>
    var clock: nat

    /** Every row was stamped when it was saved, in save order. */
    ghost predicate Valid()
      reads this
    {
      Increasing(rows) && forall x :: x in rows ==> x.stamp < clock
    }

    constructor ()
      ensures Valid()
      ensures rows == [] && clock == 0
    {
      rows := [];
      clock := 0;
    }

    /** `evict_oldest_subreddit`: delete the row `latest('date_followed')`
        selects. Despite the name, that is the row with the largest stamp,
        which is the most recently saved one. `latest` on an empty table
        raises, so the table must hold a row. */
    method EvictOldestSubreddit()
      requires Valid() && |rows| > 0
      modifies this
      ensures Valid()
      ensures rows == Evicted(old(rows)) && clock == old(clock)
      ensures multiset(rows) + multiset{Latest(old(rows))} == multiset(old(rows))
      ensures rows == old(rows)[..|old(rows)| - 1]
    {
      LatestIsLast(rows);
      var k := LatestIndex(rows);
      rows := rows[..k] + rows[k + 1..];
    }

    /** `follow_form.save()`: a new row with the submitted name, stamped
        with the next stamp, goes after every existing row. */
    method Save(name: string)
      requires Valid()
      modifies this
      ensures Valid()
      ensures rows == old(rows) + [Subreddit(name, old(clock))]
      ensures clock == old(clock) + 1
    {
      rows := rows + [Subreddit(name, clock)];
      clock := clock + 1;
    }

    /** The `follow` view. Only a POST with a valid name touches the table:
        if it holds exactly `Capacity` rows one is evicted, then the new row
        is saved. Every other request leaves the table as it was. */
    method Follow(request: Request) returns (outcome: Outcome)
      requires Valid()
      modifies this
      ensures Valid()
      ensures request.verb != "POST" ==>
                outcome == Redirect && rows == old(rows) && clock == old(clock)
      ensures request.verb == "POST" && !ValidName(request.name) ==>
                outcome == Invalid && rows == old(rows) && clock == old(clock)
      ensures request.verb == "POST" && ValidName(request.name) ==>
                outcome == Followed &&
                rows == Admitted(old(rows), request.name, old(clock)) &&
                clock == old(clock) + 1
      ensures old(|rows|) <= Capacity ==> |rows| <= Capacity
    {
      if request.verb == "POST" {
        if ValidName(request.name) {
          var count := |rows|;
          if count == Capacity {
            EvictOldestSubreddit();
          }
          Save(request.name);
          outcome := Followed;
        } else {
          outcome := Invalid;
        }
      } else {
        outcome := Redirect;
      }
    }
  }
}
