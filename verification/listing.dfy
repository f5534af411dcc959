/** The thread list of one board: the ten most recently bumped threads,
    most recent first, each shown as a summary. */
module Listing {
  import opened Entities
  import opened Projection

  /** How many threads the list view returns at most. */
  const PageSize: nat := 10

  /** `ids` is a valid answer to the list query on `threads`: as many distinct
      threads as the page holds, ordered by bump time with the latest first,
      and no thread left out bumped later than the last one shown. Threads
      bumped at the same time may come in any order. */
  ghost predicate IsListing(threads: map<Id, Thread>, ids: seq<Id>) {
    && |ids| == Min(PageSize, |threads|)
    && (forall i :: 0 <= i < |ids| ==> ids[i] in threads)
    && (forall i, j :: 0 <= i < j < |ids| ==>
          ids[i] != ids[j] && threads[ids[j]].bumpedOn <= threads[ids[i]].bumpedOn)
    && (forall k :: k in threads && k !in ids ==>
          0 < |ids| && threads[k].bumpedOn <= threads[ids[|ids| - 1]].bumpedOn)
  }

  /** `m` is a thread of `pool` bumped no earlier than any other in it. */
  predicate IsMostRecent(threads: map<Id, Thread>, pool: set<Id>, m: Id)
    requires pool <= threads.Keys
  {
    m in pool && forall k :: k in pool ==> threads[k].bumpedOn <= threads[m].bumpedOn
  }

  lemma {:induction false} MostRecentExists(threads: map<Id, Thread>, pool: set<Id>)
    requires pool != {} && pool <= threads.Keys
    ensures exists m :: IsMostRecent(threads, pool, m)
    decreases |pool|
  {
    var x :| x in pool;
    if pool == {x} {
      assert IsMostRecent(threads, pool, x);
    } else {
      var rest := pool - {x};
      MostRecentExists(threads, rest);
      var m :| IsMostRecent(threads, rest, m);
      if threads[x].bumpedOn <= threads[m].bumpedOn {
        assert IsMostRecent(threads, pool, m);
      } else {
        assert IsMostRecent(threads, pool, x);
      }
    }
  }

  /** The sort-by-bump-time-descending, limit-ten query. */
  method SelectRecent(threads: map<Id, Thread>) returns (ids: seq<Id>)
    ensures IsListing(threads, ids)
  {
    ids := [];
    var pool := threads.Keys;
    while |ids| < PageSize && pool != {}
      invariant pool <= threads.Keys
      invariant |ids| <= PageSize
      invariant |ids| + |pool| == |threads|
      invariant forall i :: 0 <= i < |ids| ==> ids[i] in threads && ids[i] !in pool
      invariant forall k :: k in threads && k !in pool ==> k in ids
      invariant forall i, j :: 0 <= i < j < |ids| ==>
        ids[i] != ids[j] && threads[ids[j]].bumpedOn <= threads[ids[i]].bumpedOn
      invariant forall k, i :: k in pool && 0 <= i < |ids| ==>
        threads[k].bumpedOn <= threads[ids[i]].bumpedOn
      decreases |pool|
    {
      MostRecentExists(threads, pool);
      var m :| IsMostRecent(threads, pool, m);
      ids := ids + [m];
      pool := pool - {m};
    }
  }

  /** The summaries of the selected threads, in the selected order. */
  function Summaries(threads: map<Id, Thread>, ids: seq<Id>): (r: seq<Summary>)
    requires forall i :: 0 <= i < |ids| ==> ids[i] in threads
  {
    seq(|ids|, i requires 0 <= i < |ids| => Summarize(ids[i], threads[ids[i]]))
  }
}
