/**
 * One watch cycle: load the seen ids, walk the listing pages, keep the unseen items,
 * record their ids, send the notification, and report the counts.
 */
module Watcher {
  import opened Wrappers
  import opened Items
  import opened Scraper
  import opened Repository
  import opened Notifier

  /** `_filter_new_items`: the items whose id is not among the seen ids, in input order. */
  function FilterNew(all: seq<Item>, seen: set<string>): (r: seq<Item>)
    ensures forall x :: x in r <==> x in all && x.id !in seen
    ensures |r| <= |all|
    decreases |all|
  {
    if all == [] then []
    else (if all[0].id in seen then [] else [all[0]]) + FilterNew(all[1..], seen)
  }

  /** The filter keeps input order: filtering a concatenation concatenates the filtered parts. */
  lemma {:induction false} FilterNewAppend(a: seq<Item>, b: seq<Item>, seen: set<string>)
    ensures FilterNew(a + b, seen) == FilterNew(a, seen) + FilterNew(b, seen)
    decreases |a|
  {
    if a != [] {
      assert (a + b)[0] == a[0] && (a + b)[1..] == a[1..] + b;
      FilterNewAppend(a[1..], b, seen);
    } else {
      assert a + b == b;
    }
  }

  /** Each unseen item is kept as often as it occurs, each seen one is dropped entirely. */
  lemma {:induction false} FilterNewCounts(all: seq<Item>, seen: set<string>, x: Item)
    ensures multiset(FilterNew(all, seen))[x] == if x.id in seen then 0 else multiset(all)[x]
    decreases |all|
  {
    if all != [] {
      FilterNewCounts(all[1..], seen, x);
      assert all == [all[0]] + all[1..];
    }
  }

  /** The kept ids are the fetched ids minus the seen ones, and distinct ids stay distinct. */
  lemma FilterNewIds(all: seq<Item>, seen: set<string>)
    ensures IdSet(FilterNew(all, seen)) == IdSet(all) - seen
    ensures DistinctIds(all) ==> DistinctIds(FilterNew(all, seen))
  {
    var r := FilterNew(all, seen);
    forall k | k in IdSet(all) - seen ensures k in IdSet(r) {
      var i :| 0 <= i < |all| && all[i].id == k;
      assert all[i] in r;
      var j :| 0 <= j < |r| && r[j] == all[i];
    }
    forall k | k in IdSet(r) ensures k in IdSet(all) - seen {
      var j :| 0 <= j < |r| && r[j].id == k;
      assert r[j] in all;
      var i :| 0 <= i < |all| && all[i] == r[j];
    }
    if DistinctIds(all) { FilterNewDistinct(all, seen); }
  }

  lemma {:induction false} FilterNewDistinct(all: seq<Item>, seen: set<string>)
    requires DistinctIds(all)
    ensures DistinctIds(FilterNew(all, seen))
    decreases |all|
  {
    if all != [] {
      var tail := FilterNew(all[1..], seen);
      FilterNewDistinct(all[1..], seen);
      forall j | 0 <= j < |tail| ensures tail[j].id != all[0].id {
        assert tail[j] in all[1..];
        var i :| 0 <= i < |all[1..]| && all[1..][i] == tail[j];
        assert all[i + 1] == tail[j];
      }
    }
  }

  /** The ids of a list of items, in order, as `add_seen_ids` receives them. */
  function IdList(xs: seq<Item>): seq<string> {
    seq(|xs|, i requires 0 <= i < |xs| => xs[i].id)
  }

  lemma IdListElements(xs: seq<Item>)
    ensures Elements(IdList(xs)) == IdSet(xs)
  {
    var ids := IdList(xs);
    forall k | k in IdSet(xs) ensures k in Elements(ids) {
      var i :| 0 <= i < |xs| && xs[i].id == k;
      assert ids[i] == k;
    }
  }

  /** The table after the run's conditional write of the new items' ids. */
  function RecordNew(rows: Rows, newItems: seq<Item>, now: string): Rows {
    if newItems == [] then rows else InsertOrIgnore(rows, IdList(newItems), now)
  }

  /**
   * After a run every fetched id is in the table; the rows that were there keep their
   * first-seen time, and nothing at all is written when nothing is new.
   */
  lemma RunRecordsEveryFetchedId(rows: Rows, all: seq<Item>, now: string)
    ensures var after := RecordNew(rows, FilterNew(all, rows.Keys), now);
      && after.Keys == rows.Keys + IdSet(all)
      && (forall k :: k in rows ==> k in after && after[k] == rows[k])
      && (FilterNew(all, rows.Keys) == [] ==> after == rows)
  {
    var newItems := FilterNew(all, rows.Keys);
    FilterNewIds(all, rows.Keys);
    if newItems != [] {
      RecordNewKeys(rows, newItems, now);
    } else {
      assert IdSet(newItems) == {};
    }
  }

  lemma RecordNewKeys(rows: Rows, newItems: seq<Item>, now: string)
    requires newItems != []
    ensures RecordNew(rows, newItems, now).Keys == rows.Keys + IdSet(newItems)
    ensures forall k :: k in rows ==> k in RecordNew(rows, newItems, now) && RecordNew(rows, newItems, now)[k] == rows[k]
  {
    IdListElements(newItems);
    InsertOrIgnoreGrowth(rows, IdList(newItems), now);
  }

  /** Nothing is new when every fetched id has been seen. */
  lemma {:induction false} FilterNewAllSeen(all: seq<Item>, seen: set<string>)
    requires IdSet(all) <= seen
    ensures FilterNew(all, seen) == []
    decreases |all|
  {
    if all != [] {
      assert all[0].id in IdSet(all);
      assert IdSet(all[1..]) <= IdSet(all) by {
        forall k | k in IdSet(all[1..]) ensures k in IdSet(all) {
          var i :| 0 <= i < |all[1..]| && all[1..][i].id == k;
          assert all[i + 1].id == k;
        }
      }
      FilterNewAllSeen(all[1..], seen);
    }
  }

  /** A second run over the same pages finds nothing new. */
  lemma SecondRunFindsNothing(rows: Rows, all: seq<Item>, now: string)
    ensures FilterNew(all, RecordNew(rows, FilterNew(all, rows.Keys), now).Keys) == []
  {
    var after := RecordNew(rows, FilterNew(all, rows.Keys), now);
    RunRecordsEveryFetchedId(rows, all, now);
    FilterNewAllSeen(all, after.Keys);
  }

  /** The counts a run reports. */
  datatype WatchResult = WatchResult(newItems: nat, totalItems: nat)

  datatype RunError = FetchFailed(cause: FetchError) | SendFailed

  /** `AuctionWatcher`: the store, the scraper, the mail side and the page ceiling. */
  class AuctionWatcher {
    const repository: ItemRepository
    const scraper: Site
    const outbox: Outbox
    const maxPages: int

    constructor (repository: ItemRepository, scraper: Site, outbox: Outbox, maxPages: int)
      ensures this.repository == repository && this.scraper == scraper
      ensures this.outbox == outbox && this.maxPages == maxPages
    {
      this.repository := repository;
      this.scraper := scraper;
      this.outbox := outbox;
      this.maxPages := maxPages;
    }

    /**
     * `run`: a fetch error ends the run before anything is recorded or sent; otherwise the
     * new items' ids are recorded (only if there are any), then exactly one notification is
     * attempted, and the counts are returned when it goes out. A failed send leaves the ids
     * recorded.
     */
    method Run(now: string) returns (r: Result<WatchResult, RunError>)
      requires repository.Valid()
      modifies repository, outbox
      ensures repository.Valid() && repository.hasTable
      ensures FetchAll(scraper, maxPages).Failure? ==>
        && r == Failure(FetchFailed(FetchAll(scraper, maxPages).error))
        && repository.rows == old(repository.rows)
        && outbox.attempted == old(outbox.attempted)
        && outbox.delivered == old(outbox.delivered)
      ensures FetchAll(scraper, maxPages).Success? ==>
        var all := FetchAll(scraper, maxPages).value;
        var newItems := FilterNew(all, old(repository.rows).Keys);
        && repository.rows == RecordNew(old(repository.rows), newItems, now)
        && outbox.attempted == old(outbox.attempted) + [Notification(newItems)]
        && outbox.delivered == old(outbox.delivered) + (if outbox.reachable then [Notification(newItems)] else [])
        && r == if outbox.reachable then Success(WatchResult(|newItems|, |all|)) else Failure(SendFailed)
    {
      repository.Initialize();
      var seenIds := repository.GetSeenIds();
      var fetched, _ := FetchAllItems(scraper, maxPages);
      if fetched.Failure? {
        return Failure(FetchFailed(fetched.error));
      }
      var allItems := fetched.value;
      var newItems := FilterNew(allItems, seenIds);
      if newItems != [] {
        var newIds := IdList(newItems);
        var rowsAdded := repository.AddSeenIds(newIds, now);
      }
      var sent := SendNotification(outbox, newItems, |allItems|);
      if !sent {
        return Failure(SendFailed);
      }
      return Success(WatchResult(|newItems|, |allItems|));
    }
  }

  /**
   * Two runs against an unchanged site that answers and a reachable mail server: the
   * second reports no new items and the same total.
   */
  method RunTwice(w: AuctionWatcher, now: string, later: string)
    returns (first: Result<WatchResult, RunError>, second: Result<WatchResult, RunError>)
    requires w.repository.Valid()
    requires FetchAll(w.scraper, w.maxPages).Success? && w.outbox.reachable
    modifies w.repository, w.outbox
    ensures first.Success? && second.Success?
    ensures second.value.newItems == 0
    ensures second.value.totalItems == first.value.totalItems
    ensures first.value.newItems <= first.value.totalItems
  {
    ghost var rows0 := w.repository.rows;
    first := w.Run(now);
    second := w.Run(later);
    SecondRunFindsNothing(rows0, FetchAll(w.scraper, w.maxPages).value, now);
  }
}
