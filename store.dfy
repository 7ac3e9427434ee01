/**
 The SQLite database of the job tracker: the `jobs` table (keyed by its UNIQUE
 url) and the `subscribers` table (keyed by the Telegram user id), with one
 method per database function. The current date is a parameter.
 */
module JobStore {
  import opened Postings
  import opened Reconcile
  import opened Listing

  /** One row of the `subscribers` table, without its user id (the map key). */
  datatype Subscriber = Subscriber(firstName: string, subscribedDate: int)

  class Store {
    var jobs: Table
    var subscribers: map<int, Subscriber>

    /** A database that `init_database` has just created. */
    constructor ()
      ensures jobs == map[] && subscribers == map[]
    {
      jobs := map[];
      subscribers := map[];
    }

    /**
     `save_jobs`: deactivate every row, then refresh or insert each posting of
     the batch in order; returns how many postings were new and how many updated.
     */
    method SaveJobs(batch: seq<Posting>, today: int) returns (newJobs: nat, updatedJobs: nat)
      modifies this
      ensures jobs == Reconciled(old(jobs), batch, today)
      ensures newJobs == |Urls(batch) - old(jobs).Keys|
      ensures newJobs + updatedJobs == |batch|
      ensures subscribers == old(subscribers)
    {
      ghost var stored := jobs.Keys;
      jobs := Deactivated(jobs);
      ghost var start := jobs;
      newJobs, updatedJobs := 0, 0;
      for i := 0 to |batch|
        invariant jobs == ObserveAll(start, batch[..i], today)
        invariant jobs.Keys == stored + Urls(batch[..i])
        invariant newJobs == NewJobs(stored, batch[..i])
        invariant newJobs + updatedJobs == i
        invariant subscribers == old(subscribers)
      {
        var job := batch[i];
        ObserveAllStep(start, batch, i, today);
        NewJobsStep(stored, batch, i);
        if job.url in jobs {
          jobs := jobs[job.url := jobs[job.url].(name := job.name, lastSeen := today, isActive := true)];
          updatedJobs := updatedJobs + 1;
        } else {
          jobs := jobs[job.url := Job(job.name, today, today, true)];
          newJobs := newJobs + 1;
        }
      }
      assert batch[..|batch|] == batch;
      NewJobsCount(stored, batch);
    }

    /** `get_all_jobs`: the active rows (or all rows), newest first_seen first. */
    method GetAllJobs(activeOnly: bool) returns (rows: seq<JobRow>)
      ensures IsListing(rows, if activeOnly then ActiveJobs(jobs) else jobs)
      ensures forall i :: 0 <= i < |rows| ==> rows[i].url in jobs && (activeOnly ==> rows[i].isActive)
    {
      rows := Enumerate(if activeOnly then ActiveJobs(jobs) else jobs);
    }

    /** `get_new_jobs_today`: the active rows first seen on `today`. */
    method GetNewJobsToday(today: int) returns (rows: seq<JobRow>)
      ensures IsListing(rows, NewToday(jobs, today))
      ensures forall i :: 0 <= i < |rows| ==> rows[i].isActive && rows[i].firstSeen == today
    {
      rows := Enumerate(NewToday(jobs, today));
    }

    /**
     `update_discovery_date_by_url`: set first_seen of the row at `url`;
     false, and nothing changed, when no row has that url.
     */
    method UpdateDiscoveryDate(url: string, date: int) returns (found: bool)
      modifies this
      ensures found <==> url in old(jobs)
      ensures found ==> jobs == old(jobs)[url := old(jobs)[url].(firstSeen := date)]
      ensures !found ==> jobs == old(jobs)
      ensures subscribers == old(subscribers)
    {
      found := url in jobs;
      if found {
        jobs := jobs[url := jobs[url].(firstSeen := date)];
      }
    }

    /** `subscribe_user`: true if newly subscribed, false (and nothing changed) if already there. */
    method SubscribeUser(userId: int, firstName: string, today: int) returns (added: bool)
      modifies this
      ensures added <==> userId !in old(subscribers)
      ensures added ==> subscribers == old(subscribers)[userId := Subscriber(firstName, today)]
      ensures !added ==> subscribers == old(subscribers)
      ensures userId in subscribers
      ensures jobs == old(jobs)
    {
      if userId in subscribers {
        return false;
      }
      subscribers := subscribers[userId := Subscriber(firstName, today)];
      added := true;
    }

    /** `unsubscribe_user`: removes the id; true exactly when a row was deleted. */
    method UnsubscribeUser(userId: int) returns (removed: bool)
      modifies this
      ensures removed <==> userId in old(subscribers)
      ensures subscribers == old(subscribers) - {userId}
      ensures userId !in subscribers
      ensures jobs == old(jobs)
    {
      removed := userId in subscribers;
      subscribers := subscribers - {userId};
    }

    /** `get_subscribers`: the user id of every row of `subscribers`, each once. */
    method GetSubscribers() returns (ids: seq<int>)
      ensures forall id :: id in ids <==> id in subscribers
      ensures forall i, j :: 0 <= i < j < |ids| ==> ids[i] != ids[j]
    {
      ids := [];
      var left := subscribers.Items;
      ghost var done: set<(int, Subscriber)> := {};
      while left != {}
        invariant done + left == subscribers.Items && done !! left
        invariant forall i :: 0 <= i < |ids| ==> ids[i] in subscribers && (ids[i], subscribers[ids[i]]) in done
        invariant forall row :: row in done ==> row.0 in ids
        invariant forall i, j :: 0 <= i < j < |ids| ==> ids[i] != ids[j]
        decreases left
      {
        var row :| row in left;
        ids := ids + [row.0];
        left, done := left - {row}, done + {row};
      }
      forall id | id in subscribers ensures id in ids {
        assert (id, subscribers[id]) in subscribers.Items;
      }
    }

    /** `is_subscribed`: whether the `subscribers` table has a row for the id. */
    method IsSubscribed(userId: int) returns (subscribed: bool)
      ensures subscribed <==> userId in subscribers
    {
      subscribed := userId in subscribers;
    }
  }
}
