/**
 The reconciliation that `save_jobs` performs on the `jobs` table, stated as
 pure functions over a map from url to row (the url column is UNIQUE, so the
 table is a finite map), together with what it guarantees.
 */
module Reconcile {
  import opened Postings

  /** One row of the `jobs` table, without its url (the map key). Dates are day numbers. */
  datatype Job = Job(name: string, firstSeen: int, lastSeen: int, isActive: bool)

  /** The `jobs` table, keyed by url. */
  type Table = map<string, Job>

  /** `UPDATE jobs SET is_active = FALSE`: every row, inactive. */
  function Deactivated(jobs: Table): Table
  {
    map u | u in jobs :: jobs[u].(isActive := false)
  }

  /** One pass of the loop body of `save_jobs`: refresh a known url, insert an unknown one. */
  function Observe(jobs: Table, p: Posting, today: int): Table
  {
    if p.url in jobs then
      jobs[p.url := jobs[p.url].(name := p.name, lastSeen := today, isActive := true)]
    else
      jobs[p.url := Job(p.name, today, today, true)]
  }

  /** The loop of `save_jobs`, postings processed in batch order. */
  function ObserveAll(jobs: Table, batch: seq<Posting>, today: int): Table
    decreases |batch|
  {
    if batch == [] then jobs
    else Observe(ObserveAll(jobs, batch[..|batch| - 1], today), batch[|batch| - 1], today)
  }

  /** The whole table after `save_jobs(batch)` on day `today`. */
  function Reconciled(jobs: Table, batch: seq<Posting>, today: int): Table
  {
    ObserveAll(Deactivated(jobs), batch, today)
  }

  /**
   The `new_jobs` counter of `save_jobs`: the number of batch positions whose
   url is neither stored beforehand nor seen earlier in the same batch.
   */
  function NewJobs(stored: set<string>, batch: seq<Posting>): nat
    decreases |batch|
  {
    if batch == [] then 0
    else
      var init := batch[..|batch| - 1];
      NewJobs(stored, init) + (if batch[|batch| - 1].url in stored + Urls(init) then 0 else 1)
  }

  /** One more iteration of the loop: the prefix up to `i` inclusive. */
  lemma ObserveAllStep(jobs: Table, batch: seq<Posting>, i: nat, today: int)
    requires i < |batch|
    ensures ObserveAll(jobs, batch[..i + 1], today) == Observe(ObserveAll(jobs, batch[..i], today), batch[i], today)
    ensures ObserveAll(jobs, batch[..i + 1], today).Keys == ObserveAll(jobs, batch[..i], today).Keys + {batch[i].url}
  {
    assert batch[..i + 1][..i] == batch[..i];
  }

  /** One more iteration of the loop: the counter grows exactly for an unseen url. */
  lemma NewJobsStep(stored: set<string>, batch: seq<Posting>, i: nat)
    requires i < |batch|
    ensures NewJobs(stored, batch[..i + 1]) ==
      NewJobs(stored, batch[..i]) + (if batch[i].url in stored + Urls(batch[..i]) then 0 else 1)
    ensures Urls(batch[..i + 1]) == Urls(batch[..i]) + {batch[i].url}
  {
    assert batch[..i + 1][..i] == batch[..i];
    UrlsSnoc(batch[..i + 1]);
  }

  /** The position of the last posting with url `u`: the one whose name a batch leaves behind. */
  function LastIndexOf(batch: seq<Posting>, u: string): (i: nat)
    requires u in Urls(batch)
    ensures i < |batch| && batch[i].url == u
    ensures forall j :: i < j < |batch| ==> batch[j].url != u
    decreases |batch|
  {
    if batch[|batch| - 1].url == u then |batch| - 1
    else
      UrlsSnoc(batch);
      LastIndexOf(batch[..|batch| - 1], u)
  }

  /** The key set grows by exactly the batch urls. */
  lemma {:induction false} ObserveAllKeys(jobs: Table, batch: seq<Posting>, today: int)
    ensures ObserveAll(jobs, batch, today).Keys == jobs.Keys + Urls(batch)
    decreases |batch|
  {
    if batch != [] {
      ObserveAllKeys(jobs, batch[..|batch| - 1], today);
      UrlsSnoc(batch);
    }
  }

  /**
   What the loop leaves at one url: a url of the batch carries the name of its
   last posting, `today` as last_seen, is active, and keeps its first_seen if
   it was stored (else `today`); any other url is exactly as it was.
   */
  lemma {:induction false} ObserveAllAt(jobs: Table, batch: seq<Posting>, today: int, u: string)
    ensures var after := ObserveAll(jobs, batch, today);
      u in Urls(batch) ==>
        u in after &&
        after[u] == Job(batch[LastIndexOf(batch, u)].name,
                        if u in jobs then jobs[u].firstSeen else today, today, true)
    ensures var after := ObserveAll(jobs, batch, today);
      u !in Urls(batch) ==> (u in after <==> u in jobs) && (u in jobs ==> after[u] == jobs[u])
    decreases |batch|
  {
    if batch != [] {
      var init := batch[..|batch| - 1];
      ObserveAllAt(jobs, init, today, u);
      UrlsSnoc(batch);
      if batch[|batch| - 1].url != u && u in Urls(batch) {
        assert batch[LastIndexOf(batch, u)] == init[LastIndexOf(init, u)];
      }
    }
  }

  /** After `save_jobs`, a stored job is active exactly when its url occurs in the batch. */
  lemma ReconciledActiveIff(jobs: Table, batch: seq<Posting>, today: int)
    ensures var after := Reconciled(jobs, batch, today);
      forall u :: u in after ==> (after[u].isActive <==> u in Urls(batch))
  {
    forall u | u in Reconciled(jobs, batch, today) {
      ObserveAllAt(Deactivated(jobs), batch, today, u);
    }
  }

  /** No row is ever deleted: the urls afterwards are the old urls and the batch urls. */
  lemma ReconciledKeys(jobs: Table, batch: seq<Posting>, today: int)
    ensures Reconciled(jobs, batch, today).Keys == jobs.Keys + Urls(batch)
  {
    ObserveAllKeys(Deactivated(jobs), batch, today);
  }

  /** A row whose url is not in the batch keeps name and dates and is only deactivated. */
  lemma ReconciledUnseen(jobs: Table, batch: seq<Posting>, today: int)
    ensures var after := Reconciled(jobs, batch, today);
      forall u :: u in jobs && u !in Urls(batch) ==>
        u in after && after[u] == jobs[u].(isActive := false)
  {
    forall u | u in jobs && u !in Urls(batch) {
      ObserveAllAt(Deactivated(jobs), batch, today, u);
    }
  }

  /**
   A url of the batch ends active, seen `today`, named after its last posting in
   the batch; it keeps its first_seen when it was stored, else first_seen is `today`.
   */
  lemma ReconciledSeen(jobs: Table, batch: seq<Posting>, today: int)
    ensures var after := Reconciled(jobs, batch, today);
      forall u :: u in Urls(batch) ==>
        u in after &&
        after[u].name == batch[LastIndexOf(batch, u)].name &&
        after[u].firstSeen == (if u in jobs then jobs[u].firstSeen else today) &&
        after[u].lastSeen == today && after[u].isActive
  {
    forall u | u in Urls(batch) {
      ObserveAllAt(Deactivated(jobs), batch, today, u);
    }
  }

  /** `new_jobs` is the number of distinct batch urls that were not stored before. */
  lemma {:induction false} NewJobsCount(stored: set<string>, batch: seq<Posting>)
    ensures NewJobs(stored, batch) == |Urls(batch) - stored|
    decreases |batch|
  {
    if batch != [] {
      var init := batch[..|batch| - 1];
      var u := batch[|batch| - 1].url;
      NewJobsCount(stored, init);
      UrlsSnoc(batch);
      if u in stored + Urls(init) {
        assert Urls(batch) - stored == Urls(init) - stored;
      } else {
        assert Urls(batch) - stored == (Urls(init) - stored) + {u};
      }
    }
  }

  /**
   Re-running the same batch (on any day) finds no new job, creates no row,
   leaves every row's activity and first_seen as they were.
   */
  lemma ReconcileTwice(jobs: Table, batch: seq<Posting>, today: int, later: int)
    ensures var once := Reconciled(jobs, batch, today);
      var twice := Reconciled(once, batch, later);
      && NewJobs(once.Keys, batch) == 0
      && twice.Keys == once.Keys
      && forall u :: u in twice ==>
           twice[u].isActive == once[u].isActive && twice[u].firstSeen == once[u].firstSeen
  {
    var once := Reconciled(jobs, batch, today);
    ReconciledKeys(jobs, batch, today);
    ReconciledKeys(once, batch, later);
    NewJobsCount(once.Keys, batch);
    assert Urls(batch) - once.Keys == {};
    ReconciledActiveIff(jobs, batch, today);
    ReconciledActiveIff(once, batch, later);
    ReconciledSeen(once, batch, later);
    ReconciledUnseen(once, batch, later);
  }
}
