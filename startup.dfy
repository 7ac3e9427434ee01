/**
 The start-up step of the program: fetch the careers page once and save what
 it lists, unless the fetch gave nothing.
 */
module Startup {
  import opened Reconcile
  import opened JobStore
  import opened Scrape

  /** `if jobs := get_jobs(): save_jobs(DB_PATH, jobs)`. */
  method FetchAndSave(store: Store, page: Page, today: int)
    modifies store
    ensures var fetched := if page.Fetched? then Kept(page.anchors) else [];
      store.jobs == if fetched == [] then old(store.jobs) else Reconciled(old(store.jobs), fetched, today)
    ensures store.subscribers == old(store.subscribers)
  {
    var jobs := GetJobs(page);
    if jobs != [] {
      var _, _ := store.SaveJobs(jobs, today);
    }
  }
}
