/**
 The unit of data that flows from the scraper into the job store: one job
 posting, identified by its url and shown by its name.
 */
module Postings {

  /** A scraped posting: `{'name': ..., 'url': ...}` in the source. */
  datatype Posting = Posting(name: string, url: string)

  /** The set of urls that occur in a batch of postings. */
  function Urls(batch: seq<Posting>): set<string>
  {
    set i | 0 <= i < |batch| :: batch[i].url
  }

  /** Adding one posting at the end of a batch adds exactly its url. */
  lemma UrlsSnoc(batch: seq<Posting>)
    requires batch != []
    ensures Urls(batch) == Urls(batch[..|batch| - 1]) + {batch[|batch| - 1].url}
  {
    var init := batch[..|batch| - 1];
    forall u | u in Urls(batch) && u != batch[|batch| - 1].url
      ensures u in Urls(init)
    {
      var i :| 0 <= i < |batch| && batch[i].url == u;
      assert init[i] == batch[i];
    }
    forall u | u in Urls(init)
      ensures u in Urls(batch)
    {
      var i :| 0 <= i < |init| && init[i].url == u;
      assert batch[i] == init[i];
    }
  }
}
