/**
 The read queries of the job store: a filter over the `jobs` table followed by
 `ORDER BY first_seen DESC`. SQL leaves the order of equal first_seen dates
 open, so a listing is specified by its contents and its order only.
 */
module Listing {
  import opened Reconcile

  /** One result row: `SELECT name, url, first_seen, last_seen, is_active`. */
  datatype JobRow = JobRow(name: string, url: string, firstSeen: int, lastSeen: int, isActive: bool)

  /** The result row of the table entry at `url`. */
  function RowOf(url: string, job: Job): JobRow
  {
    JobRow(job.name, url, job.firstSeen, job.lastSeen, job.isActive)
  }

  /** `ORDER BY first_seen DESC`. */
  predicate NewestFirst(rows: seq<JobRow>)
  {
    forall i, j :: 0 <= i < j < |rows| ==> rows[i].firstSeen >= rows[j].firstSeen
  }

  /** No url is listed twice. */
  predicate DistinctUrls(rows: seq<JobRow>)
  {
    forall i, j :: 0 <= i < j < |rows| ==> rows[i].url != rows[j].url
  }

  /** The urls a listing shows. */
  function UrlsOf(rows: seq<JobRow>): set<string>
  {
    set i | 0 <= i < |rows| :: rows[i].url
  }

  /** Every row is the row of its table entry. */
  predicate RowsMatch(rows: seq<JobRow>, table: Table)
  {
    forall i :: 0 <= i < |rows| ==>
      rows[i].url in table && rows[i] == RowOf(rows[i].url, table[rows[i].url])
  }

  /** The rows are exactly those of the table's entries. */
  predicate Covers(rows: seq<JobRow>, table: Table)
  {
    RowsMatch(rows, table) && UrlsOf(rows) == table.Keys
  }

  /** A valid answer of `SELECT ... FROM table ORDER BY first_seen DESC`. */
  predicate IsListing(rows: seq<JobRow>, table: Table)
  {
    NewestFirst(rows) && DistinctUrls(rows) && Covers(rows, table)
  }

  /** `WHERE is_active = TRUE`. */
  function ActiveJobs(table: Table): Table
  {
    map u | u in table && table[u].isActive :: table[u]
  }

  /** `WHERE first_seen = today AND is_active = TRUE`. */
  function NewToday(table: Table, today: int): Table
  {
    map u | u in table && table[u].isActive && table[u].firstSeen == today :: table[u]
  }

  /**
   The engine's scan and sort: visits the entries of `table` one at a time and
   inserts each row behind every row with an equal or later first_seen.
   */
  method Enumerate(table: Table) returns (rows: seq<JobRow>)
    ensures IsListing(rows, table)
    ensures |rows| == |table|
  {
    rows := [];
    var left := table.Keys;
    ghost var done: set<string> := {};
    ListsNone(table);
    while left != {}
      invariant done + left == table.Keys && done !! left
      invariant ListsPart(rows, table, done)
      decreases left
    {
      var u :| u in left;
      rows := InsertRow(rows, table, done, u);
      left, done := left - {u}, done + {u};
    }
    ListsAll(rows, table, done);
  }

  /** One step of the sort: the row of `u` goes behind every row with an equal or later first_seen. */
  method InsertRow(rows: seq<JobRow>, table: Table, ghost done: set<string>, u: string) returns (grown: seq<JobRow>)
    requires ListsPart(rows, table, done) && u in table && u !in done
    ensures ListsPart(grown, table, done + {u})
  {
    var k := InsertionPoint(rows, table[u].firstSeen);
    InsertAt(rows, table, done, k, u);
    grown := rows[..k] + [RowOf(u, table[u])] + rows[k..];
  }

  /** The empty listing lists no entry. */
  lemma ListsNone(table: Table)
    ensures ListsPart([], table, {})
  {
  }

  /** A listing of every entry of the table is a listing of the table. */
  lemma ListsAll(rows: seq<JobRow>, table: Table, done: set<string>)
    requires ListsPart(rows, table, done) && done == table.Keys
    ensures IsListing(rows, table) && |rows| == |table|
  {
    assert |table| == |table.Keys|;
  }

  /** The first position whose row was first seen before `firstSeen`. */
  method InsertionPoint(rows: seq<JobRow>, firstSeen: int) returns (k: nat)
    ensures k <= |rows|
    ensures forall i :: 0 <= i < k ==> rows[i].firstSeen >= firstSeen
    ensures k < |rows| ==> rows[k].firstSeen < firstSeen
  {
    k := 0;
    while k < |rows| && rows[k].firstSeen >= firstSeen
      invariant k <= |rows|
      invariant forall i :: 0 <= i < k ==> rows[i].firstSeen >= firstSeen
    {
      k := k + 1;
    }
  }

  /** `rows` is an ordered listing of the entries of `table` whose urls are in `done`. */
  predicate ListsPart(rows: seq<JobRow>, table: Table, done: set<string>)
  {
    && done <= table.Keys
    && NewestFirst(rows) && DistinctUrls(rows) && |rows| == |done|
    && RowsMatch(rows, table) && UrlsOf(rows) == done
  }

  /** Inserting the row of a further url before the first row with an earlier first_seen. */
  lemma InsertAt(rows: seq<JobRow>, table: Table, done: set<string>, k: nat, u: string)
    requires ListsPart(rows, table, done) && u in table && u !in done && k <= |rows|
    requires forall i :: 0 <= i < k ==> rows[i].firstSeen >= table[u].firstSeen
    requires k < |rows| ==> rows[k].firstSeen < table[u].firstSeen
    ensures ListsPart(rows[..k] + [RowOf(u, table[u])] + rows[k..], table, done + {u})
  {
    var row := RowOf(u, table[u]);
    InsertOrdered(rows, k, row);
    assert forall i :: 0 <= i < |rows| ==> rows[i].url in done;
    InsertDistinct(rows, k, row);
    InsertMatch(rows, table, k, u);
    InsertUrls(rows, k, row);
  }

  lemma InsertMatch(rows: seq<JobRow>, table: Table, k: nat, u: string)
    requires RowsMatch(rows, table) && u in table && k <= |rows|
    ensures RowsMatch(rows[..k] + [RowOf(u, table[u])] + rows[k..], table)
  {
    var grown := rows[..k] + [RowOf(u, table[u])] + rows[k..];
    assert forall i :: 0 <= i < k ==> grown[i] == rows[i];
    assert forall i :: k < i < |grown| ==> grown[i] == rows[i - 1];
  }

  lemma InsertUrls(rows: seq<JobRow>, k: nat, row: JobRow)
    requires k <= |rows|
    ensures UrlsOf(rows[..k] + [row] + rows[k..]) == UrlsOf(rows) + {row.url}
  {
    var grown := rows[..k] + [row] + rows[k..];
    assert grown[k] == row;
    forall v | v in UrlsOf(rows) ensures v in UrlsOf(grown) {
      var i :| 0 <= i < |rows| && rows[i].url == v;
      assert grown[if i < k then i else i + 1] == rows[i];
    }
    forall v | v in UrlsOf(grown) ensures v in UrlsOf(rows) + {row.url} {
      var i :| 0 <= i < |grown| && grown[i].url == v;
      if i < k {
        assert grown[i] == rows[i];
      } else if i > k {
        assert grown[i] == rows[i - 1];
      }
    }
  }

  lemma InsertOrdered(rows: seq<JobRow>, k: nat, row: JobRow)
    requires NewestFirst(rows) && k <= |rows|
    requires forall i :: 0 <= i < k ==> rows[i].firstSeen >= row.firstSeen
    requires k < |rows| ==> rows[k].firstSeen < row.firstSeen
    ensures NewestFirst(rows[..k] + [row] + rows[k..])
  {
    var grown := rows[..k] + [row] + rows[k..];
    assert forall i :: 0 <= i < k ==> grown[i] == rows[i];
    assert grown[k] == row;
    assert forall i :: k < i < |grown| ==> grown[i] == rows[i - 1];
  }

  lemma InsertDistinct(rows: seq<JobRow>, k: nat, row: JobRow)
    requires DistinctUrls(rows) && k <= |rows|
    requires forall i :: 0 <= i < |rows| ==> rows[i].url != row.url
    ensures DistinctUrls(rows[..k] + [row] + rows[k..])
  {
    var grown := rows[..k] + [row] + rows[k..];
    assert forall i :: 0 <= i < k ==> grown[i] == rows[i];
    assert grown[k] == row;
    assert forall i :: k < i < |grown| ==> grown[i] == rows[i - 1];
  }

  /** In a listing without repeated urls every row occurs at most once. */
  lemma {:induction false} DistinctCount(rows: seq<JobRow>, x: JobRow)
    requires DistinctUrls(rows)
    ensures multiset(rows)[x] == if x in rows then 1 else 0
    decreases |rows|
  {
    if rows != [] {
      assert rows == [rows[0]] + rows[1..];
      DistinctCount(rows[1..], x);
      if x == rows[0] {
        assert x !in rows[1..] by {
          forall i | 0 <= i < |rows[1..]| ensures rows[1..][i] != x {
            assert rows[1..][i] == rows[i + 1];
          }
        }
      }
    }
  }

  /** Two listings of the same table differ at most in the order of equal first_seen dates. */
  lemma ListingsArePermutations(rows: seq<JobRow>, others: seq<JobRow>, table: Table)
    requires IsListing(rows, table) && IsListing(others, table)
    ensures multiset(rows) == multiset(others)
  {
    forall x ensures multiset(rows)[x] == multiset(others)[x] {
      DistinctCount(rows, x);
      DistinctCount(others, x);
      if x in rows {
        InListing(rows, others, table, x);
      }
      if x in others {
        InListing(others, rows, table, x);
      }
    }
  }

  /** A row of one listing of a table is a row of every listing of it. */
  lemma InListing(rows: seq<JobRow>, others: seq<JobRow>, table: Table, x: JobRow)
    requires Covers(rows, table) && Covers(others, table) && x in rows
    ensures x in others
  {
    var i :| 0 <= i < |rows| && rows[i] == x;
    assert x.url in UrlsOf(others);
    var j :| 0 <= j < |others| && others[j].url == x.url;
    assert others[j] == x;
  }

  /** A listing is empty exactly when the table it lists is. */
  lemma ListingEmpty(rows: seq<JobRow>, table: Table)
    requires IsListing(rows, table)
    ensures rows == [] <==> table == map[]
  {
    if rows != [] {
      assert rows[0].url in UrlsOf(rows);
    }
  }

  /** After `save_jobs`, the active listing holds exactly the batch urls. */
  lemma ActiveAfterReconcile(jobs: Table, batch: seq<Postings.Posting>, today: int)
    ensures ActiveJobs(Reconciled(jobs, batch, today)).Keys == Postings.Urls(batch)
  {
    ReconciledActiveIff(jobs, batch, today);
    ReconciledKeys(jobs, batch, today);
  }
}
