/**
 The replies of the `/new` and `/active` commands of the Telegram bot: a
 header and one MarkdownV2 link per job, parentheses in job names escaped.
 */
module Reply {
  import opened Postings
  import opened Listing
  import opened JobStore

  const NewHeader: string := "New jobs today:"
  const NoNewJobs: string := "No new jobs today"
  const ActiveHeader: string := "Active jobs:"
  const NoActiveJobs: string := "No active jobs"

  /** Python's `s.replace(c, repl)` for a one-character needle. */
  function Replace(s: string, c: char, repl: string): string
    decreases |s|
  {
    if s == [] then []
    else (if s[0] == c then repl else [s[0]]) + Replace(s[1..], c, repl)
  }

  /** `name.replace("(", r"\(").replace(")", r"\)")`. */
  function Escape(name: string): string
  {
    Replace(Replace(name, '(', "\\("), ')', "\\)")
  }

  predicate IsParen(c: char)
  {
    c == '(' || c == ')'
  }

  /** What one character of a name turns into. */
  function EscapeChar(c: char): string
  {
    if IsParen(c) then ['\\', c] else [c]
  }

  /** Escaping stated one character at a time, independently of the two passes. */
  function EscapeEach(s: string): string
    decreases |s|
  {
    if s == [] then [] else EscapeChar(s[0]) + EscapeEach(s[1..])
  }

  /** The inverse of `Escape`: each backslash-parenthesis pair back to the parenthesis. */
  function Unescape(t: string): string
    decreases |t|
  {
    if |t| >= 2 && t[0] == '\\' && IsParen(t[1]) then [t[1]] + Unescape(t[2..])
    else if t == [] then []
    else [t[0]] + Unescape(t[1..])
  }

  /** Every parenthesis of `r` directly follows a backslash. */
  predicate ParensGuarded(r: string)
  {
    forall i :: 0 <= i < |r| && IsParen(r[i]) ==> 0 < i && r[i - 1] == '\\'
  }

  /** The number of parentheses in `s`. */
  function Parens(s: string): nat
  {
    multiset(s)['('] + multiset(s)[')']
  }

  lemma {:induction false} ReplaceAppend(a: string, b: string, c: char, repl: string)
    ensures Replace(a + b, c, repl) == Replace(a, c, repl) + Replace(b, c, repl)
    decreases |a|
  {
    if a == [] {
      assert a + b == b;
    } else {
      assert (a + b)[0] == a[0];
      assert (a + b)[1..] == a[1..] + b;
      ReplaceAppend(a[1..], b, c, repl);
    }
  }

  /** The two chained `replace` passes equal the one-character-at-a-time escaping. */
  lemma {:induction false} EscapeIsEach(s: string)
    ensures Escape(s) == EscapeEach(s)
    decreases |s|
  {
    if s != [] {
      var first := if s[0] == '(' then "\\(" else [s[0]];
      assert Replace(s, '(', "\\(") == first + Replace(s[1..], '(', "\\(");
      ReplaceAppend(first, Replace(s[1..], '(', "\\("), ')', "\\)");
      assert Replace(first, ')', "\\)") == EscapeChar(s[0]) by {
        if s[0] == '(' {
          assert Replace(first, ')', "\\)") == ['\\'] + Replace(['('], ')', "\\)");
        }
      }
      EscapeIsEach(s[1..]);
    }
  }

  /** Escaping adds one backslash per parenthesis and nothing else. */
  lemma {:induction false} EscapeLength(s: string)
    ensures |Escape(s)| == |s| + Parens(s)
    decreases |s|
  {
    EscapeIsEach(s);
    EscapeEachLength(s);
  }

  lemma {:induction false} EscapeEachLength(s: string)
    ensures |EscapeEach(s)| == |s| + Parens(s)
    decreases |s|
  {
    if s != [] {
      assert s == [s[0]] + s[1..];
      assert multiset(s) == multiset{s[0]} + multiset(s[1..]);
      EscapeEachLength(s[1..]);
    }
  }

  /** In an escaped name every parenthesis directly follows a backslash. */
  lemma {:induction false} EscapeGuardsParens(s: string)
    ensures ParensGuarded(Escape(s))
  {
    EscapeIsEach(s);
    EscapeEachGuardsParens(s);
  }

  lemma {:induction false} EscapeEachGuardsParens(s: string)
    ensures ParensGuarded(EscapeEach(s))
    decreases |s|
  {
    if s != [] {
      var head, tail := EscapeChar(s[0]), EscapeEach(s[1..]);
      EscapeEachGuardsParens(s[1..]);
      assert EscapeEach(s) == head + tail;
      forall i | 0 <= i < |head + tail| && IsParen((head + tail)[i])
        ensures 0 < i && (head + tail)[i - 1] == '\\'
      {
        if i == 0 {
          assert false;
        } else if i < |head| {
          assert IsParen(s[0]) && head == ['\\', s[0]];
          assert (head + tail)[i - 1] == head[0];
        } else if i == |head| {
          assert false;
        } else {
          var j := i - |head|;
          assert (head + tail)[i] == tail[j];
          assert 0 < j && tail[j - 1] == '\\';
          assert (head + tail)[i - 1] == tail[j - 1];
        }
      }
    }
  }

  /** Reading an escaped name back gives the name: escaping loses nothing. */
  lemma {:induction false} UnescapeEscape(s: string)
    ensures Unescape(Escape(s)) == s
  {
    EscapeIsEach(s);
    UnescapeEach(s);
  }

  lemma {:induction false} UnescapeEach(s: string)
    ensures Unescape(EscapeEach(s)) == s
    decreases |s|
  {
    if s != [] {
      var tail := EscapeEach(s[1..]);
      EscapeEachGuardsParens(s[1..]);
      UnescapeEach(s[1..]);
      if IsParen(s[0]) {
        assert EscapeEach(s)[2..] == tail;
      } else {
        assert EscapeEach(s)[1..] == tail;
        assert tail != [] ==> !IsParen(tail[0]);
      }
      assert s == [s[0]] + s[1..];
    }
  }

  /** One line of the reply: `"\n[" + escaped name + "](" + url + ")"`, the url verbatim. */
  function Line(p: Posting): string
  {
    "\n[" + Escape(p.name) + "](" + p.url + ")"
  }

  /** A line holds the name escaped character by character and the url exactly as stored. */
  lemma LineParts(p: Posting)
    ensures Line(p) == "\n[" + EscapeEach(p.name) + "](" + p.url + ")"
  {
    EscapeIsEach(p.name);
  }

  /** The lines of a list of jobs, in list order. */
  function Lines(ps: seq<Posting>): string
    decreases |ps|
  {
    if ps == [] then [] else Lines(ps[..|ps| - 1]) + Line(ps[|ps| - 1])
  }

  /** The reply for a list of jobs: the fixed `none` text when there is none. */
  function Reply(header: string, none: string, ps: seq<Posting>): string
  {
    if ps == [] then none else header + Lines(ps)
  }

  /** The (name, url) columns of query rows: `job[0]`, `job[1]`. */
  function Shown(rows: seq<JobRow>): seq<Posting>
  {
    seq(|rows|, i requires 0 <= i < |rows| => Posting(rows[i].name, rows[i].url))
  }

  /** Lines of a concatenation are the concatenation of lines: job order is kept. */
  lemma {:induction false} LinesAppend(a: seq<Posting>, b: seq<Posting>)
    ensures Lines(a + b) == Lines(a) + Lines(b)
    decreases |b|
  {
    if b == [] {
      assert a + b == a;
    } else {
      var init, last := b[..|b| - 1], b[|b| - 1];
      assert (a + b)[..|a + b| - 1] == a + init;
      assert (a + b)[|a + b| - 1] == last;
      calc {
        Lines(a + b);
        Lines(a + init) + Line(last);
        { LinesAppend(a, init); }
        Lines(a) + Lines(init) + Line(last);
        Lines(a) + (Lines(init) + Line(last));
        Lines(a) + Lines(b);
      }
    }
  }

  /**
   The reply of `/new` or `/active` is the "none" text exactly when there is no
   job to show.
   */
  lemma ReplyNoneIffEmpty(ps: seq<Posting>)
    ensures Reply(NewHeader, NoNewJobs, ps) == NoNewJobs <==> ps == []
    ensures Reply(ActiveHeader, NoActiveJobs, ps) == NoActiveJobs <==> ps == []
  {
    if ps != [] {
      var r := Reply(NewHeader, NoNewJobs, ps);
      assert r[1] == NewHeader[1] != NoNewJobs[1];
      var a := Reply(ActiveHeader, NoActiveJobs, ps);
      assert a[0] == ActiveHeader[0] != NoActiveJobs[0];
    }
  }

  /** The response-building loop of the handlers. */
  method Respond(header: string, none: string, jobs: seq<JobRow>) returns (response: string)
    ensures response == Reply(header, none, Shown(jobs))
  {
    if jobs != [] {
      response := header;
      for i := 0 to |jobs|
        invariant response == header + Lines(Shown(jobs[..i]))
      {
        var escaped := Escape(jobs[i].name);
        response := response + ("\n[" + escaped + "](" + jobs[i].url + ")");
        ghost var shown := Shown(jobs[..i + 1]);
        assert shown[..i] == Shown(jobs[..i]);
        assert shown[i] == Posting(jobs[i].name, jobs[i].url);
      }
      assert jobs[..|jobs|] == jobs;
    } else {
      response := none;
    }
  }

  /** `/new`: the active jobs first seen today, as links; "No new jobs today" when there are none. */
  method HandleNew(store: Store, today: int) returns (response: string, ghost shown: seq<JobRow>)
    ensures IsListing(shown, NewToday(store.jobs, today))
    ensures response == Reply(NewHeader, NoNewJobs, Shown(shown))
    ensures response == NoNewJobs <==> NewToday(store.jobs, today) == map[]
  {
    var jobs := store.GetNewJobsToday(today);
    response := Respond(NewHeader, NoNewJobs, jobs);
    shown := jobs;
    ListingEmpty(jobs, NewToday(store.jobs, today));
    ReplyNoneIffEmpty(Shown(jobs));
  }

  /** `/active`: every active job, as links; "No active jobs" when there is none. */
  method HandleActive(store: Store) returns (response: string, ghost shown: seq<JobRow>)
    ensures IsListing(shown, ActiveJobs(store.jobs))
    ensures response == Reply(ActiveHeader, NoActiveJobs, Shown(shown))
    ensures response == NoActiveJobs <==> ActiveJobs(store.jobs) == map[]
  {
    var jobs := store.GetAllJobs(true);
    response := Respond(ActiveHeader, NoActiveJobs, jobs);
    shown := jobs;
    ListingEmpty(jobs, ActiveJobs(store.jobs));
    ReplyNoneIffEmpty(Shown(jobs));
  }
}
