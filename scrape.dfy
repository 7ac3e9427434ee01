/**
 `get_jobs`: turns the job links found on the careers page into postings.
 Fetching the page and finding its links are outside the model; a page is
 either the list of (link text, href) pairs already found, or a failure.
 */
module Scrape {
  import opened Postings

  /** An `<a>` element: its text and its `href` attribute. */
  datatype Anchor = Anchor(text: string, href: string)

  /** What fetching and parsing the page gave. */
  datatype Page =
    | Fetched(anchors: seq<Anchor>)
    | RequestFailed  // a `requests.RequestException`
    | ParseFailed    // any other exception while parsing

  const Origin: string := "https://www.init7.net"
  const Benefits: string := "benefits"

  /**
   The ASCII characters Python's `str.isspace()` accepts: tab, line feed,
   vertical tab, form feed, carriage return, the four information separators
   U+001C..U+001F, and space.
   */
  predicate IsSpace(c: char)
  {
    ('\t' <= c <= '\r') || ('\U{1C}' <= c <= ' ')
  }

  predicate AllSpace(s: string)
  {
    forall k :: 0 <= k < |s| ==> IsSpace(s[k])
  }

  /** The number of leading whitespace characters. */
  function LeadingSpaces(s: string): (n: nat)
    ensures n <= |s|
    decreases |s|
  {
    if s == [] || !IsSpace(s[0]) then 0 else 1 + LeadingSpaces(s[1..])
  }

  /** The number of trailing whitespace characters. */
  function TrailingSpaces(s: string): (n: nat)
    ensures n <= |s|
    decreases |s|
  {
    if s == [] || !IsSpace(s[|s| - 1]) then 0 else 1 + TrailingSpaces(s[..|s| - 1])
  }

  /** `LeadingSpaces` counts the whole whitespace run at the front and stops at the first other character. */
  lemma {:induction false} LeadingSpacesRun(s: string)
    ensures AllSpace(s[..LeadingSpaces(s)])
    ensures LeadingSpaces(s) < |s| ==> !IsSpace(s[LeadingSpaces(s)])
    decreases |s|
  {
    if s != [] && IsSpace(s[0]) {
      LeadingSpacesRun(s[1..]);
      var n := LeadingSpaces(s);
      assert s[..n] == [s[0]] + s[1..][..n - 1];
    }
  }

  /** `TrailingSpaces` counts the whole whitespace run at the end and stops at the last other character. */
  lemma {:induction false} TrailingSpacesRun(s: string)
    ensures AllSpace(s[|s| - TrailingSpaces(s)..])
    ensures TrailingSpaces(s) < |s| ==> !IsSpace(s[|s| - 1 - TrailingSpaces(s)])
    decreases |s|
  {
    if s != [] && IsSpace(s[|s| - 1]) {
      var init := s[..|s| - 1];
      TrailingSpacesRun(init);
      var n := TrailingSpaces(s);
      assert s[|s| - n..] == init[|init| - (n - 1)..] + [s[|s| - 1]];
    }
  }

  /** Python's `str.strip()` over ASCII whitespace. */
  function Strip(s: string): string
  {
    var rest := s[LeadingSpaces(s)..];
    rest[..|rest| - TrailingSpaces(rest)]
  }

  /**
   Stripping removes the leading and the trailing whitespace and nothing else:
   the result is a slice of the text with whitespace on both sides of it and
   none at its own ends.
   */
  lemma StripTrims(s: string)
    ensures var r, i := Strip(s), LeadingSpaces(s);
      && i + |r| <= |s| && r == s[i..i + |r|]
      && AllSpace(s[..i]) && AllSpace(s[i + |r|..])
      && (r != [] ==> !IsSpace(r[0]) && !IsSpace(r[|r| - 1]))
  {
    StripSides(s);
    StripEnds(s);
  }

  lemma StripSides(s: string)
    ensures var r, i := Strip(s), LeadingSpaces(s);
      && i + |r| <= |s| && r == s[i..i + |r|]
      && AllSpace(s[..i]) && AllSpace(s[i + |r|..])
  {
    var i := LeadingSpaces(s);
    var rest := s[i..];
    var j := TrailingSpaces(rest);
    var r := rest[..|rest| - j];
    assert r == s[i..i + |r|];
    assert s[i + |r|..] == rest[|rest| - j..];
    LeadingSpacesRun(s);
    TrailingSpacesRun(rest);
  }

  lemma StripEnds(s: string)
    ensures var r := Strip(s); r != [] ==> !IsSpace(r[0]) && !IsSpace(r[|r| - 1])
  {
    var i := LeadingSpaces(s);
    var rest := s[i..];
    var j := TrailingSpaces(rest);
    var r := rest[..|rest| - j];
    if r != [] {
      assert r[0] == s[i] && r[|r| - 1] == rest[|rest| - 1 - j];
      LeadingSpacesRun(s);
      TrailingSpacesRun(rest);
    }
  }

  /** Stripping twice strips nothing more. */
  lemma StripIdempotent(s: string)
    ensures Strip(Strip(s)) == Strip(s)
  {
    var r := Strip(s);
    StripTrims(s);
    if r != [] {
      assert LeadingSpaces(r) == 0;
      assert TrailingSpaces(r) == 0;
    }
  }

  /** `'https://www.init7.net' + href` for a site-relative href, else the href itself. */
  function Absolute(href: string): (url: string)
    ensures url != href <==> |href| > 0 && href[0] == '/'
    ensures url != href ==> url == Origin + href
  {
    if |href| > 0 && href[0] == '/' then Origin + href else href
  }

  /** Making a url absolute a second time changes nothing. */
  lemma AbsoluteIdempotent(href: string)
    ensures Absolute(Absolute(href)) == Absolute(href)
  {
    if |href| > 0 && href[0] == '/' {
      assert Absolute(href)[0] == Origin[0] == 'h';
    }
  }

  /** Python's `str.lower()` on one ASCII character. */
  function LowerChar(c: char): char
  {
    if 'A' <= c <= 'Z' then (c as int + 32) as char else c
  }

  /** Python's `str.lower()` over ASCII letters. */
  function Lower(s: string): string
  {
    seq(|s|, k requires 0 <= k < |s| => LowerChar(s[k]))
  }

  /**
   Lower-casing leaves no capital letter, keeps every other character where it
   was, and turns each capital into the same letter in lower case.
   */
  lemma LowerCases(s: string)
    ensures |Lower(s)| == |s|
    ensures forall k :: 0 <= k < |s| ==> !('A' <= Lower(s)[k] <= 'Z')
    ensures forall k :: 0 <= k < |s| && !('A' <= s[k] <= 'Z') ==> Lower(s)[k] == s[k]
    ensures forall k :: 0 <= k < |s| && 'A' <= s[k] <= 'Z' ==>
      'a' <= Lower(s)[k] <= 'z' && Lower(s)[k] as int - 'a' as int == s[k] as int - 'A' as int
  {
  }

  /** Lower-casing twice is lower-casing once, so the benefits test ignores letter case. */
  lemma LowerIdempotent(s: string)
    ensures Lower(Lower(s)) == Lower(s)
    ensures IsBenefits(Lower(s)) == IsBenefits(s)
  {
    LowerCases(s);
    LowerCases(Lower(s));
  }

  /** `pattern` occurs in `s` starting at position `k`. */
  predicate OccursAt(s: string, pattern: string, k: nat)
  {
    k + |pattern| <= |s| && s[k..k + |pattern|] == pattern
  }

  /** Python's `pattern in s`. */
  predicate Contains(s: string, pattern: string)
  {
    exists k: nat :: k <= |s| && OccursAt(s, pattern, k)
  }

  /** `'benefits' in job_url.lower()`: the link that is not a job. */
  predicate IsBenefits(url: string)
  {
    Contains(Lower(url), Benefits)
  }

  /** The posting a link stands for. */
  function Entry(a: Anchor): Posting
  {
    Posting(Strip(a.text), Absolute(a.href))
  }

  /** The postings of `anchors`, in link order, without those whose url `drop` holds of. */
  function KeptBy(anchors: seq<Anchor>, drop: string -> bool): seq<Posting>
    decreases |anchors|
  {
    if anchors == [] then []
    else
      var last := Entry(anchors[|anchors| - 1]);
      KeptBy(anchors[..|anchors| - 1], drop) + (if drop(last.url) then [] else [last])
  }

  /** The postings the loop of `get_jobs` appends: every link except the benefits one. */
  function Kept(anchors: seq<Anchor>): seq<Posting>
  {
    KeptBy(anchors, IsBenefits)
  }

  /** `get_jobs`: the postings of a fetched page; an empty list on any exception. */
  method GetJobs(page: Page) returns (jobs: seq<Posting>)
    ensures page.Fetched? ==> jobs == Kept(page.anchors)
    ensures !page.Fetched? ==> jobs == []
  {
    match page
    case RequestFailed =>
      return [];
    case ParseFailed =>
      return [];
    case Fetched(anchors) =>
      jobs := [];
      for i := 0 to |anchors|
        invariant jobs == KeptBy(anchors[..i], IsBenefits)
      {
        var name := Strip(anchors[i].text);
        var url := anchors[i].href;
        if |url| > 0 && url[0] == '/' {
          url := Origin + url;
        }
        if !IsBenefits(url) {
          jobs := jobs + [Posting(name, url)];
        }
        assert anchors[..i + 1][..i] == anchors[..i];
      }
      assert anchors[..|anchors|] == anchors;
  }

  lemma {:induction false} KeptByAppend(a: seq<Anchor>, b: seq<Anchor>, drop: string -> bool)
    ensures KeptBy(a + b, drop) == KeptBy(a, drop) + KeptBy(b, drop)
    decreases |b|
  {
    if b == [] {
      assert a + b == a;
    } else {
      var init, last := b[..|b| - 1], Entry(b[|b| - 1]);
      var tail := if drop(last.url) then [] else [last];
      assert (a + b)[..|a + b| - 1] == a + init;
      assert (a + b)[|a + b| - 1] == b[|b| - 1];
      assert KeptBy(a + b, drop) == KeptBy(a + init, drop) + tail;
      KeptByAppend(a, init, drop);
      assert KeptBy(b, drop) == KeptBy(init, drop) + tail;
    }
  }

  lemma {:induction false} KeptByLength(anchors: seq<Anchor>, drop: string -> bool)
    ensures |KeptBy(anchors, drop)| <= |anchors|
    decreases |anchors|
  {
    if anchors != [] {
      KeptByLength(anchors[..|anchors| - 1], drop);
    }
  }

  lemma {:induction false} KeptByAt(anchors: seq<Anchor>, drop: string -> bool, i: nat)
    requires i < |anchors| && !drop(Entry(anchors[i]).url)
    ensures Entry(anchors[i]) in KeptBy(anchors, drop)
    decreases |anchors|
  {
    var init := anchors[..|anchors| - 1];
    if i < |init| {
      assert anchors[i] == init[i];
      KeptByAt(init, drop, i);
    }
  }

  lemma {:induction false} KeptBySound(anchors: seq<Anchor>, drop: string -> bool)
    ensures forall p :: p in KeptBy(anchors, drop) ==>
      !drop(p.url) && exists i :: 0 <= i < |anchors| && p == Entry(anchors[i])
    decreases |anchors|
  {
    if anchors != [] {
      var init := anchors[..|anchors| - 1];
      KeptBySound(init, drop);
      forall p | p in KeptBy(anchors, drop)
        ensures !drop(p.url) && exists i :: 0 <= i < |anchors| && p == Entry(anchors[i])
      {
        if p in KeptBy(init, drop) {
          var i :| 0 <= i < |init| && p == Entry(init[i]);
          assert anchors[i] == init[i];
        } else {
          assert p == Entry(anchors[|anchors| - 1]);
        }
      }
    }
  }

  /** The filter keeps link order: the postings of two runs of links, one after the other. */
  lemma KeptAppend(a: seq<Anchor>, b: seq<Anchor>)
    ensures Kept(a + b) == Kept(a) + Kept(b)
  {
    KeptByAppend(a, b, IsBenefits);
  }

  /** The filter never adds postings. */
  lemma KeptLength(anchors: seq<Anchor>)
    ensures |Kept(anchors)| <= |anchors|
  {
    KeptByLength(anchors, IsBenefits);
  }

  /** Every link whose absolute url does not mention "benefits", in any letter case, yields its posting. */
  lemma KeptComplete(anchors: seq<Anchor>)
    ensures forall i :: 0 <= i < |anchors| && !IsBenefits(Entry(anchors[i]).url) ==>
      Entry(anchors[i]) in Kept(anchors)
  {
    forall i | 0 <= i < |anchors| && !IsBenefits(Entry(anchors[i]).url) {
      KeptByAt(anchors, IsBenefits, i);
    }
  }

  /** Every posting produced is the posting of some link, and none mentions "benefits". */
  lemma KeptSound(anchors: seq<Anchor>)
    ensures forall p :: p in Kept(anchors) ==>
      !IsBenefits(p.url) && exists i :: 0 <= i < |anchors| && p == Entry(anchors[i])
  {
    KeptBySound(anchors, IsBenefits);
  }
}
