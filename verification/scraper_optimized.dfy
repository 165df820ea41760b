/** The second scraper: `scroll_down_and_extract_links` gathers distinct
    video links over successive page snapshots until it has `max_links` of
    them, and `extract_videos_links` filters the links of one section.

    Each loop iteration reads one snapshot of the whole page (its anchors
    in document order). The page heights the loop queries only choose how
    long to sleep, so they take no part; the snapshots the browser would
    produce are a finite sequence, and running out of them is reported
    instead of looping on. */
module ScraperOptimized {
  import opened Results
  import opened Sequences
  import opened Strings
  import opened Html

  const DefaultMaxLinks: int := 100

  /** `extract_videos_links`: nothing when the videos section is missing,
      otherwise the section's "tiktok.com" hrefs in document order. */
  function ExtractVideosLinks(section: Option<seq<Anchor>>): (links: seq<string>)
    ensures section.None? ==> links == []
    ensures forall k :: 0 <= k < |links| ==> IsTikTokLink(links[k])
    ensures section.Some? ==> forall l :: l in links <==>
      IsTikTokLink(l) && exists i :: 0 <= i < |section.value| && section.value[i].href == Some(l)
  {
    match section
    case None => []
    case Some(anchors) => TikTokHrefs(anchors)
  }

  /** `set(current) - set(seen)` listed once each. Python leaves the order
      of a set unspecified; this lists the links in order of first
      occurrence. */
  function NewLinks(current: seq<string>, seen: seq<string>): (added: seq<string>)
    ensures NoDuplicates(added)
    ensures forall l :: l in added <==> l in current && l !in seen
    decreases |current|
  {
    if current == [] then []
    else
      assert forall l :: l in current <==> l == current[0] || l in current[1..];
      if current[0] in seen then NewLinks(current[1..], seen)
      else
        var rest := NewLinks(current[1..], seen + [current[0]]);
        assert current[0] in seen + [current[0]];
        assert current[0] !in rest;
        [current[0]] + rest
  }

  /** Nothing is new when every current link has been seen. */
  lemma {:induction false} NothingNew(current: seq<string>, seen: seq<string>)
    requires forall l :: l in current ==> l in seen
    ensures NewLinks(current, seen) == []
    decreases |current|
  {
    if current != [] {
      assert current[0] in current;
      NothingNew(current[1..], seen);
    }
  }

  /** `added` is some listing of `set(current) - set(collected)`, in
      whatever order the set happens to iterate. */
  ghost predicate ListsNewLinks(added: seq<string>, current: seq<string>, collected: seq<string>) {
    && NoDuplicates(added)
    && forall l :: l in added <==> l in current && l !in collected
  }

  /** One `links_collected.extend(new_links)` step, whatever order the set
      of new links is listed in: the collected links stay distinct, keep
      their place at the front, and afterwards are exactly the old ones
      together with the current page's. */
  lemma RoundInvariant(collected: seq<string>, current: seq<string>, added: seq<string>)
    requires NoDuplicates(collected)
    requires ListsNewLinks(added, current, collected)
    ensures NoDuplicates(collected + added)
    ensures collected <= collected + added
    ensures forall l :: l in collected + added <==> l in collected || l in current
  {
    var all := collected + added;
    forall i, j | 0 <= i < j < |all|
      ensures all[i] != all[j]
    {
      if j < |collected| {
      } else if i >= |collected| {
        assert all[i] == added[i - |collected|];
        assert all[j] == added[j - |collected|];
      } else {
        assert all[j] == added[j - |collected|];
        assert all[j] in added;
      }
    }
  }

  /** One loop iteration's collection step over a page snapshot. */
  function Round(collected: seq<string>, page: seq<Anchor>): (next: seq<string>)
    ensures collected <= next
    ensures ListsNewLinks(next[|collected|..], TikTokHrefs(page), collected)
  {
    var added := NewLinks(TikTokHrefs(page), collected);
    assert (collected + added)[|collected|..] == added;
    collected + added
  }

  /** Python's `xs[:n]`, negative `n` counting from the end. */
  function SliceTo<T>(xs: seq<T>, n: int): (r: seq<T>)
    ensures r <= xs
    ensures 0 <= n ==> |r| == if n < |xs| then n else |xs|
    ensures n < 0 ==> |r| == if -n < |xs| then |xs| + n else 0
  {
    if n >= 0 then (if n < |xs| then xs[..n] else xs)
    else if -n < |xs| then xs[..|xs| + n]
    else []
  }

  /** How the loop ends: it has enough links, or the snapshots ran out
      while it still wanted more. */
  datatype Collection = Done(links: seq<string>) | OutOfSnapshots(collected: seq<string>)

  /** The `while len(links_collected) < max_links` loop from `collected`
      over the remaining snapshots. */
  function Collect(maxLinks: int, pages: seq<seq<Anchor>>, collected: seq<string>): (c: Collection)
    ensures c.OutOfSnapshots? ==> |c.collected| < maxLinks && collected <= c.collected
    ensures c.Done? && 0 <= maxLinks ==> |c.links| == maxLinks
    ensures c.Done? && maxLinks <= |collected| ==> c.links == SliceTo(collected, maxLinks)
    ensures c.Done? && |collected| <= maxLinks ==> collected <= c.links
    decreases |pages|
  {
    if |collected| >= maxLinks then Done(SliceTo(collected, maxLinks))
    else if pages == [] then OutOfSnapshots(collected)
    else
      var next := Round(collected, pages[0]);
      if |next| >= maxLinks then Done(SliceTo(next, maxLinks))
      else Collect(maxLinks, pages[1..], next)
  }

  /** The reference for `Collect`: the links gathered by reading every
      snapshot, with no stopping rule. */
  function Accumulate(pages: seq<seq<Anchor>>, collected: seq<string>): (all: seq<string>)
    ensures collected <= all
    decreases |pages|
  {
    if pages == [] then collected else Accumulate(pages[1..], Round(collected, pages[0]))
  }

  /** The accumulated links are distinct, and are the starting links
      together with every link some snapshot shows. */
  lemma {:induction false} AccumulateContents(pages: seq<seq<Anchor>>, collected: seq<string>)
    requires NoDuplicates(collected)
    ensures NoDuplicates(Accumulate(pages, collected))
    ensures forall l :: l in Accumulate(pages, collected) <==>
      l in collected || exists p :: 0 <= p < |pages| && l in TikTokHrefs(pages[p])
    decreases |pages|
  {
    if pages != [] {
      var next := Round(collected, pages[0]);
      RoundInvariant(collected, TikTokHrefs(pages[0]), next[|collected|..]);
      assert collected + next[|collected|..] == next;
      AccumulateContents(pages[1..], next);
      assert forall p :: 1 <= p < |pages| ==> pages[p] == pages[1..][p - 1];
    }
  }

  /** Reading the snapshots in two stretches is reading them all: what the
      loop holds after the first `n` snapshots is a prefix of what it holds
      after all of them. */
  lemma {:induction false} AccumulateSplit(pages: seq<seq<Anchor>>, collected: seq<string>, n: nat)
    requires n <= |pages|
    ensures Accumulate(pages, collected) == Accumulate(pages[n..], Accumulate(pages[..n], collected))
    ensures Accumulate(pages[..n], collected) <= Accumulate(pages, collected)
    decreases n
  {
    if n > 0 {
      var next := Round(collected, pages[0]);
      AccumulateSplit(pages[1..], next, n - 1);
      assert pages[1..][n - 1..] == pages[n..];
      assert pages[..n][0] == pages[0];
      assert pages[..n][1..] == pages[1..][..n - 1];
    }
  }

  /** Stopping early changes nothing but the end: with a non-negative
      `max_links`, the loop returns the first `max_links` links that
      reading every snapshot would gather, and it runs out of snapshots
      exactly when even all of them give fewer than `max_links` links. */
  lemma {:induction false} CollectMatchesAccumulate(maxLinks: int, pages: seq<seq<Anchor>>, collected: seq<string>)
    requires 0 <= maxLinks
    ensures var all := Accumulate(pages, collected);
      Collect(maxLinks, pages, collected) ==
        if |all| >= maxLinks then Done(all[..maxLinks]) else OutOfSnapshots(all)
    decreases |pages|
  {
    var all := Accumulate(pages, collected);
    if |collected| >= maxLinks {
      assert all[..maxLinks] == collected[..maxLinks];
    } else if pages != [] {
      var next := Round(collected, pages[0]);
      if |next| >= maxLinks {
        assert all[..maxLinks] == next[..maxLinks];
      } else {
        CollectMatchesAccumulate(maxLinks, pages[1..], next);
      }
    }
  }

  /** Reading the same snapshot twice adds nothing the second time. */
  lemma RoundIdempotent(collected: seq<string>, page: seq<Anchor>)
    ensures Round(Round(collected, page), page) == Round(collected, page)
  {
    var current := TikTokHrefs(page);
    var once := Round(collected, page);
    forall l | l in current
      ensures l in once
    {
      if l !in collected {
        assert l in once[|collected|..];
      }
    }
    NothingNew(current, once);
    assert once + [] == once;
  }

  /** Once the page stops changing short of `max_links` links, the loop
      never finishes: every further snapshot leaves the collection as it
      is. */
  lemma {:induction false} StuckPageNeverFinishes(maxLinks: int, collected: seq<string>, page: seq<Anchor>, n: nat)
    requires |Round(collected, page)| < maxLinks
    ensures Collect(maxLinks, seq(n, _ => page), Round(collected, page)) == OutOfSnapshots(Round(collected, page))
  {
    var pages := seq(n, _ => page);
    if n > 0 {
      RoundIdempotent(collected, page);
      assert pages[0] == page;
      assert pages[1..] == seq(n - 1, _ => page);
      StuckPageNeverFinishes(maxLinks, collected, page, n - 1);
    }
  }

  /** `scroll_down_and_extract_links(browser)` with the default cap of 100
      links: a finished run returns exactly 100 distinct links. */
  function ScrollDownAndExtractLinksDefault(pages: seq<seq<Anchor>>): (c: Collection)
    ensures c.Done? ==> |c.links| == 100 && NoDuplicates(c.links)
    ensures c.OutOfSnapshots? ==> |c.collected| < 100 && NoDuplicates(c.collected)
  {
    ScrollDownAndExtractLinks(DefaultMaxLinks, pages)
  }

  /** `scroll_down_and_extract_links`: starting from no links, it returns
      distinct "tiktok.com" links, exactly `max_links` of them when it
      finishes (none when `max_links` is not positive); if the snapshots
      run out first it holds fewer than `max_links`. */
  function ScrollDownAndExtractLinks(maxLinks: int, pages: seq<seq<Anchor>>): (c: Collection)
    ensures maxLinks <= 0 ==> c == Done([])
    ensures c.Done? && maxLinks > 0 ==> |c.links| == maxLinks
    ensures c.OutOfSnapshots? ==> |c.collected| < maxLinks
    ensures c.Done? ==> NoDuplicates(c.links)
    ensures c.Done? ==> forall l :: l in c.links ==>
      IsTikTokLink(l) && exists p :: 0 <= p < |pages| && l in TikTokHrefs(pages[p])
    ensures c.OutOfSnapshots? ==> NoDuplicates(c.collected)
    ensures c.OutOfSnapshots? ==> forall l :: l in c.collected <==>
      exists p :: 0 <= p < |pages| && l in TikTokHrefs(pages[p])
  {
    if maxLinks <= 0 then Done([])
    else
      CollectMatchesAccumulate(maxLinks, pages, []);
      AccumulateContents(pages, []);
      var all := Accumulate(pages, []);
      assert |all| >= maxLinks ==> forall l :: l in all[..maxLinks] ==> l in all;
      Collect(maxLinks, pages, [])
  }
}
