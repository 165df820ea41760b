/** The control logic of the first scraper: the `scroll_down` retry state
    machine, the link filter over the videos section, the ".mp4" counter
    and the bounded `wait_for_download` poll.

    The browser is abstract: a scroll is the page height the next
    `document.body.scrollHeight` query returns, a page is its item
    containers and anchors, and each poll of the download directory is the
    listing that poll sees. Sleeps take no part. */
module Scraper {
  import opened Results
  import opened Sequences
  import opened Strings
  import opened Html

  // ---------------------------------------------------------------------
  // scroll_down
  // ---------------------------------------------------------------------

  const InitialRetries: int := 5
  const ResetRetries: int := 3

  /** The loop variables of `scroll_down`. */
  datatype ScrollState = ScrollState(lastHeight: int, retries: int)

  /** The state before the first scroll. */
  function ScrollStart(height: int): ScrollState {
    ScrollState(height, InitialRetries)
  }

  /** One pass of the loop body after observing `newHeight`; `None` is the
      `break`. An unchanged height spends a retry, or breaks once none is
      left; a changed height resets the retries to 3 and is remembered. */
  function ScrollStep(s: ScrollState, newHeight: int): (next: Option<ScrollState>)
    ensures next.None? <==> newHeight == s.lastHeight && s.retries <= 0
    ensures next.Some? ==> next.value.lastHeight == newHeight
    ensures next.Some? && newHeight == s.lastHeight ==> next.value.retries == s.retries - 1
    ensures next.Some? && newHeight != s.lastHeight ==> next.value.retries == ResetRetries
    ensures next.Some? && 0 <= s.retries <= InitialRetries ==> 0 <= next.value.retries <= InitialRetries
  {
    if newHeight == s.lastHeight then
      if s.retries > 0 then Some(s.(retries := s.retries - 1)) else None
    else Some(ScrollState(newHeight, ResetRetries))
  }

  /** How `scroll_down` fares over the observed heights: it breaks after
      the `checks`-th observation, or it is still scrolling when they run
      out. */
  datatype ScrollRun = Stopped(checks: nat, last: ScrollState) | Scrolling(state: ScrollState)

  function ScrollOver(s: ScrollState, heights: seq<int>): (run: ScrollRun)
    ensures run.Stopped? ==> 1 <= run.checks <= |heights|
    decreases |heights|
  {
    if heights == [] then Scrolling(s)
    else match ScrollStep(s, heights[0])
      case None => Stopped(1, s)
      case Some(next) =>
        var rest := ScrollOver(next, heights[1..]);
        if rest.Stopped? then Stopped(rest.checks + 1, rest.last) else rest
  }

  /** `scroll_down` from an initial page height: it breaks only on an
      observed height equal to the last one once no retry is left, and
      while it scrolls the retries stay within 0..5. */
  function ScrollDown(initialHeight: int, heights: seq<int>): (run: ScrollRun)
    ensures run.Stopped? ==>
      && 1 <= run.checks <= |heights|
      && run.last.retries == 0
      && heights[run.checks - 1] == run.last.lastHeight
    ensures run.Scrolling? ==> 0 <= run.state.retries <= InitialRetries
  {
    var run := ScrollOver(ScrollStart(initialHeight), heights);
    ScrollRetriesBounded(ScrollStart(initialHeight), heights);
    if run.Stopped? then
      ScrollStopsOnlyWhenExhausted(ScrollStart(initialHeight), heights);
      run
    else run
  }

  /** The loop only exits on an unchanged height with no retry left: the
      state it breaks in has 0 retries and the breaking observation equals
      its last height, and the observations before it keep it running into
      exactly that state. */
  lemma {:induction false} ScrollStopsOnlyWhenExhausted(s: ScrollState, heights: seq<int>)
    requires 0 <= s.retries
    requires ScrollOver(s, heights).Stopped?
    ensures var run := ScrollOver(s, heights);
      && run.last.retries == 0
      && heights[run.checks - 1] == run.last.lastHeight
      && ScrollOver(s, heights[..run.checks - 1]) == Scrolling(run.last)
    decreases |heights|
  {
    var run := ScrollOver(s, heights);
    match ScrollStep(s, heights[0])
    case None =>
      assert heights[..0] == [];
    case Some(next) =>
      ScrollStopsOnlyWhenExhausted(next, heights[1..]);
      var rest := ScrollOver(next, heights[1..]);
      assert heights[..run.checks - 1][0] == heights[0];
      assert heights[..run.checks - 1][1..] == heights[1..][..rest.checks - 1];
  }

  /** The retry counter stays within 0..5 in every state the loop reaches. */
  lemma {:induction false} ScrollRetriesBounded(s: ScrollState, heights: seq<int>)
    requires 0 <= s.retries <= InitialRetries
    ensures var run := ScrollOver(s, heights);
      run.Scrolling? ==> 0 <= run.state.retries <= InitialRetries
    ensures var run := ScrollOver(s, heights);
      run.Stopped? ==> 0 <= run.last.retries <= InitialRetries
    decreases |heights|
  {
    if heights != [] {
      match ScrollStep(s, heights[0])
      case None =>
      case Some(next) => ScrollRetriesBounded(next, heights[1..]);
    }
  }

  /** The last height is always the most recent observation, so it changes
      only when a different height is seen. */
  lemma {:induction false} ScrollTracksLastHeight(s: ScrollState, heights: seq<int>)
    requires heights != []
    requires ScrollOver(s, heights).Scrolling?
    ensures ScrollOver(s, heights).state.lastHeight == heights[|heights| - 1]
    decreases |heights|
  {
    var next := ScrollStep(s, heights[0]).value;
    if |heights| > 1 {
      ScrollTracksLastHeight(next, heights[1..]);
    }
  }

  /** A stall of `n` unchanged heights from a state with `r` retries:
      the loop survives `r` of them and breaks on the next. */
  lemma {:induction false} ScrollStall(h: int, r: nat, n: nat)
    ensures n <= r ==> ScrollOver(ScrollState(h, r), seq(n, _ => h)) == Scrolling(ScrollState(h, r - n))
    ensures n > r ==> ScrollOver(ScrollState(h, r), seq(n, _ => h)) == Stopped(r + 1, ScrollState(h, 0))
  {
    var heights := seq(n, _ => h);
    if n > 0 {
      assert heights[0] == h;
      assert heights[1..] == seq(n - 1, _ => h);
      if r > 0 {
        ScrollStall(h, r - 1, n - 1);
      }
    }
  }

  /** On a page that never grows, `scroll_down` gives up on the 6th
      unchanged check; after a growth, on the 4th. */
  lemma ScrollGivesUp(h: int, grown: int)
    requires grown != h
    ensures ScrollDown(h, seq(6, _ => h)) == Stopped(6, ScrollState(h, 0))
    ensures ScrollDown(h, seq(5, _ => h)).Scrolling?
    ensures ScrollDown(h, [grown] + seq(4, _ => grown)) == Stopped(5, ScrollState(grown, 0))
    ensures ScrollDown(h, [grown] + seq(3, _ => grown)).Scrolling?
  {
    ScrollStall(h, 5, 6);
    ScrollStall(h, 5, 5);
    var after := ScrollState(grown, ResetRetries);
    ScrollStall(grown, 3, 4);
    ScrollStall(grown, 3, 3);
    assert ([grown] + seq(4, _ => grown))[1..] == seq(4, _ => grown);
    assert ([grown] + seq(3, _ => grown))[1..] == seq(3, _ => grown);
  }

  // ---------------------------------------------------------------------
  // extract_video_links
  // ---------------------------------------------------------------------

  /** An item container `<div>`: the anchors inside it, in document order. */
  datatype ItemContainer = ItemContainer(anchors: seq<Anchor>)

  /** `find("a", href=True)`: the href of the first anchor that has one. */
  function FirstHref(anchors: seq<Anchor>): (href: Option<string>)
    ensures href.None? <==> forall i :: 0 <= i < |anchors| ==> anchors[i].href.None?
    ensures href.Some? ==> exists i :: 0 <= i < |anchors| && anchors[i].href == href &&
                             forall j :: 0 <= j < i ==> anchors[j].href.None?
  {
    if anchors == [] then None
    else if anchors[0].href.Some? then anchors[0].href
    else
      var rest := FirstHref(anchors[1..]);
      assert forall i :: 1 <= i < |anchors| ==> anchors[i] == anchors[1..][i - 1];
      rest
  }

  /** The video link an item container contributes, if any: its first
      href, provided it contains "tiktok.com". A container whose first href
      points elsewhere contributes nothing, even if a later anchor would
      qualify. */
  function ContainerLink(c: ItemContainer): (link: Option<string>)
    ensures link.Some? ==> IsTikTokLink(link.value) && FirstHrefAt(c.anchors, link.value)
    ensures link.None? <==>
      (forall i :: 0 <= i < |c.anchors| ==> c.anchors[i].href.None?) ||
      exists h :: FirstHrefAt(c.anchors, h) && !IsTikTokLink(h)
  {
    var href := FirstHref(c.anchors);
    if href.None? then None
    else
      FirstHrefUnique(c.anchors, href.value);
      if IsTikTokLink(href.value) then href else None
  }

  /** `h` is the href of the first anchor that has one. */
  predicate FirstHrefAt(anchors: seq<Anchor>, h: string) {
    exists i :: 0 <= i < |anchors| && anchors[i].href == Some(h) &&
      forall j :: 0 <= j < i ==> anchors[j].href.None?
  }

  /** Only one href is the first. */
  lemma FirstHrefUnique(anchors: seq<Anchor>, h: string)
    requires FirstHref(anchors) == Some(h)
    ensures FirstHrefAt(anchors, h)
    ensures forall h' :: FirstHrefAt(anchors, h') ==> h' == h
  {
    var i :| 0 <= i < |anchors| && anchors[i].href == Some(h) && forall j :: 0 <= j < i ==> anchors[j].href.None?;
    forall h' | FirstHrefAt(anchors, h')
      ensures h' == h
    {
      var i' :| 0 <= i' < |anchors| && anchors[i'].href == Some(h') && forall j :: 0 <= j < i' ==> anchors[j].href.None?;
      assert i' == i;
    }
  }

  /** `extract_video_links`: nothing when the section is missing; otherwise
      at most one link per item container, in document order, each
      containing "tiktok.com". */
  function ExtractVideoLinks(section: Option<seq<ItemContainer>>): (links: seq<string>)
    ensures section.None? ==> links == []
    ensures section.Some? ==> |links| <= |section.value|
    ensures forall k :: 0 <= k < |links| ==> IsTikTokLink(links[k])
    ensures section.Some? ==> forall l :: l in links <==>
      exists i :: 0 <= i < |section.value| && ContainerLink(section.value[i]) == Some(l)
  {
    match section
    case None => []
    case Some(containers) => LinksOf(containers)
  }

  function LinksOf(containers: seq<ItemContainer>): (links: seq<string>)
    ensures |links| <= |containers|
    ensures forall k :: 0 <= k < |links| ==> IsTikTokLink(links[k])
    ensures forall l :: l in links <==> exists i :: 0 <= i < |containers| && ContainerLink(containers[i]) == Some(l)
  {
    if containers == [] then []
    else
      var rest := LinksOf(containers[1..]);
      assert forall i :: 1 <= i < |containers| ==> containers[i] == containers[1..][i - 1];
      match ContainerLink(containers[0])
      case None => rest
      case Some(link) => [link] + rest
  }

  /** Links keep document order: the links of two consecutive runs of
      containers are the links of the first run followed by those of the
      second. */
  lemma {:induction false} LinksOfAppend(a: seq<ItemContainer>, b: seq<ItemContainer>)
    ensures LinksOf(a + b) == LinksOf(a) + LinksOf(b)
  {
    if a != [] {
      assert (a + b)[0] == a[0];
      assert (a + b)[1..] == a[1..] + b;
      LinksOfAppend(a[1..], b);
    } else {
      assert a + b == b;
    }
  }

  // ---------------------------------------------------------------------
  // calculate_downloaded_videos and wait_for_download
  // ---------------------------------------------------------------------

  /** `calculate_downloaded_videos`, given the directory listing (`None`
      when listing raises): the number of ".mp4" entries, or 0. */
  function CalculateDownloadedVideos(listing: Option<seq<string>>): (count: nat)
    ensures listing.None? ==> count == 0
    ensures listing.Some? ==> count == |Filter(listing.value, IsVideoFile)|
    ensures listing.Some? ==> count <= |listing.value|
  {
    match listing
    case None => 0
    case Some(entries) => CountVideoFiles(entries)
  }

  /** The ".mp4" entries counted one by one. */
  function CountVideoFiles(entries: seq<string>): (count: nat)
    ensures count == |Filter(entries, IsVideoFile)|
  {
    if entries == [] then 0
    else (if IsVideoFile(entries[0]) then 1 else 0) + CountVideoFiles(entries[1..])
  }

  const DefaultMaxRetries: int := 10

  /** How `wait_for_download` ends: the `polls`-th check saw `count` > the
      earlier count, or all retries were used up. */
  datatype WaitOutcome = Downloaded(polls: nat, count: nat) | GaveUp(polls: nat)

  /** The poll loop from retry number `retries`; `counts(j)` is the number
      of downloaded videos the (j+1)-th poll sees. */
  function PollFrom(before: int, maxRetries: int, counts: nat -> nat, retries: nat): (w: WaitOutcome)
    ensures w.Downloaded? ==> retries < w.polls <= maxRetries && w.count == counts(w.polls - 1) > before
    ensures w.GaveUp? ==> w.polls == if retries < maxRetries then maxRetries else retries
    decreases maxRetries - retries
  {
    if retries < maxRetries then
      if counts(retries) > before then Downloaded(retries + 1, counts(retries))
      else PollFrom(before, maxRetries, counts, retries + 1)
    else GaveUp(retries)
  }

  /** No poll before the `n`-th saw more videos than `before`. */
  predicate NoGrowthBefore(before: int, counts: nat -> nat, n: nat) {
    forall j: nat :: j < n ==> counts(j) <= before
  }

  /** What each poll counts: `calculate_downloaded_videos` on the listing
      that poll sees. */
  function PollCounts(listings: nat -> Option<seq<string>>): nat -> nat {
    j => CalculateDownloadedVideos(listings(j))
  }

  /** `wait_for_download`: polls at most `max_retries` times, and stops at
      the first poll whose count exceeds `num_vids_before`. */
  function WaitForDownload(before: int, maxRetries: int, listings: nat -> Option<seq<string>>): (w: WaitOutcome)
    ensures w.Downloaded? ==>
      && 1 <= w.polls <= maxRetries
      && w.count == CalculateDownloadedVideos(listings(w.polls - 1)) > before
      && NoGrowthBefore(before, PollCounts(listings), w.polls - 1)
    ensures w.GaveUp? ==>
      && w.polls == (if maxRetries < 0 then 0 else maxRetries)
      && NoGrowthBefore(before, PollCounts(listings), w.polls)
  {
    var w := PollFrom(before, maxRetries, PollCounts(listings), 0);
    if w.Downloaded? then PollDownloaded(before, maxRetries, PollCounts(listings), 0); w
    else PollGaveUp(before, maxRetries, PollCounts(listings), 0); w
  }

  /** `wait_for_download(num_vids_before)` with the default of 10 retries:
      it gives up only after ten polls without growth. */
  function WaitForDownloadDefault(before: int, listings: nat -> Option<seq<string>>): (w: WaitOutcome)
    ensures w.Downloaded? ==> 1 <= w.polls <= 10 && w.count > before
    ensures w.GaveUp? ==> w.polls == 10 && NoGrowthBefore(before, PollCounts(listings), 10)
  {
    WaitForDownload(before, DefaultMaxRetries, listings)
  }

  /** A successful poll loop stops at the first growing poll. */
  lemma {:induction false} PollDownloaded(before: int, maxRetries: int, counts: nat -> nat, retries: nat)
    requires NoGrowthBefore(before, counts, retries)
    requires PollFrom(before, maxRetries, counts, retries).Downloaded?
    ensures var w := PollFrom(before, maxRetries, counts, retries);
      && retries + 1 <= w.polls <= maxRetries
      && w.count == counts(w.polls - 1) > before
      && NoGrowthBefore(before, counts, w.polls - 1)
    decreases maxRetries - retries
  {
    if counts(retries) <= before {
      PollDownloaded(before, maxRetries, counts, retries + 1);
    }
  }

  /** A poll loop that gives up has seen no growth in `max_retries` polls. */
  lemma {:induction false} PollGaveUp(before: int, maxRetries: int, counts: nat -> nat, retries: nat)
    requires NoGrowthBefore(before, counts, retries)
    requires retries <= maxRetries || retries == 0
    requires PollFrom(before, maxRetries, counts, retries).GaveUp?
    ensures var w := PollFrom(before, maxRetries, counts, retries);
      && w.polls == (if maxRetries < 0 then 0 else maxRetries)
      && NoGrowthBefore(before, counts, w.polls)
    decreases maxRetries - retries
  {
    if retries < maxRetries {
      PollGaveUp(before, maxRetries, counts, retries + 1);
    }
  }
}
