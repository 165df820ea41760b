/** Anchors and their href attributes, which both scrapers read, and the
    "tiktok.com" filter the optimised scraper applies to every anchor of a
    tag (the first scraper filters one href per item container instead). */
module Html {
  import opened Results
  import opened Strings

  /** An `<a>` element; `href` is absent when the attribute is missing. */
  datatype Anchor = Anchor(href: Option<string>)

  /** `[a["href"] for a in tag.find_all("a", href=True) if "tiktok.com" in a["href"]]`
      over the anchors of a tag in document order: the hrefs that are present
      and contain "tiktok.com", in order. */
  function TikTokHrefs(anchors: seq<Anchor>): (links: seq<string>)
    ensures |links| <= |anchors|
    ensures forall k :: 0 <= k < |links| ==> IsTikTokLink(links[k])
    ensures forall l :: l in links <==>
      IsTikTokLink(l) && exists i :: 0 <= i < |anchors| && anchors[i].href == Some(l)
  {
    if anchors == [] then []
    else
      var rest := TikTokHrefs(anchors[1..]);
      assert forall i :: 1 <= i < |anchors| ==> anchors[i] == anchors[1..][i - 1];
      var head := anchors[0].href;
      if head.Some? && IsTikTokLink(head.value) then [head.value] + rest else rest
  }

  /** The filter keeps document order: the links of two consecutive runs of
      anchors are the links of the first followed by those of the second. */
  lemma {:induction false} TikTokHrefsAppend(a: seq<Anchor>, b: seq<Anchor>)
    ensures TikTokHrefs(a + b) == TikTokHrefs(a) + TikTokHrefs(b)
  {
    if a == [] {
      assert a + b == b;
    } else {
      assert (a + b)[0] == a[0];
      assert (a + b)[1..] == a[1..] + b;
      TikTokHrefsAppend(a[1..], b);
    }
  }
}
