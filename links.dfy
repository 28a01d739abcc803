/** Harvesting article links from a listing page: the candidate `href`s, in
    document order, are filtered (non-empty, contain a site marker and
    `/article`), deduplicated keeping first occurrences, and truncated. */
module Links {
  import opened Text

  const ArticleMarker: string := "/article"

  /** The filter of the harvest loop: `href and ... required in href and '/article' in href`. */
  predicate Accepts(href: string, required: string)
  {
    href != [] && Contains(href, required) && Contains(href, ArticleMarker)
  }

  lemma {:induction false} FirstIndexPrefix(s: seq<string>, m: nat, x: string)
    requires m <= |s| && x in s[..m]
    ensures x in s && FirstIndex(s, x) == FirstIndex(s[..m], x)
  {
    assert x in s;
  }

  predicate Distinct(links: seq<string>)
  {
    forall i, j :: 0 <= i < j < |links| ==> links[i] != links[j]
  }

  /** Appending a link not yet listed keeps the list free of repeats. */
  lemma AppendDistinct(links: seq<string>, href: string)
    requires Distinct(links) && href !in links
    ensures Distinct(links + [href])
  {
    var longer := links + [href];
    forall i, j | 0 <= i < j < |longer|
      ensures longer[i] != longer[j]
    {
      assert longer[i] == links[i];
      if j == |links| {
        assert longer[j] == href;
      } else {
        assert longer[j] == links[j];
      }
    }
  }

  /** The accepted candidates, each kept at its first occurrence, in order.
      A string is harvested iff it is an accepted candidate, and no link is
      harvested twice. */
  function Harvest(hrefs: seq<string>, required: string): (links: seq<string>)
    ensures forall x :: x in links <==> x in hrefs && Accepts(x, required)
    ensures Distinct(links)
  {
    if hrefs == [] then []
    else
      var before := hrefs[..|hrefs| - 1];
      var href := hrefs[|hrefs| - 1];
      assert hrefs == before + [href];
      var prev := Harvest(before, required);
      if Accepts(href, required) && href !in prev then
        AppendDistinct(prev, href);
        prev + [href]
      else prev
  }

  /** `links` are candidates, listed in the order of their first occurrence in `hrefs`. */
  predicate InFirstOccurrenceOrder(links: seq<string>, hrefs: seq<string>)
  {
    (forall i :: 0 <= i < |links| ==> links[i] in hrefs) &&
    forall i, j :: 0 <= i < j < |links| ==> FirstIndex(hrefs, links[i]) < FirstIndex(hrefs, links[j])
  }

  /** Links come out in the order of their first occurrence among the candidates. */
  lemma {:induction false} HarvestOrdered(hrefs: seq<string>, required: string)
    ensures InFirstOccurrenceOrder(Harvest(hrefs, required), hrefs)
  {
    if hrefs != [] {
      var n := |hrefs|;
      var before := hrefs[..n - 1];
      var href := hrefs[n - 1];
      var prev := Harvest(before, required);
      HarvestOrdered(before, required);
      forall i | 0 <= i < |prev|
        ensures prev[i] in hrefs && FirstIndex(hrefs, prev[i]) == FirstIndex(before, prev[i]) < n - 1
      {
        FirstIndexPrefix(hrefs, n - 1, prev[i]);
      }
      assert InFirstOccurrenceOrder(prev, hrefs);
      if Accepts(href, required) && href !in prev {
        assert href !in before;
        assert FirstIndex(hrefs, href) == n - 1;
        var links := prev + [href];
        forall i, j | 0 <= i < j < |links|
          ensures links[i] in hrefs && links[j] in hrefs && FirstIndex(hrefs, links[i]) < FirstIndex(hrefs, links[j])
        {
          assert links[i] == prev[i];
          if j < |prev| {
            assert links[j] == prev[j];
          } else {
            assert links[j] == href;
          }
        }
        assert InFirstOccurrenceOrder(links, hrefs);
      }
    }
  }

  /** What a truncated harvest promises: accepted candidates, distinct, in
      first-occurrence order, at most `limit`, and all of them when fewer. */
  lemma TakeHarvest(hrefs: seq<string>, required: string, limit: nat)
    ensures var links := Take(Harvest(hrefs, required), limit);
      && |links| <= limit
      && (forall i :: 0 <= i < |links| ==> links[i] in hrefs && Accepts(links[i], required))
      && Distinct(links)
      && InFirstOccurrenceOrder(links, hrefs)
      && (|links| < limit ==> forall h :: h in hrefs && Accepts(h, required) ==> h in links)
  {
    var all := Harvest(hrefs, required);
    HarvestOrdered(hrefs, required);
    var links := Take(all, limit);
    assert forall i :: 0 <= i < |links| ==> links[i] == all[i];
  }

  /** Python's `links[:limit]`. */
  function Take(links: seq<string>, limit: nat): (r: seq<string>)
    ensures |r| <= limit && r <= links
    ensures |links| <= limit ==> r == links
  {
    if |links| <= limit then links else links[..limit]
  }

  /** The harvest loop (`links.append(href)`, `seen_urls.add(href)`) followed
      by `links = links[:limit]`. */
  method FilterLinks(hrefs: seq<string>, required: string, limit: nat) returns (links: seq<string>)
    ensures links == Take(Harvest(hrefs, required), limit)
  {
    links := [];
    var seenUrls: set<string> := {};
    for i := 0 to |hrefs|
      invariant links == Harvest(hrefs[..i], required)
      invariant forall x :: x in seenUrls <==> x in links
    {
      var href := hrefs[i];
      assert hrefs[..i + 1] == hrefs[..i] + [href];
      assert hrefs[..i + 1][..i] == hrefs[..i];
      if href != [] && href !in seenUrls && Contains(href, required) && Contains(href, ArticleMarker) {
        links := links + [href];
        seenUrls := seenUrls + {href};
      }
    }
    assert hrefs[..|hrefs|] == hrefs;
    links := links[..if |links| <= limit then |links| else limit];
  }

  /** The dashboard's harvest (`scrape_and_process`): absolute links to
      articles, at most 50. */
  method DashboardLinks(hrefs: seq<string>) returns (links: seq<string>)
    ensures links == Take(Harvest(hrefs, "http"), 50)
    ensures |links| <= 50
    ensures forall i :: 0 <= i < |links| ==>
      links[i] in hrefs && links[i] != [] && Contains(links[i], "http") && Contains(links[i], "/article")
    ensures forall i, j :: 0 <= i < j < |links| ==> links[i] != links[j]
    ensures forall i, j :: 0 <= i < j < |links| ==> FirstIndex(hrefs, links[i]) < FirstIndex(hrefs, links[j])
    ensures |links| < 50 ==> forall h :: h in hrefs && Accepts(h, "http") ==> h in links
  {
    links := FilterLinks(hrefs, "http", 50);
    TakeHarvest(hrefs, "http", 50);
  }

  /** The standalone scraper's harvest (`main`): links on the site to
      articles, at most 15. */
  method SiteLinks(hrefs: seq<string>) returns (links: seq<string>)
    ensures links == Take(Harvest(hrefs, "thehindu.com"), 15)
    ensures |links| <= 15
    ensures forall i :: 0 <= i < |links| ==>
      links[i] in hrefs && links[i] != [] && Contains(links[i], "thehindu.com") && Contains(links[i], "/article")
    ensures forall i, j :: 0 <= i < j < |links| ==> links[i] != links[j]
    ensures forall i, j :: 0 <= i < j < |links| ==> FirstIndex(hrefs, links[i]) < FirstIndex(hrefs, links[j])
    ensures |links| < 15 ==> forall h :: h in hrefs && Accepts(h, "thehindu.com") ==> h in links
  {
    links := FilterLinks(hrefs, "thehindu.com", 15);
    TakeHarvest(hrefs, "thehindu.com", 15);
  }
}
