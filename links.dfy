/** The href scan of get_price_links: which auction-price links are kept for a player. */
module Links {
  import opened Text
  import opened Seqs

  /** The path every card auction-price link contains. */
  const Marker := "/auctionprices/baseball-cards"

  /** The site the hrefs are relative to. */
  const Base := "https://www.psacard.com"

  /** A marker link for the player: it is accepted. */
  predicate Accepts(href: string, name: string) {
    Contains(href, Marker) && Contains(href, name)
  }

  /** A marker link for someone else: the scan stops there. */
  predicate Stops(href: string, name: string) {
    Contains(href, Marker) && !Contains(href, name)
  }

  /** Every href falls in exactly one of three cases: it is accepted, it ends
      the scan, or it lacks the marker and is skipped. */
  lemma HrefCases(href: string, name: string)
    ensures Accepts(href, name) <==> Contains(href, Marker) && !Stops(href, name)
    ensures Stops(href, name) <==> Contains(href, Marker) && !Accepts(href, name)
    ensures !Accepts(href, name) && !Stops(href, name) <==> !Contains(href, Marker)
  {
  }

  /** The index of the first stopping href at or after i, or |hrefs| if none. */
  function StopFrom(hrefs: seq<string>, name: string, i: nat): (k: nat)
    requires i <= |hrefs|
    ensures i <= k <= |hrefs|
    ensures k < |hrefs| ==> Stops(hrefs[k], name)
    ensures forall j :: i <= j < k ==> !Stops(hrefs[j], name)
    decreases |hrefs| - i
  {
    if i == |hrefs| || Stops(hrefs[i], name) then i else StopFrom(hrefs, name, i + 1)
  }

  /** Where the scan ends: the first marker href lacking the name. */
  function StopIndex(hrefs: seq<string>, name: string): (k: nat)
    ensures k <= |hrefs|
    ensures k < |hrefs| ==> Stops(hrefs[k], name)
    ensures forall j :: 0 <= j < k ==> !Stops(hrefs[j], name)
  {
    StopFrom(hrefs, name, 0)
  }

  /** link is the absolute form of an accepted href among the first i. */
  predicate AcceptedBefore(hrefs: seq<string>, name: string, i: nat, link: string)
    requires i <= |hrefs|
  {
    exists k :: 0 <= k < i && Accepts(hrefs[k], name) && link == Base + hrefs[k]
  }

  /** link is the absolute form of an accepted href that comes before the stop. */
  predicate Selected(hrefs: seq<string>, name: string, link: string) {
    AcceptedBefore(hrefs, name, StopIndex(hrefs, name), link)
  }

  /** A selected link contains the marker and the name, as its href did. */
  lemma SelectedContains(hrefs: seq<string>, name: string, link: string)
    requires Selected(hrefs, name, link)
    ensures Contains(link, Marker) && Contains(link, name)
  {
    var k :| 0 <= k < StopIndex(hrefs, name) && Accepts(hrefs[k], name) && link == Base + hrefs[k];
    ContainsAfterPrefix(Base, hrefs[k], Marker);
    ContainsAfterPrefix(Base, hrefs[k], name);
  }

  /** Looking at one more href accepts at most that href. */
  lemma AcceptedStep(hrefs: seq<string>, n: string, i: nat, link: string)
    requires i < |hrefs|
    ensures AcceptedBefore(hrefs, n, i + 1, link) <==>
              AcceptedBefore(hrefs, n, i, link) || (Accepts(hrefs[i], n) && link == Base + hrefs[i])
  {
    if AcceptedBefore(hrefs, n, i + 1, link) && !AcceptedBefore(hrefs, n, i, link) {
      var k :| 0 <= k < i + 1 && Accepts(hrefs[k], n) && link == Base + hrefs[k];
      assert k == i;
    }
  }

  /** The scan loop: hrefs in document order, skipping those without the
      marker, keeping the absolute form of those with the name, and breaking
      at the first marker href without it. */
  method Scan(hrefs: seq<string>, n: string) returns (accepted: seq<string>)
    ensures forall link :: link in accepted <==> Selected(hrefs, n, link)
  {
    accepted := [];
    var i := 0;
    while i < |hrefs|
      invariant 0 <= i <= |hrefs|
      invariant forall j :: 0 <= j < i ==> !Stops(hrefs[j], n)
      invariant forall link :: link in accepted <==> AcceptedBefore(hrefs, n, i, link)
    {
      var href := hrefs[i];
      var next := accepted;
      if Contains(href, Marker) {
        if Contains(href, n) {
          next := accepted + [Base + href];
        } else {
          assert Stops(href, n);
          break;
        }
      }
      forall link
        ensures link in next <==> AcceptedBefore(hrefs, n, i + 1, link)
      {
        AcceptedStep(hrefs, n, i, link);
      }
      accepted := next;
      i := i + 1;
    }
    assert i == StopIndex(hrefs, n);
  }

  /** get_price_links after the page has been rendered: hrefs are the page's
      link targets in document order. Hrefs without the marker are skipped, a
      marker href containing the normalised name is kept with the site base in
      front, the first marker href without it ends the scan, and the result has
      no duplicates. */
  method GetPriceLinks(hrefs: seq<string>, name: string) returns (links: seq<string>)
    ensures NoDup(links)
    ensures forall link :: link in links <==> Selected(hrefs, NormaliseName(name), link)
    ensures forall link :: link in links ==> Contains(link, Marker) && Contains(link, NormaliseName(name))
  {
    var n := NormaliseName(name);
    var accepted := Scan(hrefs, n);
    links := Distinct(accepted);
    forall link | link in links
      ensures Contains(link, Marker) && Contains(link, n)
    {
      SelectedContains(hrefs, n, link);
    }
  }
}
