/**
 * The listing scraper: extraction of one listing section, parsing of a page, fetching of
 * one page through an HTTP oracle, and the walk over pages 0, 1, ... with early stop.
 */
module Scraper {
  import opened Wrappers
  import opened Text
  import opened Items

  /** The `h2.title a[href]` anchor of a section: its href and the text nodes below it. */
  datatype Link = Link(href: string, texts: seq<string>)

  /**
   * One `<section data-listingid=...>` element, reduced to what extraction looks at:
   * the listing id, the first title anchor, the text nodes of the first
   * `span.price span.NumberPart`, and the `src` of the first `div.img-container img[src]`.
   */
  datatype Section = Section(listingId: string, link: Option<Link>, priceTexts: Option<seq<string>>, imageSrc: Option<string>)

  /** `urljoin(base, href)`; None where it raises (a ValueError on a malformed URL). */
  type UrlJoin = (string, string) -> Option<string>

  /** What a GET of the browse URL with `page=<n>` comes back with. */
  datatype Reply = Response(status: int, sections: seq<Section>) | TransportError

  /** The HTTP client: the GET of the browse URL for a page number. */
  type HttpGet = nat -> Reply

  /** The scraper's configuration: the base URL, urljoin, and the HTTP client. */
  datatype Site = Site(baseUrl: string, join: UrlJoin, get: HttpGet)

  datatype FetchError = HttpStatus(code: int) | Transport

  /** The three ways extraction of one section ends. */
  datatype Extraction = Parsed(item: Item) | Skipped | Failed

  /** `_parse_item_section`, with the exception it may raise made an explicit `Failed`. */
  function ParseSection(site: Site, s: Section): Extraction {
    match s.link
    case None => Skipped
    case Some(link) =>
      var title := GetText(link.texts);
      if title == "" then Skipped
      else
        match site.join(site.baseUrl, link.href)
        case None => Failed
        case Some(url) =>
          var price := match s.priceTexts case None => None case Some(t) => Some(GetText(t));
          Parsed(Item(s.listingId, title, url, price, s.imageSrc))
  }

  /**
   * Extraction keeps a section exactly when it has a title anchor, some non-whitespace
   * title text and a joinable href; the item then carries the section's id, the stripped
   * title, the joined URL, a price that is absent exactly when the price element is, and
   * the image source as found (absent when there is no image element).
   * A missing anchor or a blank title is a skip, not a failure.
   */
  lemma ParseSectionOutcome(site: Site, s: Section)
    ensures ParseSection(site, s).Skipped? <==>
      s.link.None? || forall i :: 0 <= i < |s.link.value.texts| ==> Blank(s.link.value.texts[i])
    ensures ParseSection(site, s).Failed? <==>
      s.link.Some? && GetText(s.link.value.texts) != "" && site.join(site.baseUrl, s.link.value.href).None?
    ensures ParseSection(site, s).Parsed? ==>
      var x := ParseSection(site, s).item;
      && s.link.Some?
      && x.id == s.listingId
      && x.title == GetText(s.link.value.texts) && x.title != ""
      && site.join(site.baseUrl, s.link.value.href) == Some(x.url)
      && (x.price.None? <==> s.priceTexts.None?)
      && (s.priceTexts.Some? ==> x.price == Some(GetText(s.priceTexts.value)))
      && x.image == s.imageSrc
  {
    if s.link.Some? { GetTextEmptyIffBlank(s.link.value.texts); }
  }

  /** The items `parse_items_from_html` appends, in section order, before deduplication. */
  function Kept(site: Site, secs: seq<Section>): seq<Item>
    decreases |secs|
  {
    if secs == [] then []
    else
      var last := ParseSection(site, secs[|secs| - 1]);
      Kept(site, secs[..|secs| - 1]) + (if last.Parsed? then [last.item] else [])
  }

  /** What `parse_items_from_html` returns for a page's sections. */
  function ParsePage(site: Site, secs: seq<Section>): seq<Item> {
    Dedup(Kept(site, secs))
  }

  /** Set of listing ids of the sections that extract to an item. */
  function ParsedIds(site: Site, secs: seq<Section>): set<string> {
    set i | 0 <= i < |secs| && ParseSection(site, secs[i]).Parsed? :: secs[i].listingId
  }

  /** Parsing sections one after another: the kept items of a concatenation concatenate. */
  lemma {:induction false} KeptAppend(site: Site, a: seq<Section>, b: seq<Section>)
    ensures Kept(site, a + b) == Kept(site, a) + Kept(site, b)
    decreases |b|
  {
    if b == [] {
      assert a + b == a;
    } else {
      var b', s := b[..|b| - 1], b[|b| - 1];
      var e := ParseSection(site, s);
      var extra := if e.Parsed? then [e.item] else [];
      assert (a + b)[..|a + b| - 1] == a + b';
      assert (a + b)[|a + b| - 1] == s;
      assert Kept(site, a + b) == Kept(site, a + b') + extra;
      assert Kept(site, b) == Kept(site, b') + extra;
      KeptAppend(site, a, b');
    }
  }

  /**
   * Per-section isolation: a section that is skipped or whose extraction fails contributes
   * nothing, and every section before and after it is processed as if it were absent.
   */
  lemma FragmentIsolation(site: Site, a: seq<Section>, s: Section, b: seq<Section>)
    requires !ParseSection(site, s).Parsed?
    ensures Kept(site, a + [s] + b) == Kept(site, a) + Kept(site, b)
    ensures ParsePage(site, a + [s] + b) == ParsePage(site, a + b)
  {
    KeptDropsSection(site, a, s, b);
    KeptAppend(site, a, b);
    ParsePageOfKept(site, a + [s] + b, a + b);
  }

  lemma KeptDropsSection(site: Site, a: seq<Section>, s: Section, b: seq<Section>)
    requires !ParseSection(site, s).Parsed?
    ensures Kept(site, a + [s] + b) == Kept(site, a) + Kept(site, b)
  {
    KeptAppend(site, a + [s], b);
    KeptAppend(site, a, [s]);
    KeptSingle(site, s);
  }

  lemma ParsePageOfKept(site: Site, x: seq<Section>, y: seq<Section>)
    requires Kept(site, x) == Kept(site, y)
    ensures ParsePage(site, x) == ParsePage(site, y)
  {
  }

  lemma KeptSingle(site: Site, s: Section)
    requires !ParseSection(site, s).Parsed?
    ensures Kept(site, [s]) == []
  {
    assert [s][..0] == [];
  }

  lemma {:induction false} KeptIds(site: Site, secs: seq<Section>)
    ensures IdSet(Kept(site, secs)) == ParsedIds(site, secs)
    decreases |secs|
  {
    if secs != [] {
      var init, s := secs[..|secs| - 1], secs[|secs| - 1];
      KeptIds(site, init);
      var e := ParseSection(site, s);
      assert forall i :: 0 <= i < |init| ==> secs[i] == init[i];
      if e.Parsed? {
        IdSetSnoc(Kept(site, init), e.item);
        ParseSectionOutcome(site, s);
        assert ParsedIds(site, secs) == ParsedIds(site, init) + {s.listingId};
      } else {
        assert Kept(site, init) + [] == Kept(site, init);
        assert ParsedIds(site, secs) == ParsedIds(site, init);
      }
    }
  }

  /**
   * A parsed page has one item per id, and its ids are exactly the listing ids of the
   * sections that extract to an item.
   */
  lemma ParsePageIds(site: Site, secs: seq<Section>)
    ensures DistinctIds(ParsePage(site, secs))
    ensures IdSet(ParsePage(site, secs)) == ParsedIds(site, secs)
  {
    KeptIds(site, secs);
    DedupSpec(Kept(site, secs));
  }

  /** `parse_items_from_html`: the per-section loop followed by the id-keyed deduplication. */
  method ParseItemsFromHtml(site: Site, secs: seq<Section>) returns (items: seq<Item>)
    ensures items == ParsePage(site, secs)
    ensures DistinctIds(items) && IdSet(items) == ParsedIds(site, secs)
  {
    var kept: seq<Item> := [];
    var i := 0;
    while i < |secs|
      invariant 0 <= i <= |secs|
      invariant kept == Kept(site, secs[..i])
    {
      assert secs[..i + 1][..i] == secs[..i];
      var e := ParseSection(site, secs[i]);
      if e.Parsed? {
        kept := kept + [e.item];
      }
      i := i + 1;
    }
    assert secs[..i] == secs;
    items := Dedup(kept);
    ParsePageIds(site, secs);
  }

  /** `fetch_page_html`: a transport failure or a 4xx/5xx status raises, else the page. */
  function FetchPageHtml(site: Site, page: nat): (r: Result<seq<Section>, FetchError>) {
    match site.get(page)
    case TransportError => Failure(Transport)
    case Response(status, secs) =>
      if 400 <= status < 600 then Failure(HttpStatus(status)) else Success(secs)
  }

  /**
   * A page fetch fails exactly on a transport error or an error status (400 to 599), and the
   * failure names that cause; any other reply hands back the page's sections.
   */
  lemma FetchPageOutcome(site: Site, page: nat)
    ensures FetchPageHtml(site, page) == Failure(Transport) <==> site.get(page).TransportError?
    ensures FetchPageHtml(site, page).Failure? && FetchPageHtml(site, page).error.HttpStatus? <==>
      site.get(page).Response? && 400 <= site.get(page).status < 600
    ensures FetchPageHtml(site, page).Failure? && FetchPageHtml(site, page).error.HttpStatus? ==>
      FetchPageHtml(site, page).error.code == site.get(page).status
    ensures FetchPageHtml(site, page).Success? ==>
      site.get(page).Response? && !(400 <= site.get(page).status < 600)
      && FetchPageHtml(site, page).value == site.get(page).sections
  {
  }

  /** Page `page` was fetched and has items, so the walk goes on past it. */
  predicate Continues(site: Site, page: nat) {
    FetchPageHtml(site, page).Success? && ParsePage(site, FetchPageHtml(site, page).value) != []
  }

  /**
   * The walk from page `page` on: the items gathered from the pages before the stop, the
   * index one past the last page requested, and the fetch error that ended it, if any.
   */
  datatype Walk = Walk(gathered: seq<Item>, requested: nat, failure: Option<FetchError>)

  function WalkFrom(site: Site, maxPages: int, page: nat): Walk
    decreases maxPages - page
  {
    if page >= maxPages then Walk([], page, None)
    else
      match FetchPageHtml(site, page)
      case Failure(e) => Walk([], page + 1, Some(e))
      case Success(secs) =>
        var items := ParsePage(site, secs);
        if items == [] then Walk([], page + 1, None)
        else
          var rest := WalkFrom(site, maxPages, page + 1);
          Walk(items + rest.gathered, rest.requested, rest.failure)
  }

  /** What `fetch_all_items(maxPages)` returns or raises. */
  function FetchAll(site: Site, maxPages: int): Result<seq<Item>, FetchError> {
    var w := WalkFrom(site, maxPages, 0);
    if w.failure.Some? then Failure(w.failure.value) else Success(Dedup(w.gathered))
  }

  /** The page numbers 0, 1, ..., n - 1 in order. */
  function PagesBelow(n: nat): (r: seq<nat>) {
    seq(n, i requires 0 <= i < n => i)
  }

  /** The walk requests at least one page and never goes beyond the ceiling. */
  lemma {:induction false} WalkBounds(site: Site, maxPages: int, page: nat)
    ensures page >= maxPages ==> WalkFrom(site, maxPages, page) == Walk([], page, None)
    ensures page < maxPages ==> page < WalkFrom(site, maxPages, page).requested <= maxPages
    decreases maxPages - page
  {
    if page < maxPages && Continues(site, page) {
      WalkBounds(site, maxPages, page + 1);
    }
  }

  /** Every page requested before the last one was fetched and had items. */
  lemma {:induction false} WalkContinuesBeforeStop(site: Site, maxPages: int, page: nat)
    ensures forall p :: page <= p < WalkFrom(site, maxPages, page).requested - 1 ==> Continues(site, p)
    decreases maxPages - page
  {
    if page < maxPages && Continues(site, page) {
      WalkContinuesBeforeStop(site, maxPages, page + 1);
      WalkBounds(site, maxPages, page + 1);
    }
  }

  /**
   * Below the ceiling the walk stops only on a page that could not be fetched or had no
   * items, and it reports a failure exactly when the last page it requested failed, with
   * that page's error.
   */
  lemma {:induction false} WalkStopsOnEmptyOrFailed(site: Site, maxPages: int, page: nat)
    ensures var w := WalkFrom(site, maxPages, page);
      page < w.requested < maxPages ==> !Continues(site, w.requested - 1)
    ensures var w := WalkFrom(site, maxPages, page);
      w.failure.Some? <==> page < w.requested && FetchPageHtml(site, w.requested - 1).Failure?
    ensures var w := WalkFrom(site, maxPages, page);
      w.failure.Some? ==> FetchPageHtml(site, w.requested - 1) == Failure(w.failure.value)
    decreases maxPages - page
  {
    if page < maxPages && Continues(site, page) {
      WalkStopsOnEmptyOrFailed(site, maxPages, page + 1);
      WalkBounds(site, maxPages, page + 1);
    }
  }

  /** No page is fetched when `maxPages <= 0`, and the result is empty. */
  lemma NoPagesWithoutBudget(site: Site, maxPages: int)
    requires maxPages <= 0
    ensures WalkFrom(site, maxPages, 0).requested == 0 && FetchAll(site, maxPages) == Success([])
  {
    DedupSpec([]);
  }

  /** Pages that all have items are walked up to the ceiling, no further. */
  lemma WalkReachesCeiling(site: Site, maxPages: int)
    requires maxPages >= 0
    requires forall p: nat :: p < maxPages ==> Continues(site, p)
    ensures WalkFrom(site, maxPages, 0).requested == maxPages
    ensures WalkFrom(site, maxPages, 0).failure.None?
  {
    WalkBounds(site, maxPages, 0);
    WalkStopsOnEmptyOrFailed(site, maxPages, 0);
    if maxPages > 0 {
      assert Continues(site, maxPages - 1);
    }
  }

  /** The union of the ids of the parsed pages lo, ..., hi - 1 that were fetched. */
  function PageIds(site: Site, lo: nat, hi: nat): set<string>
    decreases hi - lo
  {
    if lo >= hi then {}
    else
      var here := match FetchPageHtml(site, lo)
        case Success(secs) => IdSet(ParsePage(site, secs))
        case Failure(_) => {};
      here + PageIds(site, lo + 1, hi)
  }

  lemma {:induction false} WalkGathersPages(site: Site, maxPages: int, page: nat)
    ensures IdSet(WalkFrom(site, maxPages, page).gathered) == PageIds(site, page, WalkFrom(site, maxPages, page).requested)
    decreases maxPages - page
  {
    var w := WalkFrom(site, maxPages, page);
    if page < maxPages {
      match FetchPageHtml(site, page)
      case Failure(e) =>
        assert PageIds(site, page + 1, page + 1) == {};
      case Success(secs) =>
        var items := ParsePage(site, secs);
        if items == [] {
          assert PageIds(site, page + 1, page + 1) == {};
        } else {
          WalkGathersPages(site, maxPages, page + 1);
          WalkBounds(site, maxPages, page + 1);
          IdSetAppend(items, WalkFrom(site, maxPages, page + 1).gathered);
        }
    }
  }

  /**
   * `fetch_all_items` either raises the fetch error that stopped the walk, with no partial
   * result, or returns one item per id, the ids being exactly those of the pages it
   * requested (the last of which, below the ceiling, contributes none).
   */
  lemma FetchAllResult(site: Site, maxPages: int)
    ensures var w := WalkFrom(site, maxPages, 0);
      FetchAll(site, maxPages).Failure? <==> w.failure.Some?
    ensures FetchAll(site, maxPages).Success? ==>
      var r := FetchAll(site, maxPages).value;
      DistinctIds(r) && IdSet(r) == PageIds(site, 0, WalkFrom(site, maxPages, 0).requested)
  {
    WalkGathersPages(site, maxPages, 0);
    DedupSpec(WalkFrom(site, maxPages, 0).gathered);
  }

  /**
   * `fetch_all_items`: pages 0, 1, ... are requested in order until a page has no items or
   * `maxPages` pages have been requested; a failed fetch propagates at once.
   */
  method FetchAllItems(site: Site, maxPages: int) returns (r: Result<seq<Item>, FetchError>, requested: seq<nat>)
    ensures r == FetchAll(site, maxPages)
    ensures requested == PagesBelow(WalkFrom(site, maxPages, 0).requested)
  {
    WalkBounds(site, maxPages, 0);
    ghost var w0 := WalkFrom(site, maxPages, 0);
    var allItems: seq<Item> := [];
    requested := [];
    var page: nat := 0;
    while page < maxPages
      invariant requested == PagesBelow(page)
      invariant w0.requested == WalkFrom(site, maxPages, page).requested
      invariant w0.failure == WalkFrom(site, maxPages, page).failure
      invariant w0.gathered == allItems + WalkFrom(site, maxPages, page).gathered
      decreases maxPages - page
    {
      requested := requested + [page];
      var html := FetchPageHtml(site, page);
      if html.Failure? {
        assert WalkFrom(site, maxPages, page) == Walk([], page + 1, Some(html.error));
        r := Failure(html.error);
        return;
      }
      var items := ParseItemsFromHtml(site, html.value);
      if items == [] {
        assert WalkFrom(site, maxPages, page) == Walk([], page + 1, None);
        break;
      }
      ghost var rest := WalkFrom(site, maxPages, page + 1);
      assert WalkFrom(site, maxPages, page) == Walk(items + rest.gathered, rest.requested, rest.failure);
      allItems := allItems + items;
      page := page + 1;
    }
    assert page >= maxPages ==> WalkFrom(site, maxPages, page) == Walk([], page, None);
    assert w0.gathered == allItems && w0.failure.None?;
    r := Success(Dedup(allItems));
  }
}
