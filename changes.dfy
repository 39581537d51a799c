/**
 * The `GET /api/changes` handler: check the username, check that the account
 * exists, fetch one page of events, parse the `Link` header into a page
 * descriptor and format every event. The two upstream calls are inputs here:
 * whether the existence check succeeded, and what the events call returned
 * (`None` when it failed). Both failures answer with the same empty page.
 */
module Changes {
  import opened Wrappers
  import opened Text
  import opened Events
  import opened Links
  import opened SavedItems

  /** Events per page, sent upstream as `per_page` and reported as `itemsPerPage`. */
  const PerPage := 15

  datatype Pagination = Pagination(
    currentPage: int,
    totalPages: int,
    hasNextPage: bool,
    hasPreviousPage: bool,
    totalItems: int,
    itemsPerPage: int)

  /** The handler's answer: a client error, or a page of events. */
  datatype ChangesResponse =
    | BadRequest(error: string)
    | Feed(events: seq<Activity>, pagination: Pagination)

  /** What the events call returned: the body's list of events and the `link` header, if any. */
  datatype Upstream = Upstream(data: seq<Event>, link: Option<string>)

  /** The zeroed answer of both the failed existence check and any other failure. */
  const EmptyFeed := Feed([], Pagination(1, 0, false, false, 0, PerPage))

  /** One event as the handler sends it: its identity, the normalised details, and whether it is saved. */
  function FormatEvent(e: Event, readLater: Store, favorites: Store): Activity
    reads readLater, favorites
  {
    Activity(Some(e.id), e.eventType, e.repo, e.createdAt, FormatEventDetails(e), readLater.Has(e.id), favorites.Has(e.id))
  }

  /** The page count: the page parameter of the `last` URL when there is one, the requested page otherwise. */
  function TotalPages(links: map<string, string>, currentPage: int): int {
    if "last" in links && LastPageNumber(links["last"]).Some? then LastPageNumber(links["last"]).value
    else currentPage
  }

  method GetChanges(username: string, currentPage: int, userFound: bool, upstream: Option<Upstream>,
                    readLater: Store, favorites: Store) returns (r: ChangesResponse)
    ensures username == "" ==> r == BadRequest("Username is required")
    ensures username != "" && (!userFound || upstream.None?) ==> r == EmptyFeed
    ensures username != "" && userFound && upstream.Some? ==>
      var links := LinksOf(upstream.value.link);
      var total := TotalPages(links, currentPage);
      && r.Feed?
      && r.pagination == Pagination(currentPage, total, "next" in links, "prev" in links, total * PerPage, PerPage)
      && |r.events| == |upstream.value.data|
      && forall i :: 0 <= i < |r.events| ==> r.events[i] == FormatEvent(upstream.value.data[i], readLater, favorites)
  {
    if username == "" {
      return BadRequest("Username is required");
    }
    if !userFound {
      return EmptyFeed;
    }
    if upstream.None? {
      return EmptyFeed;
    }
    var response := upstream.value;
    var links := ParseLinkHeader(response.link);
    var totalPages := currentPage;
    if "last" in links && links["last"] != "" {
      var lastPage := LastPageNumber(links["last"]);
      if lastPage.Some? {
        totalPages := lastPage.value;
      }
    }
    var events := seq(|response.data|, i requires 0 <= i < |response.data| reads readLater, favorites =>
      FormatEvent(response.data[i], readLater, favorites));
    var hasNext := "next" in links && links["next"] != "";
    var hasPrevious := "prev" in links && links["prev"] != "";
    r := Feed(events, Pagination(currentPage, totalPages, hasNext, hasPrevious, totalPages * PerPage, PerPage));
  }

  // ---------------------------------------------------------------------------
  // The page descriptor for headers as GitHub writes them

  /**
   * A header listing well-formed entries whose last `last` entry, at any
   * position, is `<path?per_page=N&page=D>; rel="last"` reports `D` as the
   * page count, whatever page was requested. This covers both GitHub's
   * first-page header (`next, last`) and its later-page one
   * (`prev, next, last, first`).
   */
  lemma TotalPagesFromLast(entries: seq<(string, string)>, k: nat, path: string, perPage: string, digits: string, currentPage: int)
    requires ValidEntries(entries) && k < |entries|
    requires entries[k] == (path + PerPageParam + perPage + "&page=" + digits, "last")
    requires forall n :: k < n < |entries| ==> entries[n].1 != "last"
    requires NoQueryMarks(path) && AllDigits(perPage) && |digits| > 0 && AllDigits(digits)
    ensures TotalPages(LinksOf(Some(FormatHeader(entries))), currentPage) == DecimalValue(digits)
  {
    ParseFormatHeader(entries);
    RelationsLastDeclared(entries, k, "last");
    GitHubLastPage(path, perPage, digits);
  }

  /** Without a `last` relation the page count is the requested page. */
  lemma TotalPagesWithoutLast(header: Option<string>, currentPage: int)
    requires forall k :: 0 <= k < |Split(HeaderText(header), ',')| ==> !DeclaresRel(Split(HeaderText(header), ',')[k], "last")
    ensures TotalPages(LinksOf(header), currentPage) == currentPage
  {
    CollectKeys(Split(HeaderText(header), ','), "last");
  }

  /** A `last` URL whose only query parameter is `per_page` has no page number, so the count falls back to the requested page. */
  lemma TotalPagesPerPageOnly(links: map<string, string>, path: string, perPage: string, currentPage: int)
    requires "last" in links && links["last"] == path + PerPageParam + perPage
    requires NoQueryMarks(path) && AllDigits(perPage)
    ensures TotalPages(links, currentPage) == currentPage
  {
    PerPageOnlyHasNoPage(path, perPage);
  }

  /** The next and previous flags hold exactly when some piece of the header declares that relation. */
  lemma NeighbourFlags(header: Option<string>)
    ensures "next" in LinksOf(header) <==> Declared(Split(HeaderText(header), ','), "next")
    ensures "prev" in LinksOf(header) <==> Declared(Split(HeaderText(header), ','), "prev")
  {
    CollectKeys(Split(HeaderText(header), ','), "next");
    CollectKeys(Split(HeaderText(header), ','), "prev");
  }
}
