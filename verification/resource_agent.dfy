/**
 * `ResourceAgent.find_resources` (src/agents/resource_agent.py): look the
 * query up in the local vector index, top the result up from a web search
 * when it is short, fall back to a single Google "Search Link" when the web
 * search finds nothing or fails, and cut the list to `limit`.
 *
 * The sentence embedder plus the Qdrant query, the DuckDuckGo text search and
 * `urllib.parse.quote` are oracles handed in through `Services`; the function
 * itself is then a total, pure decision procedure.
 */
module ResourceAgent {
  import opened Models
  import opened Text

  /** The similarity floor passed to the vector index. */
  const ScoreThreshold: real := 0.4

  /** Suffix added to the query for the first web search. */
  const CourseSuffix: string := " tutorial course"

  /** Length kept from a description before the ellipsis is appended. */
  const ExcerptLength: nat := 200
  const Ellipsis: string := "..."

  const GoogleSearchPrefix: string := "https://www.google.com/search?q="
  const NoResultsText: string := "No direct resources found. Click to search on Google."
  const FailedText: string := "Search failed. Click to search on Google."
  const SearchLinkKind: string := "Search Link"
  const WebKind: string := "Web Resource"

  /** One point returned by the vector index: `str(point.id)` and the payload
      keys the conversion reads. */
  datatype VectorPoint = VectorPoint(
    id: string, title: Field, url: Field, description: Field, contentType: Field)

  /** The request sent to the vector index: the query to embed, the number of
      points wanted and the score floor. */
  datatype VectorQuery = VectorQuery(text: string, limit: int, scoreThreshold: real)

  /** Embedding plus index lookup either raises or returns points. */
  datatype LocalOutcome = LocalFailed | LocalPoints(points: seq<VectorPoint>)

  /** One web search result as a dictionary with `title`, `href` and `body`. */
  datatype WebItem = WebItem(title: Field, href: Field, body: Field)

  /** `ddgs.text(query, max_results=...)`. */
  datatype WebCall = WebCall(query: string, maxResults: int)

  datatype WebOutcome = WebRaised | WebReturned(items: seq<WebItem>)

  /** The collaborators of the agent. */
  datatype Services = Services(
    vectorSearch: VectorQuery -> LocalOutcome,
    webSearch: WebCall -> WebOutcome,
    quote: string -> string)

  /** The resources returned, together with the web searches that were made. */
  datatype Lookup = Lookup(resources: seq<Resource>, webCalls: seq<WebCall>)

  /** `text[:200] + "..."`: at most 203 characters, the kept part is a prefix
      of the text, and a text of at most 200 characters is kept whole. */
  function Excerpt(text: string): (r: string)
    ensures |r| <= ExcerptLength + |Ellipsis|
    ensures EndsWith(r, Ellipsis)
    ensures r[..|r| - |Ellipsis|] <= text
    ensures |text| <= ExcerptLength ==> r[..|r| - |Ellipsis|] == text
    ensures |text| >= ExcerptLength ==> |r| == ExcerptLength + |Ellipsis|
  {
    var kept := Take(text, ExcerptLength);
    assert (kept + Ellipsis)[..|kept|] == kept;
    kept + Ellipsis
  }

  /** The resource built from one index point, or `None` when building it
      raises: a `null` description cannot be sliced and a `null` title or url
      is rejected by the `Resource` model. A `null` content type is allowed. */
  function LocalResource(p: VectorPoint): (r: Option<Resource>)
    ensures r.None? <==> p.title.Null? || p.url.Null? || p.description.Null?
    ensures r.Some? ==>
      && r.value.id == Some(p.id)
      && r.value.title == (if p.title.Missing? then "Unknown" else p.title.text)
      && r.value.url == (if p.url.Missing? then "#" else p.url.text)
      && r.value.description == Excerpt(if p.description.Missing? then "" else p.description.text)
      && r.value.kind == (match p.contentType
                          case Missing => Some(DefaultKind)
                          case Null => None
                          case Str(t) => Some(t))
  {
    var title := GetOr(p.title, "Unknown");
    var url := GetOr(p.url, "#");
    var description := GetOr(p.description, "");
    var kind := match p.contentType
                case Missing => Some(DefaultKind)
                case Null => None
                case Str(t) => Some(t);
    if title.None? || url.None? || description.None? then None
    else Some(Resource(Some(p.id), title.value, url.value, Excerpt(description.value), kind))
  }

  /** The resource built from one web result, or `None` when building it
      raises (a `null` title, href or body). */
  function WebResource(w: WebItem): (r: Option<Resource>)
    ensures r.None? <==> w.title.Null? || w.href.Null? || w.body.Null?
    ensures r.Some? ==>
      && r.value.id.None?
      && r.value.kind == Some(WebKind)
      && r.value.title == (if w.title.Missing? then "" else w.title.text)
      && r.value.url == (if w.href.Missing? then "" else w.href.text)
      && r.value.description == Excerpt(if w.body.Missing? then "" else w.body.text)
  {
    var title := GetOr(w.title, "");
    var url := GetOr(w.href, "");
    var body := GetOr(w.body, "");
    if title.None? || url.None? || body.None? then None
    else Some(Resource(None, title.value, url.value, Excerpt(body.value), Some(WebKind)))
  }

  /** A `for` loop that appends one converted item per input and stops at the
      first conversion that raises: the items appended before the failure
      stay, in input order, and `failed` says whether the loop was cut short. */
  function ConvertPrefix<A>(xs: seq<A>, convert: A -> Option<Resource>): (r: (seq<Resource>, bool))
    ensures |r.0| <= |xs|
    ensures forall i :: 0 <= i < |r.0| ==> convert(xs[i]) == Some(r.0[i])
    ensures r.1 <==> |r.0| < |xs|
    ensures r.1 ==> convert(xs[|r.0|]).None?
    ensures (forall i :: 0 <= i < |xs| ==> convert(xs[i]).Some?) ==> |r.0| == |xs|
  {
    if |xs| == 0 then ([], false)
    else match convert(xs[0])
      case None => ([], true)
      case Some(res) =>
        var rest := ConvertPrefix(xs[1..], convert);
        ([res] + rest.0, rest.1)
  }

  /** The local part: nothing when the embedding or the index query raises,
      otherwise the points converted up to the first one that raises. */
  function LocalResources(outcome: LocalOutcome): (r: seq<Resource>)
    ensures outcome.LocalFailed? ==> r == []
    ensures outcome.LocalPoints? ==> r == ConvertPrefix(outcome.points, LocalResource).0
    ensures forall i :: 0 <= i < |r| ==> r[i].id.Some?
    ensures forall i :: 0 <= i < |r| ==> |r[i].description| <= ExcerptLength + |Ellipsis|
  {
    match outcome
    case LocalFailed => []
    case LocalPoints(points) => ConvertPrefix(points, LocalResource).0
  }

  /** The last-resort Google link for the query. */
  function SearchLink(query: string, quote: string -> string, description: string): (r: Resource)
    ensures r.id.None? && r.kind == Some(SearchLinkKind)
    ensures r.title == "Search Google for '" + query + "'"
    ensures r.url == GoogleSearchPrefix + quote(query)
    ensures r.description == description
  {
    Resource(None, "Search Google for '" + query + "'", GoogleSearchPrefix + quote(query),
             description, Some(SearchLinkKind))
  }

  /** The items appended from a non-empty web result list; a conversion that
      raises ends the list with the "Search failed" link. */
  function WebItems(query: string, items: seq<WebItem>, quote: string -> string): (r: seq<Resource>)
    ensures (forall j :: 0 <= j < |items| ==> WebResource(items[j]).Some?) ==>
              |r| == |items| && forall i :: 0 <= i < |r| ==> WebResource(items[i]) == Some(r[i])
    ensures (exists j :: 0 <= j < |items| && WebResource(items[j]).None?) ==>
              && 1 <= |r| <= |items|
              && r[|r| - 1] == SearchLink(query, quote, FailedText)
              && WebResource(items[|r| - 1]).None?
              && forall i :: 0 <= i < |r| - 1 ==> WebResource(items[i]) == Some(r[i])
    ensures forall i :: 0 <= i < |r| ==> r[i].id.None?
    ensures forall i :: 0 <= i < |r| ==> |r[i].description| <= ExcerptLength + |Ellipsis|
  {
    var converted := ConvertPrefix(items, WebResource);
    if converted.1 then converted.0 + [SearchLink(query, quote, FailedText)] else converted.0
  }

  /** The items a single web outcome contributes when it is the last rung. */
  function LastRung(query: string, outcome: WebOutcome, quote: string -> string): (r: seq<Resource>)
    ensures |r| >= 1
    ensures forall i :: 0 <= i < |r| ==> r[i].id.None?
    ensures forall i :: 0 <= i < |r| ==> |r[i].description| <= ExcerptLength + |Ellipsis|
  {
    match outcome
    case WebRaised => [SearchLink(query, quote, FailedText)]
    case WebReturned(items) =>
      if |items| == 0 then [SearchLink(query, quote, NoResultsText)]
      else WebItems(query, items, quote)
  }

  /** The web fallback for `need` missing items: the query with the course
      suffix first, the bare query only when the first search returned an
      empty list, and a search link when nothing usable came back. */
  function WebFallback(query: string, need: int, svc: Services): (r: (seq<Resource>, seq<WebCall>))
    ensures 1 <= |r.1| <= 2
    ensures r.1[0] == WebCall(query + CourseSuffix, need)
    ensures |r.1| == 2 <==> svc.webSearch(r.1[0]) == WebReturned([])
    ensures |r.1| == 2 ==> r.1[1] == WebCall(query, need)
    ensures r.0 == LastRung(query, svc.webSearch(r.1[|r.1| - 1]), svc.quote)
    ensures forall i :: 0 <= i < |r.0| ==> r.0[i].id.None?
    ensures forall i :: 0 <= i < |r.0| ==> |r.0[i].description| <= ExcerptLength + |Ellipsis|
  {
    var first := WebCall(query + CourseSuffix, need);
    match svc.webSearch(first)
    case WebRaised => ([SearchLink(query, svc.quote, FailedText)], [first])
    case WebReturned(items) =>
      if |items| == 0 then
        var second := WebCall(query, need);
        (LastRung(query, svc.webSearch(second), svc.quote), [first, second])
      else (WebItems(query, items, svc.quote), [first])
  }

  /** `find_resources(query, limit)`. */
  function FindResources(query: string, limit: int, svc: Services): (r: Lookup)
    // the result never holds more than `limit` items
    ensures limit >= 0 ==> |r.resources| <= limit
    // no web search without a shortfall
    ensures r.webCalls == [] <==> |LocalResources(svc.vectorSearch(VectorQuery(query, limit, ScoreThreshold)))| >= limit
    // local items come first, in index order
    ensures var local := LocalResources(svc.vectorSearch(VectorQuery(query, limit, ScoreThreshold)));
            Take(local, limit) <= r.resources
  {
    var local := LocalResources(svc.vectorSearch(VectorQuery(query, limit, ScoreThreshold)));
    if |local| < limit then
      var fallback := WebFallback(query, limit - |local|, svc);
      assert Take(local + fallback.0, limit)[..|local|] == local;
      Lookup(Take(local + fallback.0, limit), fallback.1)
    else Lookup(Take(local, limit), [])
  }

  /** The local part of a lookup: the index points converted in order. */
  function LocalPart(query: string, limit: int, svc: Services): seq<Resource> {
    LocalResources(svc.vectorSearch(VectorQuery(query, limit, ScoreThreshold)))
  }

  /** Enough local hits: no web search is made and the result is the first
      `limit` local items in index order. */
  lemma EnoughLocalHits(query: string, limit: int, svc: Services)
    requires limit >= 0
    requires |LocalPart(query, limit, svc)| >= limit
    ensures FindResources(query, limit, svc).webCalls == []
    ensures FindResources(query, limit, svc).resources == LocalPart(query, limit, svc)[..limit]
  {
  }

  /** An embedding or index failure is indistinguishable from an index that
      returned no points. */
  lemma LocalFailureIsNoHits(query: string, limit: int, svc: Services, svc': Services)
    requires svc.vectorSearch(VectorQuery(query, limit, ScoreThreshold)) == LocalFailed
    requires svc'.vectorSearch(VectorQuery(query, limit, ScoreThreshold)) == LocalPoints([])
    requires svc.webSearch == svc'.webSearch && svc.quote == svc'.quote
    ensures FindResources(query, limit, svc) == FindResources(query, limit, svc')
  {
    assert LocalPart(query, limit, svc) == [] == LocalPart(query, limit, svc');
    FindResourcesCongruent(query, limit, svc, svc');
  }

  /** A lookup depends on the vector search only through its local part. */
  lemma FindResourcesCongruent(query: string, limit: int, svc: Services, svc': Services)
    requires LocalPart(query, limit, svc) == LocalPart(query, limit, svc')
    requires svc.webSearch == svc'.webSearch && svc.quote == svc'.quote
    ensures FindResources(query, limit, svc) == FindResources(query, limit, svc')
  {
    var local := LocalPart(query, limit, svc);
    if |local| < limit {
      WebFallbackUsesWebOnly(query, limit - |local|, svc, svc');
    }
  }

  /** The web fallback depends on the web search and the quoting only. */
  lemma WebFallbackUsesWebOnly(query: string, need: int, svc: Services, svc': Services)
    requires svc.webSearch == svc'.webSearch && svc.quote == svc'.quote
    ensures WebFallback(query, need, svc) == WebFallback(query, need, svc')
  {
  }

  /** With a shortfall, the web is asked for exactly the missing count: first
      with the course suffix, then with the bare query only when the first
      search returned an empty list. */
  lemma WebSearchRequests(query: string, limit: int, svc: Services)
    requires |LocalPart(query, limit, svc)| < limit
    ensures var calls := FindResources(query, limit, svc).webCalls;
            var need := limit - |LocalPart(query, limit, svc)|;
            && |calls| >= 1
            && calls[0] == WebCall(query + CourseSuffix, need)
            && (|calls| == 2 <==> svc.webSearch(calls[0]) == WebReturned([]))
            && (|calls| == 2 ==> calls[1] == WebCall(query, need))
            && |calls| <= 2
  {
  }

  /** Web results that all convert are appended after the local items, in the
      provider's order. */
  lemma {:induction false} WebResultsFollowLocal(query: string, limit: int, svc: Services, items: seq<WebItem>)
    requires |LocalPart(query, limit, svc)| < limit
    requires |items| > 0
    requires svc.webSearch(WebCall(query + CourseSuffix, limit - |LocalPart(query, limit, svc)|)) == WebReturned(items)
    requires forall i :: 0 <= i < |items| ==> WebResource(items[i]).Some?
    ensures FindResources(query, limit, svc).resources
            == Take(LocalPart(query, limit, svc) + ConvertPrefix(items, WebResource).0, limit)
    ensures |ConvertPrefix(items, WebResource).0| == |items|
  {
    var need := limit - |LocalPart(query, limit, svc)|;
    FirstRungItems(query, need, svc, items);
    WebItemsAllConverted(query, items, svc.quote);
    ShortfallResult(query, limit, svc);
  }

  /** A non-empty first web result list is the only rung. */
  lemma FirstRungItems(query: string, need: int, svc: Services, items: seq<WebItem>)
    requires |items| > 0
    requires svc.webSearch(WebCall(query + CourseSuffix, need)) == WebReturned(items)
    ensures WebFallback(query, need, svc).0 == WebItems(query, items, svc.quote)
  {
  }

  /** Web items that all convert are kept in order with no search link. */
  lemma WebItemsAllConverted(query: string, items: seq<WebItem>, quote: string -> string)
    requires forall i :: 0 <= i < |items| ==> WebResource(items[i]).Some?
    ensures WebItems(query, items, quote) == ConvertPrefix(items, WebResource).0
    ensures |ConvertPrefix(items, WebResource).0| == |items|
  {
  }

  /** With a shortfall, the result is the local items followed by what the
      web fallback produced, cut to `limit`. */
  lemma ShortfallResult(query: string, limit: int, svc: Services)
    requires |LocalPart(query, limit, svc)| < limit
    ensures FindResources(query, limit, svc).resources
            == Take(LocalPart(query, limit, svc) + Shortfall(query, limit, svc), limit)
  {
  }

  /** The items the web fallback produced for a lookup with a shortfall. */
  function Shortfall(query: string, limit: int, svc: Services): seq<Resource> {
    WebFallback(query, limit - |LocalPart(query, limit, svc)|, svc).0
  }

  /** Both web searches returned nothing: exactly one "no direct resources"
      search link follows the local items, and it is last. */
  lemma NoWebResultsGiveSearchLink(query: string, limit: int, svc: Services)
    requires |LocalPart(query, limit, svc)| < limit
    requires svc.webSearch(WebCall(query + CourseSuffix, limit - |LocalPart(query, limit, svc)|)) == WebReturned([])
    requires svc.webSearch(WebCall(query, limit - |LocalPart(query, limit, svc)|)) == WebReturned([])
    ensures FindResources(query, limit, svc).resources
            == LocalPart(query, limit, svc) + [SearchLink(query, svc.quote, NoResultsText)]
  {
  }

  /** A web search that raises, on either rung, gives exactly one "search
      failed" link after the local items. */
  lemma WebFailureGivesSearchLink(query: string, limit: int, svc: Services)
    requires |LocalPart(query, limit, svc)| < limit
    requires var need := limit - |LocalPart(query, limit, svc)|;
             || svc.webSearch(WebCall(query + CourseSuffix, need)) == WebRaised
             || (&& svc.webSearch(WebCall(query + CourseSuffix, need)) == WebReturned([])
                 && svc.webSearch(WebCall(query, need)) == WebRaised)
    ensures FindResources(query, limit, svc).resources
            == LocalPart(query, limit, svc) + [SearchLink(query, svc.quote, FailedText)]
  {
  }

  /** Every description in the result has at most 203 characters. */
  lemma {:induction false} DescriptionsAreBounded(query: string, limit: int, svc: Services)
    ensures var r := FindResources(query, limit, svc).resources;
            forall i :: 0 <= i < |r| ==> |r[i].description| <= ExcerptLength + |Ellipsis|
  {
    var r := FindResources(query, limit, svc).resources;
    var local := LocalPart(query, limit, svc);
    if |local| < limit {
      var fallback := Shortfall(query, limit, svc);
      ShortfallResult(query, limit, svc);
      forall i | 0 <= i < |r|
        ensures |r[i].description| <= ExcerptLength + |Ellipsis|
      {
        assert r[i] == (local + fallback)[i];
      }
    }
  }

  /** Only the items that came from the index carry an id: web results and
      search links have none. */
  lemma {:induction false} IdsMarkLocalItems(query: string, limit: int, svc: Services)
    ensures var r := FindResources(query, limit, svc).resources;
            var local := LocalPart(query, limit, svc);
            forall i :: 0 <= i < |r| ==> (r[i].id.Some? <==> i < |local|)
  {
    var r := FindResources(query, limit, svc).resources;
    var local := LocalPart(query, limit, svc);
    if |local| < limit {
      ShortfallResult(query, limit, svc);
      IdsOfJoined(local, Shortfall(query, limit, svc), limit);
    }
  }

  /** Cutting identified items followed by unidentified ones: exactly the
      leading positions carry an id. */
  lemma IdsOfJoined(local: seq<Resource>, web: seq<Resource>, limit: int)
    requires forall i :: 0 <= i < |local| ==> local[i].id.Some?
    requires forall i :: 0 <= i < |web| ==> web[i].id.None?
    ensures var r := Take(local + web, limit);
            forall i :: 0 <= i < |r| ==> (r[i].id.Some? <==> i < |local|)
  {
    var r := Take(local + web, limit);
    forall i | 0 <= i < |r|
      ensures r[i].id.Some? <==> i < |local|
    {
      assert r[i] == (local + web)[i];
    }
  }
}
