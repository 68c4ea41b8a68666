/** The in-memory cache in front of the two scraping endpoints, and the
    request handlers that consult it. `GET /api/competities` keeps one slot;
    `GET /api/standen/:competitieId` keeps one entry per identifier string.
    An entry is served while it is younger than five minutes; a failed
    upstream fetch answers 500 and leaves the cache as it was. The clock
    readings and the upstream response are parameters. */
module Cache {
  import opened Optional
  import opened Competitions
  import opened Standings

  /** `CACHE_DURATION`: five minutes, in milliseconds. */
  const CacheDuration: int := 5 * 60 * 1000

  /** A cached payload and the clock reading taken when its request began. */
  datatype Entry<T> = Entry(data: T, timestamp: int)

  /** `cache.competities`: no data before the first successful scrape. */
  datatype CompetitionsSlot = CompetitionsSlot(data: Option<seq<Competition>>, timestamp: int)

  datatype State = State(competities: CompetitionsSlot, standen: map<string, Entry<Standings>>)

  /** The cache as the server starts: `{ data: null, timestamp: 0 }` and `{}`. */
  const Initial: State := State(CompetitionsSlot(None, 0), map[])

  /** An entry stamped `timestamp` is still served at `now`. */
  predicate Fresh(timestamp: int, now: int) {
    now - timestamp < CacheDuration
  }

  /** What the upstream request yields: a network failure, or a response
      with its status and the page it carries. */
  datatype Fetched<P> = NetworkError | Response(status: int, page: P)

  /** `response.ok`. */
  predicate IsOk(status: int) {
    200 <= status <= 299
  }

  /** `res.json(payload)`, or the 500 answer with its error message. */
  datatype Reply<T> = Json(payload: T) | ServerError(message: string)

  /** A handler's answer, the cache after it, and whether it went upstream. */
  datatype Handled<T> = Handled(reply: Reply<T>, cache: State, fetched: bool)

  const CompetitionsError: string := "Failed to fetch competitions"
  const StandingsError: string := "Failed to fetch standings"

  /** The cached competition list, when there is one and it is fresh. */
  function CompetitionsHit(st: State, now: int): (r: Option<seq<Competition>>)
    ensures r.Some? <==> st.competities.data.Some? && Fresh(st.competities.timestamp, now)
    ensures r.Some? ==> r == st.competities.data
  {
    if st.competities.data.Some? && Fresh(st.competities.timestamp, now)
    then st.competities.data
    else None
  }

  /** `GET /api/competities` at clock reading `now`; `upstream` is what the
      fetch of the competitions page gives when one is made. */
  function GetCompetities(st: State, now: int, upstream: Fetched<seq<Link>>): (h: Handled<seq<Competition>>)
    ensures h.fetched <==> CompetitionsHit(st, now).None?
    ensures !h.fetched ==> h == Handled(Json(CompetitionsHit(st, now).value), st, false)
    ensures h.reply.ServerError? ==> h.cache == st && h.reply.message == CompetitionsError
    ensures h.cache.standen == st.standen
  {
    match CompetitionsHit(st, now)
    case Some(data) => Handled(Json(data), st, false)
    case None =>
      match upstream
      case NetworkError => Handled(ServerError(CompetitionsError), st, true)
      case Response(status, links) =>
        if !IsOk(status) then Handled(ServerError(CompetitionsError), st, true)
        else
          var competities := ExtractCompetitions(links);
          Handled(Json(competities), st.(competities := CompetitionsSlot(Some(competities), now)), true)
  }

  /** The cached standings of `id`, when present and fresh. */
  function StandingsHit(st: State, id: string, now: int): (r: Option<Standings>)
    ensures r.Some? <==> id in st.standen && Fresh(st.standen[id].timestamp, now)
    ensures r.Some? ==> r.value == st.standen[id].data
  {
    if id in st.standen && Fresh(st.standen[id].timestamp, now)
    then Some(st.standen[id].data)
    else None
  }

  /** `GET /api/standen/:competitieId` for identifier `id` at clock reading
      `now`; `clock` is the later reading that stamps `laatstBijgewerkt`, and
      `upstream` what the fetch of that competition's page gives. */
  function GetStanden(st: State, id: string, now: int, clock: int, upstream: Fetched<StandingsPage>): (h: Handled<Standings>)
    ensures h.fetched <==> StandingsHit(st, id, now).None?
    ensures !h.fetched ==> h == Handled(Json(StandingsHit(st, id, now).value), st, false)
    ensures h.reply.ServerError? ==> h.cache == st && h.reply.message == StandingsError
    ensures h.cache.competities == st.competities
    ensures forall k :: k != id ==> (k in h.cache.standen <==> k in st.standen)
    ensures forall k :: k != id && k in st.standen ==> h.cache.standen[k] == st.standen[k]
  {
    match StandingsHit(st, id, now)
    case Some(data) => Handled(Json(data), st, false)
    case None =>
      match upstream
      case NetworkError => Handled(ServerError(StandingsError), st, true)
      case Response(status, page) =>
        if !IsOk(status) then Handled(ServerError(StandingsError), st, true)
        else
          var result := ExtractStandings(page, clock);
          Handled(Json(result), st.(standen := st.standen[id := Entry(result, now)]), true)
  }

  // ---------------------------------------------------------- properties

  /** The window is half-open: an entry stamped `t` is served up to
      `t + CacheDuration - 1` and not at `t + CacheDuration`. */
  lemma FreshWindow(t: int)
    ensures Fresh(t, t) && Fresh(t, t + CacheDuration - 1)
    ensures !Fresh(t, t + CacheDuration)
  {
  }

  /** The first competitions request after start-up always goes upstream. */
  lemma ColdStartFetches(now: int, upstream: Fetched<seq<Link>>)
    ensures GetCompetities(Initial, now, upstream).fetched
  {
  }

  /** A successful scrape is stored with the request's clock reading, and
      any request within five minutes of it is answered from the cache with
      the same list, whatever the upstream would now give. */
  lemma CompetitiesServedWithinTtl(st: State, now: int, upstream: Fetched<seq<Link>>,
                                   later: int, upstream': Fetched<seq<Link>>)
    requires var h := GetCompetities(st, now, upstream); h.fetched && h.reply.Json?
    requires now <= later < now + CacheDuration
    ensures var h := GetCompetities(st, now, upstream);
            && h.cache.competities == CompetitionsSlot(Some(h.reply.payload), now)
            && GetCompetities(h.cache, later, upstream') == Handled(h.reply, h.cache, false)
  {
  }

  /** Once five minutes have passed the list is fetched again. */
  lemma CompetitiesExpire(st: State, now: int, upstream: Fetched<seq<Link>>,
                          later: int, upstream': Fetched<seq<Link>>)
    requires GetCompetities(st, now, upstream).reply.Json?
    requires GetCompetities(st, now, upstream).fetched
    requires later >= now + CacheDuration
    ensures GetCompetities(GetCompetities(st, now, upstream).cache, later, upstream').fetched
  {
  }

  /** What a successful competitions scrape answers: the list extracted from
      the page's links. */
  lemma CompetitiesScraped(st: State, now: int, status: int, links: seq<Link>)
    requires CompetitionsHit(st, now).None? && IsOk(status)
    ensures GetCompetities(st, now, Response(status, links)).reply == Json(ExtractCompetitions(links))
  {
  }

  /** A failed upstream request answers 500 and a later request tries again. */
  lemma CompetitiesFailureRetries(st: State, now: int, upstream: Fetched<seq<Link>>,
                                  later: int, upstream': Fetched<seq<Link>>)
    requires CompetitionsHit(st, now).None? && now <= later
    requires upstream.NetworkError? || !IsOk(upstream.status)
    ensures GetCompetities(st, now, upstream) == Handled(ServerError(CompetitionsError), st, true)
    ensures GetCompetities(GetCompetities(st, now, upstream).cache, later, upstream').fetched
  {
    StaleStaysStale(st, now, later);
  }

  /** An entry that is not served at `now` is not served later either. */
  lemma StaleStaysStale(st: State, now: int, later: int)
    requires CompetitionsHit(st, now).None? && now <= later
    ensures CompetitionsHit(st, later).None?
  {
  }

  /** A successful standings scrape is stored under its identifier with the
      request's clock reading; a request for the same identifier within five
      minutes gets the same standings, `laatstBijgewerkt` included, without
      going upstream. */
  lemma StandenServedWithinTtl(st: State, id: string, now: int, clock: int, upstream: Fetched<StandingsPage>,
                               later: int, clock': int, upstream': Fetched<StandingsPage>)
    requires var h := GetStanden(st, id, now, clock, upstream); h.fetched && h.reply.Json?
    requires now <= later < now + CacheDuration
    ensures var h := GetStanden(st, id, now, clock, upstream);
            && h.cache.standen[id] == Entry(h.reply.payload, now)
            && GetStanden(h.cache, id, later, clock', upstream') == Handled(h.reply, h.cache, false)
  {
  }

  /** A successful standings scrape answers the page's title, the capture
      time and the extracted players. */
  lemma StandenScraped(st: State, id: string, now: int, clock: int, status: int, page: StandingsPage)
    requires StandingsHit(st, id, now).None? && IsOk(status)
    ensures GetStanden(st, id, now, clock, Response(status, page)).reply
            == Json(Standings(Title(page.headings), clock, ExtractPlayers(page.tables)))
  {
  }

  /** Standings of one identifier do not answer for another: a request for
      `other` is served from the cache after a scrape of `id` exactly when it
      would have been before. */
  lemma StandenKeysIndependent(st: State, id: string, now: int, clock: int, upstream: Fetched<StandingsPage>,
                               other: string, later: int)
    requires other != id
    ensures StandingsHit(GetStanden(st, id, now, clock, upstream).cache, other, later)
            == StandingsHit(st, other, later)
  {
  }

  /** The two endpoints keep separate caches. */
  lemma EndpointsIndependent(st: State, id: string, now: int, clock: int, upstream: Fetched<StandingsPage>,
                             later: int)
    ensures CompetitionsHit(GetStanden(st, id, now, clock, upstream).cache, later)
            == CompetitionsHit(st, later)
  {
  }
}
