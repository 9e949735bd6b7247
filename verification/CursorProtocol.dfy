/** Concurrent search requests over the cursor cache.  Requests and catalog commits interleave
  * freely; every critical section of the cache is one step.  The query itself is a function from
  * a catalog snapshot and search criteria to an ordered list of book ids. */
module CursorProtocol {
  import opened Wrappers
  import opened Runs
  import opened CursorCache

  type Results = (Identity, Criteria) -> seq<BookId>

  datatype Query = Query(criteria: Criteria, offset: nat, limit: nat)

  /** A page handed to a client: the `limit` ids from position `from` on. */
  datatype Page = Page(identity: Identity, criteria: Criteria, from: nat, limit: nat, ids: seq<BookId>,
                       next: Option<Cursor>)

  /** Where a request stands.  `identity` is the one its read transaction sees throughout;
    * `since` is the cache generation the reservation was taken in. */
  datatype Request =
    | First(identity: Identity, query: Query)
    | Holding(identity: Identity, query: Query, token: Token, since: nat)
    | Published(identity: Identity, query: Query, cursor: Cursor)
    | Failing(token: Token)
    | Withdrawing(session: SessionId)
    | Continuing(identity: Identity, criteria: Criteria, cursor: Cursor, limit: nat)

  datatype State = State(cache: Cache, current: Identity, generation: nat, requests: map<nat, Request>,
                         pages: seq<Page>)

  function Total(results: Results, identity: Identity, q: Query): nat { |results(identity, q.criteria)| }

  function PageStart(total: nat, q: Query): (r: nat)
    ensures r <= total
  {
    Min(q.offset, total)
  }

  function PageEnd(total: nat, q: Query): (r: nat)
    ensures PageStart(total, q) <= r <= total
  {
    PageStart(total, q) + Min(q.limit, total - PageStart(total, q))
  }

  function FirstPage(results: Results, identity: Identity, q: Query, next: Option<Cursor>): Page {
    var total := Total(results, identity, q);
    Page(identity, q.criteria, PageStart(total, q), q.limit, results(identity, q.criteria)[PageStart(total, q)..PageEnd(total, q)], next)
  }

  // ---------------------------------------------------------------- steps

  datatype Event =
    | Commits(identity: Identity)
    | Asks(i: nat, query: Query)
    | AsksMore(i: nat, criteria: Criteria, cursor: Cursor, limit: nat)
    | AnswersWhole(i: nat)
    | Reserving(i: nat, now: int, cache: Cache, granted: Result<Token, Error>)
    | Publishing(i: nat, now: int, sid: SessionId, cache: Cache, published: Result<Cursor, Error>)
    | Confirming(i: nat)
    | Withdraws(i: nat)
    | Fails(i: nat)
    | Releases(i: nat)
    | Continues(i: nat, now: int)

  function At(s: State, i: nat): Option<Request> {
    if i in s.requests then Some(s.requests[i]) else None
  }

  function Goto(s: State, i: nat, r: Request): State { s.(requests := s.requests[i := r]) }

  function Done(s: State, i: nat): State { s.(requests := s.requests - {i}) }

  function Answered(s: State, i: nat, p: Page): State { Done(s, i).(pages := s.pages + [p]) }

  /** Installs a new cache value and notes whether the generation was switched. */
  function WithCache(s: State, c: Cache): State {
    s.(cache := c, generation := if c.key == s.cache.key then s.generation else s.generation + 1)
  }

  function NewSession(results: Results, identity: Identity, q: Query, now: int): Session {
    Session(results(identity, q.criteria), q.criteria, identity, PageEnd(Total(results, identity, q), q), now)
  }

  function AfterReserving(s: State, i: nat, cache: Cache, token: Result<Token, Error>, identity: Identity,
                          q: Query): State {
    var t := WithCache(s, cache);
    if token.Ok? then Goto(t, i, Holding(identity, q, token.value, t.generation)) else Done(t, i)
  }

  function AfterPublishing(s: State, i: nat, cache: Cache, cursor: Result<Cursor, Error>, identity: Identity, q: Query,
                           token: Token): State {
    var t := WithCache(s, cache);
    if cursor.Ok? then Goto(t, i, Published(identity, q, cursor.value)) else Goto(t, i, Failing(token))
  }

  function AfterConfirming(results: Results, s: State, i: nat, identity: Identity, q: Query, cursor: Cursor): State {
    if s.current == identity then Answered(s, i, FirstPage(results, identity, q, Some(cursor)))
    else Goto(s, i, Withdrawing(cursor.session))
  }

  function AfterContinuing(s: State, i: nat, now: int, identity: Identity, criteria: Criteria, cursor: Cursor,
                           limit: nat): State {
    var read := ReadSlice(s.cache, cursor, limit, criteria, identity, now);
    var t := WithCache(s, read.0);
    if read.1.Ok? then Answered(t, i, Page(identity, criteria, cursor.position, limit, read.1.value.ids, read.1.value.next))
    else Done(t, i)
  }

  /** An exception: what was reserved is still to be released, what was published to be withdrawn. */
  function AfterFailing(s: State, i: nat, r: Request): State {
    if r.Holding? then Goto(s, i, Failing(r.token))
    else if r.Published? then Goto(s, i, Withdrawing(r.cursor.session))
    else Done(s, i)
  }

  ghost predicate Step(results: Results, s: State, e: Event, s': State) {
    match e
    case Commits(identity) => s' == s.(current := identity)
    case Asks(i, q) => At(s, i) == None && s' == Goto(s, i, First(s.current, q))
    case AsksMore(i, criteria, cursor, limit) => At(s, i) == None && s' == Goto(s, i, Continuing(s.current, criteria, cursor, limit))
    case AnswersWhole(i) =>
      match At(s, i) {
        case Some(First(identity, q)) =>
          PageEnd(Total(results, identity, q), q) >= Total(results, identity, q) && s' == Answered(s, i, FirstPage(results, identity, q, None))
        case _ => false
      }
    case Reserving(i, now, cache, token) =>
      match At(s, i) {
        case Some(First(identity, q)) =>
          && PageEnd(Total(results, identity, q), q) < Total(results, identity, q)
          && Reserves(s.cache, s.current, identity, Total(results, identity, q), now, cache, token)
          && s' == AfterReserving(s, i, cache, token, identity, q)
        case _ => false
      }
    case Publishing(i, now, sid, cache, cursor) =>
      match At(s, i) {
        case Some(Holding(identity, q, token, _)) =>
          && Publishes(s.cache, s.current, NewSession(results, identity, q, now), token, sid, cache, cursor)
          && s' == AfterPublishing(s, i, cache, cursor, identity, q, token)
        case _ => false
      }
    case Confirming(i) =>
      match At(s, i) {
        case Some(Published(identity, q, cursor)) => s' == AfterConfirming(results, s, i, identity, q, cursor)
        case _ => false
      }
    case Withdraws(i) =>
      match At(s, i) {
        case Some(Withdrawing(session)) => s' == Done(WithCache(s, Removed(s.cache, session)), i)
        case _ => false
      }
    case Fails(i) =>
      match At(s, i) {
        case Some(r) => (r.First? || r.Holding? || r.Published? || r.Continuing?) && s' == AfterFailing(s, i, r)
        case None => false
      }
    case Releases(i) =>
      match At(s, i) {
        case Some(Failing(token)) => s' == Done(WithCache(s, Released(s.cache, token)), i)
        case _ => false
      }
    case Continues(i, now) =>
      match At(s, i) {
        case Some(Continuing(identity, criteria, cursor, limit)) => s' == AfterContinuing(s, i, now, identity, criteria, cursor, limit)
        case _ => false
      }
  }

  // ---------------------------------------------------------------- the invariant

  ghost predicate SessionsRight(results: Results, c: Cache) {
    forall sid :: sid in c.sessions ==> c.sessions[sid].ids == results(c.sessions[sid].identity, c.sessions[sid].criteria)
  }

  /** What a request holds was made for its own query. */
  ghost predicate RequestRight(results: Results, r: Request) {
    match r
    case Holding(identity, q, t, since) =>
      && t.key == GenerationKey(identity) && t.count == Total(results, identity, q) && PageEnd(t.count, q) < t.count
    case Published(identity, q, cursor) =>
      var end := PageEnd(Total(results, identity, q), q);
      cursor.identity == identity && cursor.position == end && end < Total(results, identity, q)
    case _ => true
  }

  ghost predicate Issued(c: Cache, t: Token) { t.id < c.nextId && TokenHeld(c, t) }

  /** What a request holds is what the cache granted it, and while the generation lasts it is there. */
  ghost predicate TokenRight(c: Cache, generation: nat, r: Request) {
    match r
    case Holding(_, _, t, since) =>
      Issued(c, t) && since <= generation && (since == generation ==> t.id in c.reservations)
    case Failing(t) => Issued(c, t)
    case _ => true
  }

  /** The ids of one snapshot's ordered result, no more than asked for, and a cursor to the rest
    * exactly when there is a rest. */
  ghost predicate PageRight(results: Results, p: Page) {
    var all := results(p.identity, p.criteria);
    && p.from <= |all| && p.ids == all[p.from..p.from + Min(p.limit, |all| - p.from)]
    && (p.next.Some? <==> p.from + |p.ids| < |all|)
    && (p.next.Some? ==> p.next.value.identity == p.identity && p.next.value.position == p.from + |p.ids|)
  }

  predicate HasToken(r: Request) { r.Holding? || r.Failing? }

  ghost predicate TokensDistinct(requests: map<nat, Request>) {
    forall i, j :: i in requests && j in requests && i != j && HasToken(requests[i]) && HasToken(requests[j])
      ==> requests[i].token.id != requests[j].token.id
  }

  ghost predicate RequestsRight(results: Results, s: State) {
    forall i :: i in s.requests ==> RequestRight(results, s.requests[i])
  }

  /** Tokens are right and distinct. */
  ghost predicate TokensRight(s: State) {
    TokensDistinct(s.requests) && forall i :: i in s.requests ==> TokenRight(s.cache, s.generation, s.requests[i])
  }

  ghost predicate PagesRight(results: Results, pages: seq<Page>) {
    forall p :: p in pages ==> PageRight(results, p)
  }

  /** Tokens are right until the 64-bit reservation counter starts over; everything else always. */
  ghost predicate Inv(results: Results, s: State) {
    && CacheInv(s.cache) && SessionsRight(results, s.cache)
    && RequestsRight(results, s) && PagesRight(results, s.pages)
    && (!s.cache.wrapped ==> TokensRight(s))
  }

  ghost predicate Initial(s: State) {
    && s.cache.sessions == map[] && s.cache.reservations == map[] && s.cache.nextId == 1 && !s.cache.wrapped
    && s.cache.capacity <= SIZE_MAX / BOOK_ID_ALLOWANCE && s.requests == map[] && s.pages == []
  }

  lemma InitialInv(results: Results, s: State)
    requires Initial(s)
    ensures Inv(results, s)
  {
  }

  // ---------------------------------------------------------------- who hands out pages

  /** A page is handed out at once if it ends the result, for a published session only if the catalog is
    * still the one that was read, or for a cursor whose session could be read.  A session whose catalog has
    * changed is withdrawn instead. */
  lemma PagesComeFrom(results: Results, s: State, e: Event, s': State)
    requires Step(results, s, e, s')
    ensures s'.pages != s.pages ==>
      s'.pages[..|s'.pages| - 1] == s.pages && (e.AnswersWhole? || e.Confirming? || e.Continues?)
    ensures e.Confirming? ==> e.i in s.requests && s.requests[e.i].Published?
    ensures e.Confirming? && s'.pages != s.pages ==> s.requests[e.i].identity == s.current && e.i !in s'.requests
    ensures e.Confirming? && s'.pages == s.pages ==>
      s.requests[e.i].identity != s.current && s'.requests[e.i] == Withdrawing(s.requests[e.i].cursor.session)
    ensures e.Withdraws? ==>
      e.i in s.requests && s.requests[e.i].Withdrawing? && s.requests[e.i].session !in s'.cache.sessions
  {
  }

  /** A request holds what was reserved for it until it has published it or given it back, and what it has
    * published until the page is out or the session withdrawn; no step touches another's request. */
  lemma HowRequestsProceed(results: Results, s: State, e: Event, s': State)
    requires Step(results, s, e, s')
    ensures !e.Commits? ==> forall j :: j != e.i ==> At(s', j) == At(s, j)
    ensures e.Commits? ==> s'.requests == s.requests && s'.current == e.identity
    ensures e.Reserving? ==>
      && e.i in s.requests && s.requests[e.i].First?
      && At(s', e.i) == if e.granted.Err? then None
                        else Some(Holding(s.requests[e.i].identity, s.requests[e.i].query, e.granted.value, s'.generation))
    ensures e.Publishing? ==>
      && e.i in s.requests && s.requests[e.i].Holding?
      && At(s', e.i) == if e.published.Err? then Some(Failing(s.requests[e.i].token))
                        else Some(Published(s.requests[e.i].identity, s.requests[e.i].query, e.published.value))
    ensures e.Fails? ==>
      && e.i in s.requests
      && (s.requests[e.i].Holding? ==> At(s', e.i) == Some(Failing(s.requests[e.i].token)))
      && (s.requests[e.i].Published? ==> At(s', e.i) == Some(Withdrawing(s.requests[e.i].cursor.session)))
    ensures e.Releases? ==>
      && e.i in s.requests && s.requests[e.i].Failing? && At(s', e.i) == None
      && s.requests[e.i].token.id !in s'.cache.reservations
    ensures e.AnswersWhole? || e.Continues? || e.Withdraws? ==> e.i in s.requests && At(s', e.i) == None
    ensures s'.generation == s.generation <==> s'.cache.key == s.cache.key
  {
  }

  /** Nothing holds a request up: it can be asked, and its next step is open whatever the state, with
    * whatever the cache answers. */
  lemma RequestsCanProceed(results: Results, s: State, i: nat, q: Query, criteria: Criteria, cursor: Cursor,
                           limit: nat, now: int)
    ensures i !in s.requests ==>
      && Step(results, s, Asks(i, q), s.(requests := s.requests[i := First(s.current, q)]))
      && Step(results, s, AsksMore(i, criteria, cursor, limit),
              s.(requests := s.requests[i := Continuing(s.current, criteria, cursor, limit)]))
    ensures i in s.requests ==>
      match s.requests[i]
      case First(identity, query) =>
        && (PageStart(Total(results, identity, query), query) + query.limit >= Total(results, identity, query) ==>
              exists s' :: Step(results, s, AnswersWhole(i), s'))
        && (PageStart(Total(results, identity, query), query) + query.limit < Total(results, identity, query) ==>
              forall c, r ::
                Reserves(s.cache, s.current, identity, Total(results, identity, query), now, c, r) ==>
                exists s' :: Step(results, s, Reserving(i, now, c, r), s'))
      case Holding(identity, query, token, _) =>
        forall sid, c, r ::
          Publishes(s.cache, s.current, NewSession(results, identity, query, now), token, sid, c, r) ==>
          exists s' :: Step(results, s, Publishing(i, now, sid, c, r), s')
      case Published(_, _, _) => exists s' :: Step(results, s, Confirming(i), s')
      case Failing(_) => exists s' :: Step(results, s, Releases(i), s')
      case Withdrawing(_) => exists s' :: Step(results, s, Withdraws(i), s')
      case Continuing(_, _, _, _) => exists s' :: Step(results, s, Continues(i, now), s')
  {
    if i !in s.requests { return; }
    match s.requests[i]
    case First(identity, query) =>
      var n := Total(results, identity, query);
      if PageStart(n, query) + query.limit >= n {
        assert Step(results, s, AnswersWhole(i), Answered(s, i, FirstPage(results, identity, query, None)));
      } else {
        forall c, r | Reserves(s.cache, s.current, identity, n, now, c, r)
          ensures exists s' :: Step(results, s, Reserving(i, now, c, r), s')
        {
          assert Step(results, s, Reserving(i, now, c, r), AfterReserving(s, i, c, r, identity, query));
        }
      }
    case Holding(identity, query, token, _) =>
      forall sid, c, r | Publishes(s.cache, s.current, NewSession(results, identity, query, now), token, sid, c, r)
        ensures exists s' :: Step(results, s, Publishing(i, now, sid, c, r), s')
      {
        assert Step(results, s, Publishing(i, now, sid, c, r), AfterPublishing(s, i, c, r, identity, query, token));
      }
    case Published(identity, query, published) =>
      assert Step(results, s, Confirming(i), AfterConfirming(results, s, i, identity, query, published));
    case Failing(token) =>
      assert Step(results, s, Releases(i), Done(WithCache(s, Released(s.cache, token)), i));
    case Withdrawing(session) =>
      assert Step(results, s, Withdraws(i), Done(WithCache(s, Removed(s.cache, session)), i));
    case Continuing(identity, wanted, from, size) =>
      assert Step(results, s, Continues(i, now), AfterContinuing(s, i, now, identity, wanted, from, size));
  }

  // ---------------------------------------------------------------- how the cache evolves

  /** The new cache holds no reservation the old one did not issue, and, while the generation
    * stays, loses none but `spent`. */
  ghost predicate Evolves(c: Cache, c': Cache, spent: nat) {
    && !c.wrapped && c.nextId <= c'.nextId
    && (forall r :: r in c'.reservations && r < c.nextId ==>
          r in c.reservations && c'.reservations[r] == c.reservations[r])
    && (c'.key == c.key ==> forall r :: r in c.reservations && r != spent ==> r in c'.reservations)
  }

  lemma ReservesEvolves(c: Cache, current: Identity, identity: Identity, count: nat, now: int, c': Cache,
                        r: Result<Token, Error>)
    requires Reserves(c, current, identity, count, now, c', r)
    ensures c.wrapped ==> c'.wrapped
    ensures r.Ok? ==> r.value == Token(r.value.id, GenerationKey(identity), count)
    ensures r.Ok? ==> r.value.id in c'.reservations && c'.reservations[r.value.id] == Reservation(r.value.key, count)
    ensures !c'.wrapped ==> Evolves(c, c', 0) && (r.Ok? ==> c.nextId <= r.value.id < c'.nextId)
  {
  }

  lemma PublishesEvolves(c: Cache, current: Identity, s: Session, t: Token, sid: SessionId, c': Cache,
                         r: Result<Cursor, Error>)
    requires Publishes(c, current, s, t, sid, c', r)
    ensures c'.wrapped == c.wrapped && (!c.wrapped ==> Evolves(c, c', t.id))
    ensures r.Ok? ==> r.value == Cursor(sid, s.identity, s.first)
  {
  }

  lemma ReservesSessions(results: Results, c: Cache, current: Identity, identity: Identity, count: nat, now: int,
                         c': Cache, r: Result<Token, Error>)
    requires SessionsRight(results, c) && Reserves(c, current, identity, count, now, c', r)
    ensures SessionsRight(results, c')
  {
    var f := Refreshed(c, now, GenerationKey(identity));
    if c' != c && c' != f {
      var kept :| ReservesKeeping(f, count, kept, c', r);
      KeptByReserving(results, f, count, kept, c', r);
    }
  }

  lemma KeptByReserving(results: Results, f: Cache, count: nat, kept: map<SessionId, Session>, c': Cache,
                        r: Result<Token, Error>)
    requires SessionsRight(results, f) && ReservesKeeping(f, count, kept, c', r)
    ensures SessionsRight(results, c')
  {
    EvictionKeeps(f.sessions, kept, Reserved(f) + count, f.capacity);
  }

  lemma PublishesSessions(results: Results, c: Cache, current: Identity, s: Session, t: Token, sid: SessionId,
                          c': Cache, r: Result<Cursor, Error>)
    requires SessionsRight(results, c) && s.ids == results(s.identity, s.criteria)
      && Publishes(c, current, s, t, sid, c', r)
    ensures SessionsRight(results, c')
  {
    var f := Refreshed(c, s.lastAccess, GenerationKey(s.identity));
    if c' != c && c' != f {
      var kept :| PublishesKeeping(f, s, t, sid, kept, c', r);
      KeptSessions(results, f, s, t, sid, kept, c', r);
    }
  }

  lemma KeptSessions(results: Results, f: Cache, s: Session, t: Token, sid: SessionId, kept: map<SessionId, Session>,
                     c': Cache, r: Result<Cursor, Error>)
    requires SessionsRight(results, f) && s.ids == results(s.identity, s.criteria)
      && PublishesKeeping(f, s, t, sid, kept, c', r)
    ensures SessionsRight(results, c')
  {
    EvictionKeeps(f.sessions, kept, Reserved(f), f.capacity);
  }

  /** The other requests do not notice. */
  lemma OthersStayRight(s: State, c: Cache, i: nat, spent: nat)
    requires TokensRight(s) && Evolves(s.cache, c, spent)
    requires spent != 0 ==> i in s.requests && HasToken(s.requests[i]) && s.requests[i].token.id == spent
    requires forall r :: r in s.cache.reservations ==> r > 0
    ensures TokensRight(Done(WithCache(s, c), i))
  {
    forall j | j in s.requests && j != i ensures TokenRight(c, WithCache(s, c).generation, s.requests[j]) {
      assert TokenRight(s.cache, s.generation, s.requests[j]);
    }
  }

  /** No other request holds the token. */
  ghost predicate OnlyAt(requests: map<nat, Request>, i: nat, t: Token) {
    forall j :: j in requests && j != i && HasToken(requests[j]) ==> requests[j].token.id != t.id
  }

  lemma GotoTokens(s: State, i: nat, r: Request)
    requires TokensRight(Done(s, i)) && TokenRight(s.cache, s.generation, r)
    requires HasToken(r) ==> OnlyAt(s.requests, i, r.token)
    ensures TokensRight(Goto(s, i, r))
  {
    var more := Goto(s, i, r).requests;
    forall j | j in more ensures TokenRight(s.cache, s.generation, more[j]) {
      if j != i { assert j in Done(s, i).requests; }
    }
    forall j, k | j in more && k in more && j != k && HasToken(more[j]) && HasToken(more[k])
      ensures more[j].token.id != more[k].token.id
    {
      if j != i && k != i { assert j in Done(s, i).requests && k in Done(s, i).requests; }
    }
  }

  lemma GotoRight(results: Results, s: State, i: nat, r: Request)
    requires RequestsRight(results, Done(s, i)) && RequestRight(results, r)
    ensures RequestsRight(results, Goto(s, i, r))
  {
    forall j | j in Goto(s, i, r).requests ensures RequestRight(results, Goto(s, i, r).requests[j]) {
      if j != i { assert j in Done(s, i).requests; }
    }
  }

  // ---------------------------------------------------------------- every step keeps the invariant

  lemma ReservingKeepsInv(results: Results, s: State, i: nat, now: int, cache: Cache, token: Result<Token, Error>,
                          s': State)
    requires Inv(results, s) && Step(results, s, Reserving(i, now, cache, token), s')
    ensures Inv(results, s')
  {
    var First(identity, q) := s.requests[i];
    var total := Total(results, identity, q);
    ReservesInv(s.cache, s.current, identity, total, now, cache, token);
    ReservesEvolves(s.cache, s.current, identity, total, now, cache, token);
    ReservesSessions(results, s.cache, s.current, identity, total, now, cache, token);
    if token.Ok? {
      GotoRight(results, WithCache(s, cache), i, Holding(identity, q, token.value, WithCache(s, cache).generation));
    }
    if !cache.wrapped { ReservedTokens(s, i, cache, token, identity, q); }
  }

  lemma ReservedTokens(s: State, i: nat, cache: Cache, token: Result<Token, Error>, identity: Identity, q: Query)
    requires TokensRight(s) && CacheInv(s.cache) && Evolves(s.cache, cache, 0) && i in s.requests
      && s.requests[i].First?
    requires token.Ok? ==> s.cache.nextId <= token.value.id < cache.nextId && token.value.id in cache.reservations
    requires token.Ok? ==> cache.reservations[token.value.id] == Reservation(token.value.key, token.value.count)
    ensures TokensRight(AfterReserving(s, i, cache, token, identity, q))
  {
    Positive(s.cache);
    OthersStayRight(s, cache, i, 0);
    if token.Ok? {
      var t := WithCache(s, cache);
      forall j | j in t.requests && j != i && HasToken(t.requests[j]) ensures t.requests[j].token.id != token.value.id {
        assert TokenRight(s.cache, s.generation, s.requests[j]);
      }
      GotoTokens(t, i, Holding(identity, q, token.value, t.generation));
    }
  }

  lemma Positive(c: Cache)
    requires CacheInv(c)
    ensures forall r :: r in c.reservations ==> r > 0
  {
    forall r | r in c.reservations ensures r > 0 { assert ReservationFits(c, r); }
  }

  lemma PublishingKeepsInv(results: Results, s: State, i: nat, now: int, sid: SessionId, cache: Cache,
                           cursor: Result<Cursor, Error>, s': State)
    requires Inv(results, s) && Step(results, s, Publishing(i, now, sid, cache, cursor), s')
    ensures Inv(results, s')
  {
    var Holding(identity, q, token, since) := s.requests[i];
    var session := NewSession(results, identity, q, now);
    assert RequestRight(results, s.requests[i]);
    PublishesInv(s.cache, s.current, session, token, sid, cache, cursor);
    PublishesEvolves(s.cache, s.current, session, token, sid, cache, cursor);
    PublishesSessions(results, s.cache, s.current, session, token, sid, cache, cursor);
    GotoRight(results, WithCache(s, cache), i,
              if cursor.Ok? then Published(identity, q, cursor.value) else Failing(token));
    if !cache.wrapped { PublishedTokens(s, i, cache, cursor, identity, q, token); }
  }

  lemma PublishedTokens(s: State, i: nat, cache: Cache, cursor: Result<Cursor, Error>, identity: Identity, q: Query,
                        token: Token)
    requires TokensRight(s) && CacheInv(s.cache) && Evolves(s.cache, cache, token.id)
    requires i in s.requests && s.requests[i].Holding? && s.requests[i].token == token
    ensures TokensRight(AfterPublishing(s, i, cache, cursor, identity, q, token))
  {
    Positive(s.cache);
    OthersStayRight(s, cache, i, token.id);
    assert TokenRight(s.cache, s.generation, s.requests[i]);
    var t := WithCache(s, cache);
    GotoTokens(t, i, if cursor.Ok? then Published(identity, q, cursor.value) else Failing(token));
  }

  lemma AnswerKeepsInv(results: Results, s: State, i: nat, p: Page)
    requires Inv(results, s) && PageRight(results, p)
    ensures Inv(results, Answered(s, i, p))
  {
  }

  lemma ConfirmingKeepsInv(results: Results, s: State, i: nat, s': State)
    requires Inv(results, s) && Step(results, s, Confirming(i), s')
    ensures Inv(results, s')
  {
    var Published(identity, q, cursor) := s.requests[i];
    assert RequestRight(results, s.requests[i]);
    if s.current == identity {
      AnswerKeepsInv(results, s, i, FirstPage(results, identity, q, Some(cursor)));
    } else {
      GotoRight(results, s, i, Withdrawing(cursor.session));
      if !s.cache.wrapped { GotoTokens(s, i, Withdrawing(cursor.session)); }
    }
  }

  lemma ReleasesKeepsInv(results: Results, s: State, i: nat, s': State)
    requires Inv(results, s) && Step(results, s, Releases(i), s')
    ensures Inv(results, s')
  {
    var Failing(token) := s.requests[i];
    ReleasedInv(s.cache, token);
    Positive(s.cache);
    if !s.cache.wrapped { OthersStayRight(s, Released(s.cache, token), i, token.id); }
  }

  lemma WithdrawsKeepsInv(results: Results, s: State, i: nat, s': State)
    requires Inv(results, s) && Step(results, s, Withdraws(i), s')
    ensures Inv(results, s')
  {
    var Withdrawing(session) := s.requests[i];
    RemovedInv(s.cache, session);
    Positive(s.cache);
    if !s.cache.wrapped { OthersStayRight(s, Removed(s.cache, session), i, 0); }
  }

  /** A continuation that succeeds returns a slice of the result its own transaction would compute. */
  lemma SliceIsRight(results: Results, c: Cache, q: Cursor, limit: nat, criteria: Criteria, identity: Identity,
                     now: int)
    requires SessionsRight(results, c)
    ensures var read := ReadSlice(c, q, limit, criteria, identity, now);
      && SessionsRight(results, read.0) && read.0.wrapped == c.wrapped && (!c.wrapped ==> Evolves(c, read.0, 0))
      && (read.1.Ok? ==> PageRight(results, Page(identity, criteria, q.position, limit, read.1.value.ids,
                                                 read.1.value.next)))
  {
  }

  lemma ContinuesKeepsInv(results: Results, s: State, i: nat, now: int, s': State)
    requires Inv(results, s) && Step(results, s, Continues(i, now), s')
    ensures Inv(results, s')
  {
    var Continuing(identity, criteria, cursor, limit) := s.requests[i];
    var read := ReadSlice(s.cache, cursor, limit, criteria, identity, now);
    ReadSliceInv(s.cache, cursor, limit, criteria, identity, now);
    SliceIsRight(results, s.cache, cursor, limit, criteria, identity, now);
    LeavesRight(results, s, read.0, i);
    if read.1.Ok? {
      var page := Page(identity, criteria, cursor.position, limit, read.1.value.ids, read.1.value.next);
      EndsRight(results, WithCache(s, read.0), i, page);
    }
  }

  /** The last thing a request does is to hand out a page. */
  lemma EndsRight(results: Results, s: State, i: nat, p: Page)
    requires Inv(results, Done(s, i)) && PageRight(results, p)
    ensures Inv(results, Answered(s, i, p))
  {
  }

  /** A request ends with the cache changed, holding no token. */
  lemma LeavesRight(results: Results, s: State, c: Cache, i: nat)
    requires Inv(results, s) && CacheInv(c) && SessionsRight(results, c) && c.wrapped == s.cache.wrapped
    requires !c.wrapped ==> Evolves(s.cache, c, 0)
    ensures Inv(results, Done(WithCache(s, c), i))
  {
    Positive(s.cache);
    if !c.wrapped { OthersStayRight(s, c, i, 0); }
  }

  lemma RequestStepKeepsInv(results: Results, s: State, e: Event, s': State)
    requires Inv(results, s) && Step(results, s, e, s')
      && (e.Asks? || e.AsksMore? || e.Fails? || e.AnswersWhole? || e.Commits?)
    ensures Inv(results, s')
  {
    match e
    case Commits(_) =>
    case Asks(i, q) => MovesOn(results, s, i, First(s.current, q));
    case AsksMore(i, criteria, cursor, limit) => MovesOn(results, s, i, Continuing(s.current, criteria, cursor, limit));
    case AnswersWhole(i) =>
      AnswerKeepsInv(results, s, i, FirstPage(results, s.requests[i].identity, s.requests[i].query, None));
    case Fails(i) =>
      var r := s.requests[i];
      assert RequestRight(results, r);
      assert !s.cache.wrapped ==> TokenRight(s.cache, s.generation, r);
      if r.Holding? { MovesOn(results, s, i, Failing(r.token)); }
      if r.Published? { MovesOn(results, s, i, Withdrawing(r.cursor.session)); }
  }

  /** A request moves on with the token it had, or with none. */
  lemma MovesOn(results: Results, s: State, i: nat, r: Request)
    requires Inv(results, s) && RequestRight(results, r)
    requires HasToken(r) ==> i in s.requests && HasToken(s.requests[i]) && s.requests[i].token == r.token
    requires !s.cache.wrapped ==> TokenRight(s.cache, s.generation, r)
    ensures Inv(results, Goto(s, i, r))
  {
    GotoRight(results, s, i, r);
    if !s.cache.wrapped { GotoTokens(s, i, r); }
  }

  lemma StepKeepsInv(results: Results, s: State, e: Event, s': State)
    requires Inv(results, s) && Step(results, s, e, s')
    ensures Inv(results, s')
  {
    match e
    case Reserving(i, now, cache, token) => ReservingKeepsInv(results, s, i, now, cache, token, s');
    case Publishing(i, now, sid, cache, cursor) => PublishingKeepsInv(results, s, i, now, sid, cache, cursor, s');
    case Confirming(i) => ConfirmingKeepsInv(results, s, i, s');
    case Withdraws(i) => WithdrawsKeepsInv(results, s, i, s');
    case Releases(i) => ReleasesKeepsInv(results, s, i, s');
    case Continues(i, now) => ContinuesKeepsInv(results, s, i, now, s');
    case _ => RequestStepKeepsInv(results, s, e, s');
  }

  // ---------------------------------------------------------------- whole runs

  ghost predicate IsRun(results: Results, states: seq<State>, events: seq<Event>) {
    IsRunOf((s: State, e: Event, s': State) => Step(results, s, e, s'), states, events) && Initial(states[0])
  }

  lemma RunKeepsInv(results: Results, states: seq<State>, events: seq<Event>, n: nat)
    requires IsRun(results, states, events) && n < |states|
    ensures Inv(results, states[n])
  {
    InitialInv(results, states[0]);
    forall s, e, s' | Inv(results, s) && Step(results, s, e, s') ensures Inv(results, s') {
      StepKeepsInv(results, s, e, s');
    }
    Invariant((s: State, e: Event, s': State) => Step(results, s, e, s'), (s: State) => Inv(results, s), states, events,
              n);
  }

  /** Under every interleaving: the cache invariant holds, and every page handed out is a slice of
    * one snapshot's result, the snapshot of the transaction that read it; and until the reservation
    * counter starts over, whoever still has a token to publish or release has one the cache issued,
    * so the accounting checks never terminate the process. */
  lemma EveryRunIsSafe(results: Results, states: seq<State>, events: seq<Event>, n: nat)
    requires IsRun(results, states, events) && n < |states|
    ensures CacheInv(states[n].cache)
    ensures !states[n].cache.wrapped ==> TokensHeld(states[n])
    ensures forall p :: p in states[n].pages ==> PageRight(results, p)
  {
    RunKeepsInv(results, states, events, n);
    if !states[n].cache.wrapped { RightAreHeld(states[n]); }
  }

  /** At most one reservation was granted. */
  ghost predicate Counts(c: Cache, c': Cache) {
    || (c'.nextId == c.nextId && c'.wrapped == c.wrapped)
    || (c'.nextId == IdAfter(c.nextId) && c'.wrapped == (c.wrapped || c.nextId == ID_MAX))
  }

  lemma StepCounts(results: Results, s: State, e: Event, s': State)
    requires Step(results, s, e, s')
    ensures Counts(s.cache, s'.cache)
  {
    match e
    case Reserving(i, now, cache, token) =>
      var First(identity, q) := s.requests[i];
      ReservesCounts(s.cache, s.current, identity, Total(results, identity, q), now, cache, token);
    case Publishing(i, now, sid, cache, cursor) =>
      var Holding(identity, q, token, since) := s.requests[i];
      PublishesCounts(s.cache, s.current, NewSession(results, identity, q, now), token, sid, cache, cursor);
    case _ =>
  }

  lemma ReservesCounts(c: Cache, current: Identity, identity: Identity, count: nat, now: int, c': Cache,
                       r: Result<Token, Error>)
    requires Reserves(c, current, identity, count, now, c', r)
    ensures Counts(c, c')
  {
  }

  lemma PublishesCounts(c: Cache, current: Identity, s: Session, t: Token, sid: SessionId, c': Cache,
                        r: Result<Cursor, Error>)
    requires Publishes(c, current, s, t, sid, c', r)
    ensures Counts(c, c')
  {
  }

  /** The counter starts over only after 2^64 - 1 reservations. */
  lemma {:induction false} WrapsLate(results: Results, states: seq<State>, events: seq<Event>, n: nat)
    requires IsRun(results, states, events) && n < |states|
    ensures if states[n].cache.wrapped then n >= 0xFFFF_FFFF_FFFF_FFFF else states[n].cache.nextId <= n + 1
  {
    if n > 0 {
      var k: nat := n - 1;
      WrapsLate(results, states, events, k);
      assert Step(results, states[k], events[k], states[k + 1]);
      StepCounts(results, states[k], events[k], states[k + 1]);
    }
  }

  ghost predicate TokensHeld(s: State) {
    forall i :: i in s.requests && HasToken(s.requests[i]) ==> TokenHeld(s.cache, s.requests[i].token)
  }

  lemma RightAreHeld(s: State)
    requires TokensRight(s)
    ensures TokensHeld(s)
  {
    forall i | i in s.requests && HasToken(s.requests[i]) ensures TokenHeld(s.cache, s.requests[i].token) {
      assert TokenRight(s.cache, s.generation, s.requests[i]);
    }
  }

  /** Until the reservation counter starts over, a materialised result is always published, unless the
    * catalog or the cache generation moved on since its ids were reserved or a random session id is
    * already taken. */
  lemma PublishingSucceeds(results: Results, states: seq<State>, events: seq<Event>, n: nat)
    requires IsRun(results, states, events) && n < |events| && events[n].Publishing?
    requires events[n].i in states[n].requests && !states[n].cache.wrapped
    requires var r := states[n].requests[events[n].i];
      r.Holding? && r.since == states[n].generation && r.identity == states[n].current
    ensures events[n].published.Ok? || events[n].published == Err(SessionIdCollision)
  {
    RunKeepsInv(results, states, events, n);
    assert Step(results, states[n], events[n], states[n + 1]);
    PublishingMeets(results, states[n], events[n], states[n + 1]);
  }

  lemma PublishingMeets(results: Results, s: State, e: Event, s': State)
    requires Inv(results, s) && !s.cache.wrapped && e.Publishing? && Step(results, s, e, s')
    requires var r := s.requests[e.i]; r.Holding? && r.since == s.generation && r.identity == s.current
    ensures e.published.Ok? || e.published == Err(SessionIdCollision)
  {
    var Holding(identity, q, t, since) := s.requests[e.i];
    assert RequestRight(results, s.requests[e.i]) && TokenRight(s.cache, s.generation, s.requests[e.i]);
    assert ReservationFits(s.cache, t.id);
    assert t.id in Refreshed(s.cache, e.now, GenerationKey(identity)).reservations;
    ReservationIsAPromise(s.cache, NewSession(results, identity, q, e.now), t, e.sid, e.cache, e.published);
  }

  // ---------------------------------------------------------------- pagination

  /** The second page was asked for with the cursor of the first, for the same criteria and a
    * positive number of ids. */
  ghost predicate Follows(p: Page, q: Page) {
    && p.next.Some? && q.identity == p.next.value.identity && q.from == p.next.value.position
    && q.criteria == p.criteria && q.limit > 0
  }

  ghost predicate Chained(pages: seq<Page>) {
    |pages| > 1 ==> Chained(pages[..|pages| - 1]) && Follows(pages[|pages| - 2], pages[|pages| - 1])
  }

  function Concatenated(pages: seq<Page>): seq<BookId> {
    if pages == [] then [] else Concatenated(pages[..|pages| - 1]) + pages[|pages| - 1].ids
  }

  /** `ids` is the stretch of the first page's result from its start to the end of the last page. */
  ghost predicate OneStretch(results: Results, first: Page, last: Page, ids: seq<BookId>) {
    var all := results(first.identity, first.criteria);
    && last.identity == first.identity && last.criteria == first.criteria
    && first.from + |ids| == last.from + |last.ids| <= |all|
    && ids == all[first.from..last.from + |last.ids|]
    && (last.next == None <==> last.from + |last.ids| == |all|)
  }

  lemma StretchExtends(results: Results, first: Page, last: Page, ids: seq<BookId>, p: Page)
    requires OneStretch(results, first, last, ids) && PageRight(results, last) && PageRight(results, p)
      && Follows(last, p)
    ensures OneStretch(results, first, p, ids + p.ids) && p.ids != []
  {
    var all := results(first.identity, first.criteria);
    var a, b, c := first.from, p.from, p.from + |p.ids|;
    assert all[a..c] == all[a..b] + all[b..c];
  }

  lemma FrontIsRight(results: Results, pages: seq<Page>)
    requires |pages| > 1 && PagesRight(results, pages)
    ensures var front := pages[..|pages| - 1];
      PagesRight(results, front) && front[|front| - 1] == pages[|pages| - 2] && PageRight(results, pages[|pages| - 2])
  {
    assert pages[|pages| - 2] in pages;
  }

  /** A chain of pages is a stretch of the one result without gap or repetition; it reaches the end
    * of the result exactly when it has no next cursor; and it cannot go on for longer than the
    * result. */
  lemma {:induction false} ChainIsOneStretch(results: Results, pages: seq<Page>)
    requires pages != [] && Chained(pages) && PagesRight(results, pages)
    ensures OneStretch(results, pages[0], pages[|pages| - 1], Concatenated(pages))
    ensures |pages| <= 1 + |Concatenated(pages)|
  {
    var front, last := pages[..|pages| - 1], pages[|pages| - 1];
    assert PageRight(results, last) by { assert last in pages; }
    if front == [] {
      OnePageIsOneStretch(results, last);
      assert Concatenated(pages) == last.ids;
    } else {
      FrontIsRight(results, pages);
      ChainIsOneStretch(results, front);
      StretchExtends(results, front[0], front[|front| - 1], Concatenated(front), last);
      assert Concatenated(pages) == Concatenated(front) + last.ids;
    }
  }

  lemma OnePageIsOneStretch(results: Results, p: Page)
    requires PageRight(results, p)
    ensures OneStretch(results, p, p, p.ids)
  {
  }

  /** Paging through a search, from any offset with any positive page sizes, while other requests
    * and catalog commits go on, refines OFFSET: it yields the result from that offset on. */
  lemma PaginationRefinesOffset(results: Results, states: seq<State>, events: seq<Event>, n: nat, pages: seq<Page>,
                                q: Query)
    requires IsRun(results, states, events) && n < |states|
    requires pages != [] && Chained(pages)
    requires forall p :: p in pages ==> p in states[n].pages
    requires pages[0].criteria == q.criteria && pages[0].from == PageStart(Total(results, pages[0].identity, q), q)
    requires pages[|pages| - 1].next == None
    ensures var all := results(pages[0].identity, q.criteria);
      Concatenated(pages) == if q.offset <= |all| then all[q.offset..] else []
    ensures |pages| <= 1 + |Concatenated(pages)|
  {
    EveryRunIsSafe(results, states, events, n);
    ChainIsOneStretch(results, pages);
    var all := results(pages[0].identity, q.criteria);
    assert all[PageStart(|all|, q)..|all|] == all[PageStart(|all|, q)..];
  }
}
