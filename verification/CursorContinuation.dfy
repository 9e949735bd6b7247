/** When a continuation succeeds: a cursor that was handed out stays usable as long as its session
  * is cached. */
module CursorContinuation {
  import opened Wrappers
  import opened Runs
  import opened CursorCache
  import opened CursorProtocol

  /** The state of the protocol with every session ever published, by its id. */
  datatype Traced = Traced(now: State, issued: map<SessionId, Session>)

  /** Publishing issues a session under an id that was never drawn before. */
  ghost predicate TracedStep(results: Results, t: Traced, e: Event, t': Traced) {
    && Step(results, t.now, e, t'.now)
    && if e.Publishing? && e.published.Ok?
       then e.sid !in t.issued && t'.issued == t.issued[e.sid := IssuedBy(results, t.now, e)]
       else t'.issued == t.issued
  }

  ghost function IssuedBy(results: Results, s: State, e: Event): Session
    requires e.Publishing?
  {
    match At(s, e.i)
    case Some(Holding(identity, q, _, _)) => NewSession(results, identity, q, e.now)
    case _ => NewSession(results, s.current, Query(Criteria([], [], [], 0, false), 0, 0), e.now)
  }

  // ---------------------------------------------------------------- cached sessions are issued ones

  /** The same session, whenever it was last used. */
  predicate Same(a: Session, b: Session) { a == b.(lastAccess := a.lastAccess) }

  ghost predicate CachedAreIssued(c: Cache, issued: map<SessionId, Session>) {
    forall sid :: sid in c.sessions ==> sid in issued && Same(c.sessions[sid], issued[sid])
  }

  /** The cursor points into a session issued for the criteria and the snapshot. */
  ghost predicate PointsInto(issued: map<SessionId, Session>, q: Cursor, identity: Identity, criteria: Criteria) {
    && q.session in issued && issued[q.session].identity == identity && issued[q.session].criteria == criteria
    && issued[q.session].first <= q.position < |issued[q.session].ids| && q.identity == identity
  }

  ghost predicate RequestTraced(issued: map<SessionId, Session>, r: Request) {
    r.Published? ==> PointsInto(issued, r.cursor, r.identity, r.query.criteria)
  }

  ghost predicate PageTraced(issued: map<SessionId, Session>, p: Page) {
    p.next.Some? ==> PointsInto(issued, p.next.value, p.identity, p.criteria)
  }

  ghost predicate RequestsTraced(issued: map<SessionId, Session>, requests: map<nat, Request>) {
    forall i :: i in requests ==> RequestTraced(issued, requests[i])
  }

  ghost predicate PagesTraced(issued: map<SessionId, Session>, pages: seq<Page>) {
    forall p :: p in pages ==> PageTraced(issued, p)
  }

  ghost predicate TracedInv(results: Results, t: Traced) {
    && Inv(results, t.now) && CachedAreIssued(t.now.cache, t.issued)
    && RequestsTraced(t.issued, t.now.requests) && PagesTraced(t.issued, t.now.pages)
  }

  // ---------------------------------------------------------------- where cached sessions come from

  /** Every session of the new cache was in the old one. */
  ghost predicate From(c: Cache, c': Cache) {
    forall sid :: sid in c'.sessions ==> sid in c.sessions && Same(c'.sessions[sid], c.sessions[sid])
  }

  lemma FromIsIssued(c: Cache, c': Cache, issued: map<SessionId, Session>)
    requires From(c, c') && CachedAreIssued(c, issued)
    ensures CachedAreIssued(c', issued)
  {
  }

  lemma ReservesFrom(c: Cache, current: Identity, identity: Identity, count: nat, now: int, c': Cache,
                     r: Result<Token, Error>)
    requires Reserves(c, current, identity, count, now, c', r)
    ensures From(c, c')
  {
    var f := Refreshed(c, now, GenerationKey(identity));
    if c' != c && c' != f {
      var kept :| ReservesKeeping(f, count, kept, c', r);
      EvictionKeeps(f.sessions, kept, Reserved(f) + count, f.capacity);
    }
  }

  lemma PublishesFrom(c: Cache, current: Identity, s: Session, t: Token, sid: SessionId, c': Cache,
                      r: Result<Cursor, Error>)
    requires Publishes(c, current, s, t, sid, c', r)
    ensures if r.Ok? then sid in c'.sessions && c'.sessions[sid] == s && From(c, Removed(c', sid)) else From(c, c')
    ensures r.Ok? ==> r.value == Cursor(sid, s.identity, s.first)
  {
    var f := Refreshed(c, s.lastAccess, GenerationKey(s.identity));
    if c' != c && c' != f {
      var kept :| PublishesKeeping(f, s, t, sid, kept, c', r);
      EvictionKeeps(f.sessions, kept, Reserved(f), f.capacity);
    }
  }

  lemma ReadFrom(c: Cache, q: Cursor, limit: nat, criteria: Criteria, identity: Identity, now: int)
    ensures From(c, ReadSlice(c, q, limit, criteria, identity, now).0)
  {
  }

  /** A slice that was read points into the session it was read from. */
  lemma SliceIsTraced(c: Cache, issued: map<SessionId, Session>, q: Cursor, limit: nat, criteria: Criteria,
                      identity: Identity, now: int)
    requires CachedAreIssued(c, issued)
    ensures var read := ReadSlice(c, q, limit, criteria, identity, now);
      read.1.Ok? ==> PageTraced(issued, Page(identity, criteria, q.position, limit, read.1.value.ids, read.1.value.next))
  {
  }

  // ---------------------------------------------------------------- the invariant

  /** Issuing under a new id disturbs nothing that points into older sessions. */
  lemma IssuingKeepsTraces(issued: map<SessionId, Session>, sid: SessionId, s: Session, requests: map<nat, Request>,
                           pages: seq<Page>)
    requires sid !in issued && RequestsTraced(issued, requests) && PagesTraced(issued, pages)
    ensures RequestsTraced(issued[sid := s], requests) && PagesTraced(issued[sid := s], pages)
  {
    var more := issued[sid := s];
    forall i | i in requests ensures RequestTraced(more, requests[i]) { assert RequestTraced(issued, requests[i]); }
    forall p | p in pages ensures PageTraced(more, p) { assert PageTraced(issued, p); }
  }

  lemma ReservingKeeps(results: Results, t: Traced, e: Event, t': Traced)
    requires TracedInv(results, t) && TracedStep(results, t, e, t') && e.Reserving?
    ensures CachedAreIssued(t'.now.cache, t'.issued) && RequestsTraced(t'.issued, t'.now.requests)
      && PagesTraced(t'.issued, t'.now.pages)
  {
    var First(identity, q) := t.now.requests[e.i];
    ReservesFrom(t.now.cache, t.now.current, identity, Total(results, identity, q), e.now, e.cache, e.granted);
    FromIsIssued(t.now.cache, e.cache, t.issued);
  }

  lemma PublishedIsIssued(c: Cache, c': Cache, sid: SessionId, s: Session, issued: map<SessionId, Session>)
    requires CachedAreIssued(c, issued) && sid !in issued && sid in c'.sessions && c'.sessions[sid] == s
      && From(c, Removed(c', sid))
    ensures CachedAreIssued(c', issued[sid := s])
  {
    forall k | k in c'.sessions ensures k in issued[sid := s] && Same(c'.sessions[k], issued[sid := s][k]) {
      if k != sid { assert k in Removed(c', sid).sessions; }
    }
  }

  lemma PublishingKeeps(results: Results, t: Traced, e: Event, t': Traced)
    requires TracedInv(results, t) && TracedStep(results, t, e, t') && e.Publishing?
    ensures CachedAreIssued(t'.now.cache, t'.issued) && RequestsTraced(t'.issued, t'.now.requests)
      && PagesTraced(t'.issued, t'.now.pages)
  {
    var Holding(identity, q, token, since) := t.now.requests[e.i];
    assert RequestRight(results, t.now.requests[e.i]);
    var session := NewSession(results, identity, q, e.now);
    PublishesFrom(t.now.cache, t.now.current, session, token, e.sid, e.cache, e.published);
    if e.published.Ok? {
      PublishedIsIssued(t.now.cache, e.cache, e.sid, session, t.issued);
      IssuingKeepsTraces(t.issued, e.sid, session, t.now.requests, t.now.pages);
      assert PointsInto(t'.issued, e.published.value, identity, q.criteria);
    } else {
      FromIsIssued(t.now.cache, e.cache, t.issued);
    }
  }

  lemma ContinuesKeeps(results: Results, t: Traced, e: Event, t': Traced)
    requires TracedInv(results, t) && TracedStep(results, t, e, t') && e.Continues?
    ensures CachedAreIssued(t'.now.cache, t'.issued) && RequestsTraced(t'.issued, t'.now.requests)
      && PagesTraced(t'.issued, t'.now.pages)
  {
    var Continuing(identity, criteria, q, limit) := t.now.requests[e.i];
    ReadFrom(t.now.cache, q, limit, criteria, identity, e.now);
    FromIsIssued(t.now.cache, ReadSlice(t.now.cache, q, limit, criteria, identity, e.now).0, t.issued);
    SliceIsTraced(t.now.cache, t.issued, q, limit, criteria, identity, e.now);
  }

  lemma ConfirmingKeeps(results: Results, t: Traced, e: Event, t': Traced)
    requires TracedInv(results, t) && TracedStep(results, t, e, t') && e.Confirming?
    ensures CachedAreIssued(t'.now.cache, t'.issued) && RequestsTraced(t'.issued, t'.now.requests)
      && PagesTraced(t'.issued, t'.now.pages)
  {
    assert RequestTraced(t.issued, t.now.requests[e.i]);
  }

  lemma OtherSessions(results: Results, s: State, e: Event, s': State)
    requires Step(results, s, e, s') && !e.Reserving? && !e.Publishing? && !e.Continues? && !e.Confirming?
    ensures From(s.cache, s'.cache)
  {
  }

  lemma OtherRequests(results: Results, issued: map<SessionId, Session>, s: State, e: Event, s': State)
    requires RequestsTraced(issued, s.requests) && PagesTraced(issued, s.pages)
    requires Step(results, s, e, s') && !e.Reserving? && !e.Publishing? && !e.Continues? && !e.Confirming?
    ensures RequestsTraced(issued, s'.requests) && PagesTraced(issued, s'.pages)
  {
  }

  lemma OthersKeep(results: Results, t: Traced, e: Event, t': Traced)
    requires TracedInv(results, t) && TracedStep(results, t, e, t') && !e.Reserving? && !e.Publishing? && !e.Continues?
      && !e.Confirming?
    ensures CachedAreIssued(t'.now.cache, t'.issued) && RequestsTraced(t'.issued, t'.now.requests)
      && PagesTraced(t'.issued, t'.now.pages)
  {
    OtherSessions(results, t.now, e, t'.now);
    OtherRequests(results, t.issued, t.now, e, t'.now);
    FromIsIssued(t.now.cache, t'.now.cache, t.issued);
  }

  lemma TracedStepKeepsInv(results: Results, t: Traced, e: Event, t': Traced)
    requires TracedInv(results, t) && TracedStep(results, t, e, t')
    ensures TracedInv(results, t')
  {
    StepKeepsInv(results, t.now, e, t'.now);
    match e
    case Reserving(_, _, _, _) => ReservingKeeps(results, t, e, t');
    case Publishing(_, _, _, _, _) => PublishingKeeps(results, t, e, t');
    case Confirming(_) => ConfirmingKeeps(results, t, e, t');
    case Continues(_, _) => ContinuesKeeps(results, t, e, t');
    case _ => OthersKeep(results, t, e, t');
  }

  // ---------------------------------------------------------------- the theorem

  ghost predicate IsTracedRun(results: Results, states: seq<Traced>, events: seq<Event>) {
    && IsRunOf((t: Traced, e: Event, t': Traced) => TracedStep(results, t, e, t'), states, events)
    && Initial(states[0].now) && states[0].issued == map[]
  }

  lemma TracedRunKeepsInv(results: Results, states: seq<Traced>, events: seq<Event>, n: nat)
    requires IsTracedRun(results, states, events) && n < |states|
    ensures TracedInv(results, states[n])
  {
    InitialInv(results, states[0].now);
    forall t, e, t' | TracedInv(results, t) && TracedStep(results, t, e, t') ensures TracedInv(results, t') {
      TracedStepKeepsInv(results, t, e, t');
    }
    Invariant((t: Traced, e: Event, t': Traced) => TracedStep(results, t, e, t'), (t: Traced) => TracedInv(results, t),
              states, events, n);
  }

  /** The session a cursor names is cached and was used in the last ten minutes. */
  predicate Cached(c: Cache, q: Cursor, now: int) {
    q.session in c.sessions && now - c.sessions[q.session].lastAccess < 600
  }

  lemma HandedOutIsTraced(results: Results, states: seq<Traced>, events: seq<Event>, n: nat, p: Page)
    requires IsTracedRun(results, states, events) && n < |states| && p in states[n].now.pages
    ensures PageTraced(states[n].issued, p) && PageRight(results, p)
    ensures CachedAreIssued(states[n].now.cache, states[n].issued) && SessionsRight(results, states[n].now.cache)
  {
    TracedRunKeepsInv(results, states, events, n);
  }

  lemma ReadSucceedsIff(c: Cache, issued: map<SessionId, Session>, p: Page, limit: nat, criteria: Criteria,
                        identity: Identity, now: int)
    requires CachedAreIssued(c, issued) && PageTraced(issued, p) && p.next.Some?
    ensures var q := p.next.value;
      ReadSlice(c, q, limit, criteria, identity, now).1.Ok? <==> CursorValid(q) && identity == p.identity && criteria == p.criteria && Cached(c, q, now)
  {
  }

  /** Presenting a cursor that was handed out with some page succeeds exactly when the cursor is
    * valid, the request has the page's criteria and reads the page's snapshot, and the session is
    * still cached and alive; it then returns the ids from where that page ended. */
  lemma ContinuationSucceedsIff(results: Results, states: seq<Traced>, events: seq<Event>, n: nat, p: Page, limit: nat,
                                criteria: Criteria, identity: Identity, now: int)
    requires IsTracedRun(results, states, events) && n < |states|
    requires p in states[n].now.pages && p.next.Some?
    ensures var q, cache := p.next.value, states[n].now.cache;
      var read := ReadSlice(cache, q, limit, criteria, identity, now).1;
      && (read.Ok? <==> CursorValid(q) && identity == p.identity && criteria == p.criteria && Cached(cache, q, now))
      && (read.Ok? ==> PageRight(results, Page(p.identity, p.criteria, p.from + |p.ids|, limit, read.value.ids,
                                               read.value.next)))
  {
    HandedOutIsTraced(results, states, events, n, p);
    ReadSucceedsIff(states[n].now.cache, states[n].issued, p, limit, criteria, identity, now);
    SliceIsRight(results, states[n].now.cache, p.next.value, limit, criteria, identity, now);
  }

  /** A cursor handed out for a named snapshot under a non-empty id is valid exactly when some id
    * stands before it: only a first page of no ids at offset zero hands out an unusable one. */
  lemma HandedOutIsValidIff(results: Results, p: Page)
    requires PageRight(results, p) && p.next.Some? && p.next.value.session != [] && p.identity.fingerprint != []
      && p.identity.snapshot != []
    ensures CursorValid(p.next.value) <==> p.from > 0 || p.limit > 0
  {
  }
  // ---------------------------------------------------------------- the time to live

  /** Every read starts another ten minutes: the cursor it returns is good until then, whatever the
    * next page size. */
  lemma CursorLastsTenMinutes(c: Cache, q: Cursor, limit: nat, criteria: Criteria, identity: Identity, now: int,
                              next: nat, later: int)
    requires ReadSlice(c, q, limit, criteria, identity, now).1.Ok?
    requires ReadSlice(c, q, limit, criteria, identity, now).1.value.next.Some? && now <= later < now + 600
    ensures var (c', first) := ReadSlice(c, q, limit, criteria, identity, now);
      var second := ReadSlice(c', first.value.next.value, next, criteria, identity, later).1;
      && second.Ok? && c'.sessions[q.session].ids == c.sessions[q.session].ids
      && second.value.ids == c.sessions[q.session].ids[q.position + |first.value.ids|..][..|second.value.ids|]
  {
  }

  /** So does publishing, for a cursor that can be used at all. */
  lemma PublishedLastsTenMinutes(c: Cache, s: Session, t: Token, sid: SessionId, c': Cache, q: Cursor, limit: nat,
                                 later: int)
    requires Publishes(c, s.identity, s, t, sid, c', Ok(q)) && s.lastAccess <= later < s.lastAccess + 600
    requires sid != [] && s.identity.fingerprint != [] && s.identity.snapshot != [] && 0 < s.first < |s.ids|
    ensures ReadSlice(c', q, limit, s.criteria, s.identity, later).1.Ok?
  {
    PublishesFrom(c, s.identity, s, t, sid, c', Ok(q));
  }

  /** After ten idle minutes a session is gone, and its cursors have expired. */
  lemma IdleSessionExpires(c: Cache, q: Cursor, limit: nat, criteria: Criteria, identity: Identity, now: int)
    requires q.session in c.sessions && now - c.sessions[q.session].lastAccess >= 600
    requires q.session != [] && q.identity.fingerprint != [] && q.identity.snapshot != [] && q.position > 0
    requires q.identity == identity
    ensures var (c', r) := ReadSlice(c, q, limit, criteria, identity, now);
      r == Err(CursorExpired) && q.session !in c'.sessions
  {
  }
}
