/** The bounded cache of materialised search results: reserve, publish, read, release, purge
  * and generation switch, each one critical section. */
module CursorCache {
  import opened Wrappers
  import opened Bytes
  import opened MapSums

  type SessionId = Bytes
  type BookId = int

  /** The identity of a catalog snapshot. */
  datatype Identity = Identity(fingerprint: Bytes, snapshot: Bytes)

  datatype Criteria = Criteria(fts: Bytes, languages: seq<Bytes>, genres: seq<Bytes>, sortBy: nat, descending: bool)

  datatype Session = Session(ids: seq<BookId>, criteria: Criteria, identity: Identity, first: nat, lastAccess: int)

  datatype Reservation = Reservation(key: Bytes, count: nat)

  /** What ReserveSearchSessionIds hands to its caller. */
  datatype Token = Token(id: nat, key: Bytes, count: nat)

  datatype Cursor = Cursor(session: SessionId, identity: Identity, position: nat)

  datatype Error = SnapshotChanged | CapacityExceeded | CursorExpired | CursorInvalid | LogicError
    | SessionIdCollision | IdsExhausted

  const MAX_SESSIONS: nat := 8
  const TTL: nat := 600
  const SIZE_MAX: nat := 0xFFFF_FFFF_FFFF_FFFF
  const BOOK_ID_ALLOWANCE: nat := 16
  const ID_MAX: nat := 0xFFFF_FFFF_FFFF_FFFF

  // ---------------------------------------------------------------- capacities and keys

  function PerSessionCapacity(capacity: nat): nat {
    capacity - (capacity / 4 + if capacity % 4 == 0 then 0 else 1)
  }

  /** Three quarters of the whole, rounded down. */
  lemma OneSessionHasThreeQuarters(capacity: nat)
    ensures 4 * PerSessionCapacity(capacity) <= 3 * capacity < 4 * PerSessionCapacity(capacity) + 4
  {
  }

  /** Length-prefixed, so that the key determines both parts. */
  function GenerationKey(identity: Identity): Bytes {
    Decimal(|identity.fingerprint|) + [COLON] + identity.fingerprint + identity.snapshot
  }

  lemma GenerationKeyIsInjective(a: Identity, b: Identity)
    requires GenerationKey(a) == GenerationKey(b)
    ensures a == b
  {
    var x, y := a.fingerprint + a.snapshot, b.fingerprint + b.snapshot;
    assert GenerationKey(a) == Decimal(|a.fingerprint|) + [COLON] + x;
    assert GenerationKey(b) == Decimal(|b.fingerprint|) + [COLON] + y;
    FramedDecimal(|a.fingerprint|, |b.fingerprint|, COLON, x, y);
    assert a.fingerprint == x[..|a.fingerprint|] && b.fingerprint == y[..|b.fingerprint|];
    assert a.snapshot == x[|a.fingerprint|..] && b.snapshot == y[|b.fingerprint|..];
  }

  // ---------------------------------------------------------------- the cache as a value

  /** `nextId` is the next reservation id; `wrapped` notes that the 64-bit counter has started over. */
  datatype Cache = Cache(capacity: nat, sessions: map<SessionId, Session>, reservations: map<nat, Reservation>,
                         key: Bytes, nextId: nat, wrapped: bool)

  function SessionSize(s: Session): nat { |s.ids| }
  function ReservedSize(r: Reservation): nat { r.count }

  ghost function Used(c: Cache): nat { Sum(c.sessions, SessionSize) }
  ghost function Reserved(c: Cache): nat { Sum(c.reservations, ReservedSize) }

  ghost predicate SessionFits(c: Cache, s: SessionId)
    requires s in c.sessions
  {
    |c.sessions[s].ids| <= PerSessionCapacity(c.capacity) && GenerationKey(c.sessions[s].identity) == c.key
  }

  ghost predicate ReservationFits(c: Cache, r: nat)
    requires r in c.reservations
  {
    && 0 < r <= ID_MAX && (!c.wrapped ==> r < c.nextId)
    && c.reservations[r].key == c.key && c.reservations[r].count <= PerSessionCapacity(c.capacity)
  }

  /** The cache invariant: within the aggregate capacity, at most eight sessions, each within the
    * per-session capacity, everything of the current generation. */
  ghost predicate CacheInv(c: Cache) {
    && c.capacity <= SIZE_MAX / BOOK_ID_ALLOWANCE
    && Used(c) + Reserved(c) <= c.capacity
    && |c.sessions| <= MAX_SESSIONS
    && (forall s :: s in c.sessions ==> SessionFits(c, s))
    && (forall r :: r in c.reservations ==> ReservationFits(c, r))
    && 0 < c.nextId <= ID_MAX
  }

  /** At most eight sessions, none with more than three quarters of the ids, all within the capacity. */
  lemma CacheLimits(c: Cache, sid: SessionId)
    requires CacheInv(c)
    ensures |c.sessions| <= 8 && Used(c) + Reserved(c) <= c.capacity && 16 * c.capacity <= 0xFFFF_FFFF_FFFF_FFFF
    ensures sid in c.sessions ==> 4 * |c.sessions[sid].ids| <= 3 * c.capacity
    ensures sid in c.sessions ==> GenerationKey(c.sessions[sid].identity) == c.key
  {
    if sid in c.sessions { assert SessionFits(c, sid); }
  }

  predicate Live(s: Session, now: int) { now - s.lastAccess < TTL }

  function Purged(c: Cache, now: int): Cache {
    c.(sessions := map s | s in c.sessions && Live(c.sessions[s], now) :: c.sessions[s])
  }

  function Activated(c: Cache, key: Bytes): Cache {
    if c.key == key then c else Cache(c.capacity, map[], map[], key, c.nextId, c.wrapped)
  }

  /** What purging and activating leave behind, before anything is admitted. */
  function Refreshed(c: Cache, now: int, key: Bytes): Cache { Activated(Purged(c, now), key) }

  // ---------------------------------------------------------------- eviction

  /** Room is needed while there are too many sessions or too many ids. */
  ghost predicate TooFull(sessions: map<SessionId, Session>, others: nat, capacity: nat) {
    |sessions| >= MAX_SESSIONS || Sum(sessions, SessionSize) + others > capacity
  }

  /** No other session was used before this one. */
  ghost predicate LeastRecent(sessions: map<SessionId, Session>, victim: SessionId) {
    victim in sessions && forall s :: s in sessions ==> sessions[victim].lastAccess <= sessions[s].lastAccess
  }

  /** `after` may remain when the eviction loop starts with `before`; min_element is free to
    * choose among sessions last used at the same moment. */
  ghost predicate Evicts(before: map<SessionId, Session>, after: map<SessionId, Session>, others: nat, capacity: nat)
    decreases |before|
  {
    if before == map[] || !TooFull(before, others, capacity) then after == before
    else exists victim :: LeastRecent(before, victim) && EvictsNext(before, victim, after, others, capacity)
  }

  ghost predicate EvictsNext(before: map<SessionId, Session>, victim: SessionId, after: map<SessionId, Session>,
                             others: nat, capacity: nat)
    requires victim in before
    decreases |before|, 0
  {
    Without(before, victim);
    Evicts(before - {victim}, after, others, capacity)
  }

  lemma Without(sessions: map<SessionId, Session>, s: SessionId)
    requires s in sessions
    ensures |sessions - {s}| == |sessions| - 1
  {
    assert (sessions - {s}).Keys == sessions.Keys - {s};
  }

  ghost predicate Keeps(before: map<SessionId, Session>, after: map<SessionId, Session>) {
    after.Keys <= before.Keys && forall s :: s in after ==> after[s] == before[s]
  }

  lemma {:induction false} EvictionKeeps(before: map<SessionId, Session>, after: map<SessionId, Session>, others: nat,
                                         capacity: nat)
    requires Evicts(before, after, others, capacity)
    ensures Keeps(before, after)
    ensures after == map[] || !TooFull(after, others, capacity)
    decreases |before|
  {
    if before != map[] && TooFull(before, others, capacity) {
      var v :| LeastRecent(before, v) && EvictsNext(before, v, after, others, capacity);
      Without(before, v);
      EvictionKeeps(before - {v}, after, others, capacity);
    }
  }

  /** Nothing kept was used before anything evicted. */
  lemma {:induction false} EvictionIsLru(before: map<SessionId, Session>, after: map<SessionId, Session>, others: nat,
                                         capacity: nat, e: SessionId, k: SessionId)
    requires Evicts(before, after, others, capacity) && e in before && e !in after && k in after
    ensures k in before && before[e].lastAccess <= before[k].lastAccess
    decreases |before|
  {
    EvictionKeeps(before, after, others, capacity);
    var v :| LeastRecent(before, v) && EvictsNext(before, v, after, others, capacity);
    Without(before, v);
    if e != v { EvictionIsLru(before - {v}, after, others, capacity, e, k); }
  }

  /** Eviction goes no further than needed: with the last evicted session back in its place the
    * cache would be too full. */
  lemma {:induction false} EvictionIsLeast(before: map<SessionId, Session>, after: map<SessionId, Session>, others: nat,
                                           capacity: nat)
    returns (last: SessionId)
    requires Evicts(before, after, others, capacity) && after != before
    ensures last in before && last !in after && TooFull(after[last := before[last]], others, capacity)
    ensures LeastRecent(after[last := before[last]], last)
    decreases |before|
  {
    var v :| LeastRecent(before, v) && EvictsNext(before, v, after, others, capacity);
    Without(before, v);
    if after == before - {v} {
      last := v;
      assert after[last := before[last]] == before;
    } else {
      last := EvictionIsLeast(before - {v}, after, others, capacity);
    }
  }

  /** Evicting makes the request fit unless it could not fit an empty cache either. */
  lemma EvictionSuffices(before: map<SessionId, Session>, after: map<SessionId, Session>, others: nat, capacity: nat)
    requires Evicts(before, after, others, capacity)
    ensures Sum(after, SessionSize) + others > capacity <==> others > capacity
  {
    EvictionKeeps(before, after, others, capacity);
  }

  // ---------------------------------------------------------------- the operations

  /** ReserveSearchSessionIds.  `current` is the identity of the catalog when the section runs. */
  ghost predicate Reserves(c: Cache, current: Identity, identity: Identity, count: nat, now: int, c': Cache,
                           r: Result<Token, Error>) {
    if current != identity then r == Err(SnapshotChanged) && c' == c
    else
      var f := Refreshed(c, now, GenerationKey(identity));
      if count > PerSessionCapacity(c.capacity) then r == Err(CapacityExceeded) && c' == f
      else
        exists kept :: ReservesKeeping(f, count, kept, c', r)
  }

  function WithReservation(f: Cache, count: nat): Cache {
    f.(reservations := f.reservations[f.nextId := Reservation(f.key, count)], nextId := IdAfter(f.nextId),
       wrapped := f.wrapped || f.nextId == ID_MAX)
  }

  /** The 64-bit counter starts over at one. */
  function IdAfter(id: nat): nat { if id == ID_MAX then 1 else id + 1 }

  /** The ids 1 to 2^64 - 1 follow each other in a circle, so that none comes again before all the others. */
  lemma IdsGoRound(a: nat, b: nat)
    requires 1 <= a <= 0xFFFF_FFFF_FFFF_FFFF && 1 <= b <= 0xFFFF_FFFF_FFFF_FFFF
    ensures 1 <= IdAfter(a) <= 0xFFFF_FFFF_FFFF_FFFF && (IdAfter(a) == IdAfter(b) ==> a == b)
    ensures IdAfter(a) == a + 1 || (a == 0xFFFF_FFFF_FFFF_FFFF && IdAfter(a) == 1)
  {
  }

  /** The decision once the eviction loop has left `kept`. */
  ghost function Admission(f: Cache, count: nat, kept: map<SessionId, Session>): (Cache, Result<Token, Error>) {
    var g := f.(sessions := kept);
    if Used(g) + Reserved(g) + count > g.capacity then (g, Err(CapacityExceeded))
    else if g.nextId in g.reservations then (g, Err(IdsExhausted))
    else (WithReservation(g, count), Ok(Token(g.nextId, g.key, count)))
  }

  ghost predicate ReservesKeeping(f: Cache, count: nat, kept: map<SessionId, Session>, c': Cache,
                                  r: Result<Token, Error>) {
    Evicts(f.sessions, kept, Reserved(f) + count, f.capacity) && (c', r) == Admission(f, count, kept)
  }

  /** ReleaseSearchSessionReservation. */
  function Released(c: Cache, t: Token): Cache {
    c.(reservations := c.reservations - {t.id})
  }

  /** PublishSearchSession. */
  ghost predicate Publishes(c: Cache, current: Identity, s: Session, t: Token, sid: SessionId, c': Cache,
                            r: Result<Cursor, Error>) {
    if current != s.identity then r == Err(SnapshotChanged) && c' == c
    else
      var f := Refreshed(c, s.lastAccess, GenerationKey(s.identity));
      if |s.ids| > PerSessionCapacity(c.capacity) then r == Err(CapacityExceeded) && c' == f
      else if t.id !in f.reservations || t.key != f.key then r == Err(SnapshotChanged) && c' == f
      else if f.reservations[t.id] != Reservation(t.key, t.count) || |s.ids| != t.count then r == Err(LogicError) && c' == f
      else
        exists kept :: PublishesKeeping(f, s, t, sid, kept, c', r)
  }

  function WithSession(f: Cache, s: Session, t: Token, sid: SessionId): Cache {
    f.(sessions := f.sessions[sid := s], reservations := f.reservations - {t.id})
  }

  ghost function Publication(f: Cache, s: Session, t: Token, sid: SessionId,
                             kept: map<SessionId, Session>): (Cache, Result<Cursor, Error>) {
    var g := f.(sessions := kept);
    if Used(g) + Reserved(g) > g.capacity then (g, Err(CapacityExceeded))
    else if sid in kept then (g, Err(SessionIdCollision))
    else (WithSession(g, s, t, sid), Ok(Cursor(sid, s.identity, s.first)))
  }

  ghost predicate PublishesKeeping(f: Cache, s: Session, t: Token, sid: SessionId, kept: map<SessionId, Session>,
                                   c': Cache, r: Result<Cursor, Error>) {
    Evicts(f.sessions, kept, Reserved(f), f.capacity) && (c', r) == Publication(f, s, t, sid, kept)
  }

  /** RemoveSearchSession. */
  function Removed(c: Cache, sid: SessionId): Cache {
    c.(sessions := c.sessions - {sid})
  }

  datatype Slice = Slice(ids: seq<BookId>, next: Option<Cursor>)

  predicate CursorValid(q: Cursor) {
    q.session != [] && q.identity.fingerprint != [] && q.identity.snapshot != [] && q.position > 0
  }

  function Min(a: nat, b: nat): nat { if a < b then a else b }

  /** ReadSearchSessionSlice: the new cache and the slice or the refusal. */
  function ReadSlice(c: Cache, q: Cursor, limit: nat, criteria: Criteria, identity: Identity,
                     now: int): (Cache, Result<Slice, Error>) {
    if !CursorValid(q) then (c, Err(CursorInvalid))
    else if q.identity != identity then (c, Err(SnapshotChanged))
    else
      var p := Purged(c, now);
      if q.session !in p.sessions then (p, Err(CursorExpired))
      else
        var s := p.sessions[q.session];
        if s.identity != identity then (Removed(p, q.session), Err(SnapshotChanged))
        else if s.criteria != criteria || q.position < s.first || q.position >= |s.ids| then (p, Err(CursorInvalid))
        else
          var end := q.position + Min(limit, |s.ids| - q.position);
          (Touched(p, q.session, now),
           Ok(Slice(s.ids[q.position..end], if end < |s.ids| then Some(q.(position := end)) else None)))
  }

  // ---------------------------------------------------------------- every operation keeps the invariant

  lemma KeepsInv(c: Cache, kept: map<SessionId, Session>)
    requires CacheInv(c) && Keeps(c.sessions, kept)
    ensures CacheInv(c.(sessions := kept)) && Sum(kept, SessionSize) <= Used(c)
    ensures |kept| <= |c.sessions|
  {
    SumSubset(kept, c.sessions, SessionSize);
    SubsetSize(kept.Keys, c.sessions.Keys);
    forall s | s in kept ensures SessionFits(c.(sessions := kept), s) { assert SessionFits(c, s); }
    forall r | r in c.reservations ensures ReservationFits(c.(sessions := kept), r) { assert ReservationFits(c, r); }
  }

  lemma {:induction false} SubsetSize<T>(a: set<T>, b: set<T>)
    requires a <= b
    ensures |a| <= |b|
  {
    if a != {} {
      var x :| x in a;
      SubsetSize(a - {x}, b - {x});
    }
  }

  lemma RefreshedInv(c: Cache, now: int, key: Bytes)
    requires CacheInv(c)
    ensures CacheInv(Refreshed(c, now, key)) && Refreshed(c, now, key).key == key
  {
    KeepsInv(c, Purged(c, now).sessions);
  }

  lemma ReleasedInv(c: Cache, t: Token)
    requires CacheInv(c)
    ensures CacheInv(Released(c, t))
  {
    var after := Released(c, t);
    if t.id in c.reservations {
      SumRemove(c.reservations, t.id, ReservedSize);
    } else {
      assert after.reservations == c.reservations;
    }
    forall s | s in after.sessions ensures SessionFits(after, s) { assert SessionFits(c, s); }
    forall r | r in after.reservations ensures ReservationFits(after, r) { assert ReservationFits(c, r); }
  }

  lemma EvictedInv(f: Cache, kept: map<SessionId, Session>, others: nat)
    requires CacheInv(f) && Evicts(f.sessions, kept, others, f.capacity)
    ensures CacheInv(f.(sessions := kept)) && (kept == map[] || |kept| < MAX_SESSIONS)
  {
    EvictionKeeps(f.sessions, kept, others, f.capacity);
    KeepsInv(f, kept);
  }

  lemma ReservesInv(c: Cache, current: Identity, identity: Identity, count: nat, now: int, c': Cache,
                    r: Result<Token, Error>)
    requires CacheInv(c) && Reserves(c, current, identity, count, now, c', r)
    ensures CacheInv(c')
  {
    if current == identity {
      var f := Refreshed(c, now, GenerationKey(identity));
      RefreshedInv(c, now, GenerationKey(identity));
      if count <= PerSessionCapacity(c.capacity) { AdmissionOutcomeInv(f, count, c', r); }
    }
  }

  lemma AdmissionOutcomeInv(f: Cache, count: nat, c': Cache, r: Result<Token, Error>)
    requires CacheInv(f) && count <= PerSessionCapacity(f.capacity) && exists kept :: ReservesKeeping(f, count, kept, c', r)
    ensures CacheInv(c')
  {
    var kept :| ReservesKeeping(f, count, kept, c', r);
    AdmissionInv(f, count, kept);
  }

  lemma AdmissionInv(f: Cache, count: nat, kept: map<SessionId, Session>)
    requires CacheInv(f) && count <= PerSessionCapacity(f.capacity)
      && Evicts(f.sessions, kept, Reserved(f) + count, f.capacity)
    ensures CacheInv(Admission(f, count, kept).0)
  {
    EvictedInv(f, kept, Reserved(f) + count);
    var g := f.(sessions := kept);
    if Used(g) + Reserved(g) + count <= g.capacity && g.nextId !in g.reservations { AdmittedInv(g, count); }
  }

  lemma AdmittedInv(f: Cache, count: nat)
    requires CacheInv(f) && count <= PerSessionCapacity(f.capacity) && Used(f) + Reserved(f) + count <= f.capacity
    requires f.nextId !in f.reservations
    ensures CacheInv(WithReservation(f, count)) && Reserved(WithReservation(f, count)) == Reserved(f) + count
  {
    var c' := WithReservation(f, count);
    SumPut(f.reservations, f.nextId, Reservation(f.key, count), ReservedSize);
    forall s | s in c'.sessions ensures SessionFits(c', s) { assert SessionFits(f, s); }
    forall r | r in c'.reservations ensures ReservationFits(c', r) {
      if r != f.nextId { assert ReservationFits(f, r); }
    }
  }

  /** The token is the one the cache issued, if the cache still knows it. */
  predicate TokenHeld(c: Cache, t: Token) {
    t.id in c.reservations ==> c.reservations[t.id] == Reservation(t.key, t.count)
  }

  lemma PublishesInv(c: Cache, current: Identity, s: Session, t: Token, sid: SessionId, c': Cache,
                     r: Result<Cursor, Error>)
    requires CacheInv(c) && Publishes(c, current, s, t, sid, c', r)
    ensures CacheInv(c')
  {
    if current == s.identity {
      var f := Refreshed(c, s.lastAccess, GenerationKey(s.identity));
      RefreshedInv(c, s.lastAccess, GenerationKey(s.identity));
      if c' != f {
        var kept :| PublishesKeeping(f, s, t, sid, kept, c', r);
        PublicationInv(f, s, t, sid, kept);
      }
    }
  }

  lemma PublicationInv(f: Cache, s: Session, t: Token, sid: SessionId, kept: map<SessionId, Session>)
    requires CacheInv(f) && Evicts(f.sessions, kept, Reserved(f), f.capacity) && GenerationKey(s.identity) == f.key
    requires t.id in f.reservations && f.reservations[t.id].count == |s.ids| <= PerSessionCapacity(f.capacity)
    ensures CacheInv(Publication(f, s, t, sid, kept).0)
    ensures Publication(f, s, t, sid, kept).1 != Err(CapacityExceeded)
  {
    EvictedInv(f, kept, Reserved(f));
    if sid !in kept { PublishedInv(f.(sessions := kept), s, t, sid); }
  }

  lemma PublishedSums(f: Cache, s: Session, t: Token, sid: SessionId)
    requires sid !in f.sessions && t.id in f.reservations && f.reservations[t.id].count == |s.ids|
    ensures var c' := WithSession(f, s, t, sid);
      Used(c') + Reserved(c') == Used(f) + Reserved(f) && |c'.sessions| == |f.sessions| + 1
  {
    SumPut(f.sessions, sid, s, SessionSize);
    SumRemove(f.reservations, t.id, ReservedSize);
    assert f.sessions[sid := s].Keys == f.sessions.Keys + {sid};
  }

  lemma PublishedInv(f: Cache, s: Session, t: Token, sid: SessionId)
    requires CacheInv(f) && |f.sessions| < MAX_SESSIONS && sid !in f.sessions && GenerationKey(s.identity) == f.key
    requires t.id in f.reservations && f.reservations[t.id].count == |s.ids| <= PerSessionCapacity(f.capacity)
    ensures CacheInv(WithSession(f, s, t, sid))
  {
    var c' := WithSession(f, s, t, sid);
    PublishedSums(f, s, t, sid);
    forall k | k in c'.sessions ensures SessionFits(c', k) { if k != sid { assert SessionFits(f, k); } }
    forall r | r in c'.reservations ensures ReservationFits(c', r) { assert ReservationFits(f, r); }
  }

  lemma ReadSliceInv(c: Cache, q: Cursor, limit: nat, criteria: Criteria, identity: Identity, now: int)
    requires CacheInv(c)
    ensures CacheInv(ReadSlice(c, q, limit, criteria, identity, now).0)
  {
    var p := Purged(c, now);
    PurgedInv(c, now);
    if q.session in p.sessions {
      RemovedInv(p, q.session);
      TouchedInv(p, q.session, now);
    }
  }

  lemma PurgedInv(c: Cache, now: int)
    requires CacheInv(c)
    ensures CacheInv(Purged(c, now))
  {
    KeepsInv(c, Purged(c, now).sessions);
  }

  lemma RemovedInv(c: Cache, sid: SessionId)
    requires CacheInv(c)
    ensures CacheInv(Removed(c, sid))
  {
    KeepsInv(c, Removed(c, sid).sessions);
  }

  function Touched(c: Cache, sid: SessionId, now: int): Cache
    requires sid in c.sessions
  {
    c.(sessions := c.sessions[sid := c.sessions[sid].(lastAccess := now)])
  }

  lemma TouchedSums(c: Cache, sid: SessionId, now: int)
    requires sid in c.sessions
    ensures Used(Touched(c, sid, now)) == Used(c) && |Touched(c, sid, now).sessions| == |c.sessions|
  {
    SumPut(c.sessions, sid, c.sessions[sid].(lastAccess := now), SessionSize);
    SumRemove(c.sessions, sid, SessionSize);
    assert Touched(c, sid, now).sessions.Keys == c.sessions.Keys;
  }

  lemma TouchedInv(c: Cache, sid: SessionId, now: int)
    requires CacheInv(c) && sid in c.sessions
    ensures CacheInv(Touched(c, sid, now))
  {
    var c' := Touched(c, sid, now);
    TouchedSums(c, sid, now);
    forall s | s in c'.sessions ensures SessionFits(c', s) { assert SessionFits(c, s); }
    forall r | r in c'.reservations ensures ReservationFits(c', r) { assert ReservationFits(c, r); }
  }

  // ---------------------------------------------------------------- the promise of a reservation

  /** A reservation still held when its session is published never fails for capacity, and at
    * most one session makes way for it, only to keep the session count. */
  lemma ReservationIsAPromise(c: Cache, s: Session, t: Token, sid: SessionId, c': Cache, r: Result<Cursor, Error>)
    requires CacheInv(c) && Publishes(c, s.identity, s, t, sid, c', r)
    requires var f := Refreshed(c, s.lastAccess, GenerationKey(s.identity));
      t.id in f.reservations && f.reservations[t.id] == Reservation(t.key, t.count) && |s.ids| == t.count
    ensures r.Ok? || r == Err(SessionIdCollision)
    ensures var f := Refreshed(c, s.lastAccess, GenerationKey(s.identity));
      exists kept :: PublishesKeeping(f, s, t, sid, kept, c', r) && (f.sessions == kept || |f.sessions| == MAX_SESSIONS == |kept| + 1)
  {
    var f := Refreshed(c, s.lastAccess, GenerationKey(s.identity));
    RefreshedInv(c, s.lastAccess, GenerationKey(s.identity));
    assert ReservationFits(f, t.id);
    var kept :| PublishesKeeping(f, s, t, sid, kept, c', r);
    PublicationInv(f, s, t, sid, kept);
    EvictsForCountOnly(f, kept);
  }

  /** With a reservation in hand the ids already fit, so the loop runs at most once and only to
    * get below the session limit. */
  lemma EvictsForCountOnly(f: Cache, kept: map<SessionId, Session>)
    requires CacheInv(f) && Evicts(f.sessions, kept, Reserved(f), f.capacity)
    ensures f.sessions == kept || |f.sessions| == MAX_SESSIONS == |kept| + 1
  {
    if kept != f.sessions {
      EvictionKeeps(f.sessions, kept, Reserved(f), f.capacity);
      var last := EvictionIsLeast(f.sessions, kept, Reserved(f), f.capacity);
      var back := kept[last := f.sessions[last]];
      assert back.Keys == kept.Keys + {last};
      SumSubset(back, f.sessions, SessionSize);
      SubsetSize(back.Keys, f.sessions.Keys);
    }
  }

  lemma AdmissionRefusesIff(f: Cache, count: nat, kept: map<SessionId, Session>)
    requires Evicts(f.sessions, kept, Reserved(f) + count, f.capacity)
    ensures var r := Admission(f, count, kept).1;
      && (r == Err(CapacityExceeded) <==> Reserved(f) + count > f.capacity)
      && (r == Err(IdsExhausted) <==> Reserved(f) + count <= f.capacity && f.nextId in f.reservations)
      && (r.Err? ==> r == Err(CapacityExceeded) || r == Err(IdsExhausted))
  {
    EvictionSuffices(f.sessions, kept, Reserved(f) + count, f.capacity);
  }

  lemma KeepingRefusesIff(f: Cache, count: nat, kept: map<SessionId, Session>, c': Cache, r: Result<Token, Error>)
    requires ReservesKeeping(f, count, kept, c', r)
    ensures r == Err(CapacityExceeded) <==> Reserved(f) + count > f.capacity
    ensures r.Err? ==> r == Err(CapacityExceeded) || (r == Err(IdsExhausted) && f.nextId in f.reservations)
  {
    AdmissionRefusesIff(f, count, kept);
  }

  /** Reserving fails for capacity exactly when the request exceeds what one session may hold or
    * what the other reservations leave, however many sessions are cached; otherwise it fails only
    * if the id counter has started over and come to a reservation that is still held. */
  lemma ReserveRefusesIff(c: Cache, identity: Identity, count: nat, now: int, c': Cache, r: Result<Token, Error>)
    requires CacheInv(c) && Reserves(c, identity, identity, count, now, c', r)
    ensures var held := if c.key == GenerationKey(identity) then Reserved(c) else 0;
      && (r == Err(CapacityExceeded) <==> count > PerSessionCapacity(c.capacity) || held + count > c.capacity)
      && (r.Err? ==> r == Err(CapacityExceeded) || (r == Err(IdsExhausted) && c.wrapped && c.nextId in c.reservations))
  {
    var f := Refreshed(c, now, GenerationKey(identity));
    assert Reserved(f) == if c.key == GenerationKey(identity) then Reserved(c) else 0;
    if count <= PerSessionCapacity(c.capacity) {
      var kept :| ReservesKeeping(f, count, kept, c', r);
      KeepingRefusesIff(f, count, kept, c', r);
      if f.nextId in f.reservations { assert ReservationFits(c, c.nextId); }
    }
  }

  /** A reservation that fits beside what is cached costs no session that was used in the last ten
    * minutes. */
  lemma FittingEvictsNothing(c: Cache, identity: Identity, count: nat, now: int, c': Cache, r: Result<Token, Error>,
                             sid: SessionId)
    requires Reserves(c, identity, identity, count, now, c', r) && c.key == GenerationKey(identity)
    requires |c.sessions| < 8 && Used(c) + Reserved(c) + count <= c.capacity
    requires sid in c.sessions && now - c.sessions[sid].lastAccess < 600
    ensures sid in c'.sessions && c'.sessions[sid] == c.sessions[sid]
  {
    var f := Refreshed(c, now, GenerationKey(identity));
    FewerSessions(c.sessions, f.sessions);
    if count <= PerSessionCapacity(c.capacity) {
      var kept :| ReservesKeeping(f, count, kept, c', r);
      assert !TooFull(f.sessions, Reserved(f) + count, f.capacity);
    }
  }

  lemma FewerSessions(all: map<SessionId, Session>, some: map<SessionId, Session>)
    requires Keeps(all, some)
    ensures |some| <= |all| && Sum(some, SessionSize) <= Sum(all, SessionSize)
  {
    SumSubset(some, all, SessionSize);
    SubsetSize(some.Keys, all.Keys);
  }

  /** Which refusal a continuation meets, and in what order the checks are made. */
  lemma ReadRefuses(c: Cache, q: Cursor, limit: nat, criteria: Criteria, identity: Identity, now: int)
    ensures var r := ReadSlice(c, q, limit, criteria, identity, now).1;
      var valid := q.session != [] && q.identity.fingerprint != [] && q.identity.snapshot != [] && q.position > 0;
      var alive := q.session in c.sessions && now - c.sessions[q.session].lastAccess < 600;
      var own := alive && c.sessions[q.session].identity == identity;
      var fits := own && c.sessions[q.session].criteria == criteria
                  && c.sessions[q.session].first <= q.position < |c.sessions[q.session].ids|;
      && (r == Err(SnapshotChanged) <==> valid && (q.identity != identity || (alive && !own)))
      && (r == Err(CursorExpired) <==> valid && q.identity == identity && !alive)
      && (r == Err(CursorInvalid) <==> !valid || (q.identity == identity && own && !fits))
      && (r.Err? ==> r == Err(SnapshotChanged) || r == Err(CursorExpired) || r == Err(CursorInvalid))
  {
  }

  /** No size_t sum the admission code forms can overflow. */
  lemma SumsFitSizeT(c: Cache, count: nat)
    requires CacheInv(c) && count <= PerSessionCapacity(c.capacity)
    ensures Used(c) + Reserved(c) + count <= SIZE_MAX
  {
  }

  // ---------------------------------------------------------------- the state, updated in place

  /** SSearchSessionState.  Every method is one critical section; the branches that would call
    * std::terminate are shown unreachable. */
  class SearchSessions {
    const capacity: nat
    const perSession: nat
    var sessions: map<SessionId, Session>
    var reservations: map<nat, Reservation>
    var key: Bytes
    var used: int
    var reserved: int
    var nextId: nat
    ghost var wrapped: bool

    ghost function View(): Cache
      reads this
    {
      Cache(capacity, sessions, reservations, key, nextId, wrapped)
    }

    /** The counters are the sums over the sessions and over the reservations. */
    ghost predicate Counted()
      reads this
    {
      used == Used(View()) && reserved == Reserved(View()) && perSession == PerSessionCapacity(capacity)
    }

    ghost predicate Valid()
      reads this
    {
      CacheInv(View()) && Counted()
    }

    constructor (budgetBytes: nat)
      requires 0 < budgetBytes <= SIZE_MAX
      ensures Valid() && View() == Cache(budgetBytes / 16, map[], map[], [], 1, false)
    {
      capacity := budgetBytes / BOOK_ID_ALLOWANCE;
      perSession := PerSessionCapacity(budgetBytes / BOOK_ID_ALLOWANCE);
      sessions, reservations, key, used, reserved, nextId, wrapped := map[], map[], [], 0, 0, 1, false;
    }

    method RemoveSession(sid: SessionId)
      requires Counted() && sid in sessions
      modifies this`sessions, this`used
      ensures Counted() && sessions == old(sessions) - {sid}
    {
      SumRemove(sessions, sid, SessionSize);
      var count := |sessions[sid].ids|;
      if count > used {
        assert false; // std::terminate
      }
      used := used - count;
      sessions := sessions - {sid};
    }

    method Purge(now: int)
      requires Counted()
      modifies this`sessions, this`used
      ensures Counted() && View() == Purged(old(View()), now)
    {
      var todo := sessions.Keys;
      while todo != {}
        invariant Counted()
        invariant todo <= sessions.Keys <= old(sessions).Keys
        invariant forall s :: s in sessions ==> sessions[s] == old(sessions)[s]
        invariant forall s :: s in old(sessions) && s !in todo ==> (s in sessions <==> Live(old(sessions)[s], now))
        decreases todo
      {
        var s :| s in todo;
        todo := todo - {s};
        if !Live(sessions[s], now) { RemoveSession(s); }
      }
      assert sessions == Purged(old(View()), now).sessions;
    }

    method RemoveAllSessions()
      requires Counted()
      modifies this`sessions, this`used
      ensures Counted() && sessions == map[]
    {
      while sessions != map[]
        invariant Counted()
        decreases |sessions|
      {
        var s :| s in sessions;
        assert |sessions - {s}| < |sessions|;
        RemoveSession(s);
      }
    }

    method Activate(generation: Bytes)
      requires Counted()
      modifies this`sessions, this`used, this`reservations, this`reserved, this`key
      ensures Counted() && View() == Activated(old(View()), generation)
    {
      if key == generation { return; }
      key := generation;
      RemoveAllSessions();
      reservations := map[];
      reserved := 0;
    }

    /** Removes one session no other session was used before. */
    method EvictLeastRecentlyUsed() returns (victim: SessionId)
      requires Counted() && sessions != map[]
      modifies this`sessions, this`used
      ensures Counted() && victim in old(sessions) && sessions == old(sessions) - {victim}
      ensures LeastRecent(old(sessions), victim)
    {
      victim :| victim in sessions;
      var todo := sessions.Keys;
      while todo != {}
        invariant todo <= sessions.Keys && victim in sessions && Counted() && sessions == old(sessions)
        invariant forall s :: s in sessions && s !in todo ==> sessions[victim].lastAccess <= sessions[s].lastAccess
        decreases todo
      {
        var s :| s in todo;
        todo := todo - {s};
        if sessions[s].lastAccess < sessions[victim].lastAccess { victim := s; }
      }
      RemoveSession(victim);
    }

    /** The eviction loop of reserve and publish: `others` counts everything but the sessions. */
    method MakeRoom(others: nat)
      requires Counted()
      modifies this`sessions, this`used
      ensures Counted() && Evicts(old(sessions), sessions, others, capacity)
    {
      while sessions != map[] && (|sessions| >= MAX_SESSIONS || used + others > capacity)
        invariant Counted()
        invariant forall after ::
          Evicts(sessions, after, others, capacity) ==> Evicts(old(sessions), after, others, capacity)
        decreases |sessions|
      {
        ghost var before := sessions;
        var victim := EvictLeastRecentlyUsed();
        Without(before, victim);
        forall after | Evicts(sessions, after, others, capacity) ensures Evicts(before, after, others, capacity) {
          assert EvictsNext(before, victim, after, others, capacity);
        }
      }
      assert Evicts(sessions, sessions, others, capacity);
    }

    /** Makes room for `count` ids and takes a reservation for them, or refuses. */
    method AdmitOrRefuse(count: nat) returns (r: Result<Token, Error>, ghost kept: map<SessionId, Session>)
      requires Counted()
      modifies this
      ensures Evicts(old(sessions), kept, old(reserved) + count, capacity)
      ensures Counted() && (View(), r) == Admission(old(View()), count, kept)
    {
      MakeRoom(reserved + count);
      kept := sessions;
      if used + reserved + count > capacity {
        r := Err(CapacityExceeded);
      } else if nextId in reservations {
        r := Err(IdsExhausted);
      } else {
        r := Ok(Token(nextId, key, count));
        Admit(count);
      }
    }

    /** The body of ReserveSearchSessionIds once the catalog identity was confirmed. */
    method ReserveLocked(identity: Identity, count: nat, now: int) returns (r: Result<Token, Error>)
      requires Counted()
      modifies this
      ensures Counted() && Reserves(old(View()), identity, identity, count, now, View(), r)
    {
      Purge(now);
      Activate(GenerationKey(identity));
      ghost var f := View();
      assert f == Refreshed(old(View()), now, GenerationKey(identity));
      if count > perSession { return Err(CapacityExceeded); }
      ghost var kept;
      r, kept := AdmitOrRefuse(count);
      assert ReservesKeeping(f, count, kept, View(), r);
    }

    method Admit(count: nat)
      requires Counted() && nextId !in reservations
      modifies this`reservations, this`nextId, this`wrapped, this`reserved
      ensures Counted() && View() == WithReservation(old(View()), count)
    {
      SumPut(reservations, nextId, Reservation(key, count), ReservedSize);
      reservations := reservations[nextId := Reservation(key, count)];
      wrapped := wrapped || nextId == ID_MAX;
      nextId := if nextId == ID_MAX then 1 else nextId + 1;
      reserved := reserved + count;
    }

    /** ReserveSearchSessionIds. */
    method Reserve(current: Identity, identity: Identity, count: nat, now: int) returns (r: Result<Token, Error>)
      requires Valid()
      modifies this
      ensures Valid() && Reserves(old(View()), current, identity, count, now, View(), r)
    {
      if current != identity { return Err(SnapshotChanged); }
      r := ReserveLocked(identity, count, now);
      ReservesInv(old(View()), current, identity, count, now, View(), r);
    }

    /** RemoveReservationLocked; the two accounting checks never fire for a token of this cache. */
    method RemoveReservation(t: Token) returns (known: bool)
      requires Counted() && TokenHeld(View(), t)
      modifies this`reservations, this`reserved
      ensures Counted() && View() == Released(old(View()), t)
      ensures known <==> t.id in old(reservations)
    {
      if t.id !in reservations {
        assert reservations - {t.id} == reservations;
        return false;
      }
      SumRemove(reservations, t.id, ReservedSize);
      if reservations[t.id].key != t.key || reservations[t.id].count != t.count || t.count > reserved {
        assert false; // std::terminate
      }
      reserved := reserved - t.count;
      reservations := reservations - {t.id};
      return true;
    }

    /** ReleaseSearchSessionReservation. */
    method Release(t: Token)
      requires Valid() && TokenHeld(View(), t)
      modifies this
      ensures Valid() && View() == Released(old(View()), t)
    {
      ReleasedInv(View(), t);
      var known := RemoveReservation(t);
    }

    /** The body of PublishSearchSession once the catalog identity was confirmed. */
    method PublishLocked(s: Session, t: Token, sid: SessionId) returns (r: Result<Cursor, Error>)
      requires Counted()
      modifies this
      ensures Counted() && Publishes(old(View()), s.identity, s, t, sid, View(), r)
    {
      Purge(s.lastAccess);
      Activate(GenerationKey(s.identity));
      ghost var f := View();
      if |s.ids| > perSession { return Err(CapacityExceeded); }
      if t.id !in reservations || t.key != GenerationKey(s.identity) { return Err(SnapshotChanged); }
      SumRemove(reservations, t.id, ReservedSize);
      if reservations[t.id] != Reservation(t.key, t.count) || t.count > reserved || |s.ids| != t.count {
        return Err(LogicError);
      }
      ghost var kept;
      r, kept := InstallOrRefuse(s, t, sid);
      assert PublishesKeeping(f, s, t, sid, kept, View(), r);
    }

    /** Makes room for the session and publishes it, or refuses. */
    method InstallOrRefuse(s: Session, t: Token, sid: SessionId)
      returns (r: Result<Cursor, Error>, ghost kept: map<SessionId, Session>)
      requires Counted() && TokenHeld(View(), t) && t.id in reservations && |s.ids| == t.count <= reserved
      modifies this
      ensures Evicts(old(sessions), kept, old(reserved), capacity)
      ensures Counted() && (View(), r) == Publication(old(View()), s, t, sid, kept)
    {
      var others := reserved - t.count;
      MakeRoom(others + |s.ids|);
      kept := sessions;
      if used + others + |s.ids| > capacity {
        r := Err(CapacityExceeded);
      } else if sid in sessions {
        r := Err(SessionIdCollision);
      } else {
        r := Ok(Cursor(sid, s.identity, s.first));
        Install(s, t, sid);
      }
    }

    /** Inserts the session and gives its reservation back. */
    method Install(s: Session, t: Token, sid: SessionId)
      requires Counted() && TokenHeld(View(), t) && t.id in reservations && sid !in sessions
      modifies this`sessions, this`used, this`reservations, this`reserved
      ensures Counted() && View() == WithSession(old(View()), s, t, sid)
    {
      SumPut(sessions, sid, s, SessionSize);
      sessions := sessions[sid := s];
      used := used + |s.ids|;
      var known := RemoveReservation(t);
      if !known {
        assert false; // std::terminate
      }
    }

    /** PublishSearchSession; `sid` is the freshly drawn session id. */
    method Publish(current: Identity, s: Session, t: Token, sid: SessionId) returns (r: Result<Cursor, Error>)
      requires Valid()
      modifies this
      ensures Valid() && Publishes(old(View()), current, s, t, sid, View(), r)
    {
      if current != s.identity { return Err(SnapshotChanged); }
      r := PublishLocked(s, t, sid);
      PublishesInv(old(View()), current, s, t, sid, View(), r);
    }

    /** RemoveSearchSession. */
    method Remove(sid: SessionId)
      requires Valid()
      modifies this
      ensures Valid() && View() == Removed(old(View()), sid)
    {
      RemovedInv(View(), sid);
      if sid !in sessions {
        assert sessions - {sid} == sessions;
        return;
      }
      RemoveSession(sid);
    }

    /** The locked part of ReadSearchSessionSlice. */
    method ReadLocked(q: Cursor, limit: nat, criteria: Criteria, now: int) returns (r: Result<Slice, Error>)
      requires Counted() && CursorValid(q)
      modifies this`sessions, this`used
      ensures Counted() && (View(), r) == ReadSlice(old(View()), q, limit, criteria, q.identity, now)
    {
      Purge(now);
      if q.session !in sessions { return Err(CursorExpired); }
      var s := sessions[q.session];
      if s.identity != q.identity {
        RemoveSession(q.session);
        return Err(SnapshotChanged);
      }
      if s.criteria != criteria || q.position < s.first || q.position >= |s.ids| { return Err(CursorInvalid); }
      var end := q.position + Min(limit, |s.ids| - q.position);
      var next := if end < |s.ids| then Some(q.(position := end)) else None;
      SumPut(sessions, q.session, s.(lastAccess := now), SessionSize);
      SumRemove(sessions, q.session, SessionSize);
      sessions := sessions[q.session := s.(lastAccess := now)];
      return Ok(Slice(s.ids[q.position..end], next));
    }

    /** ReadSearchSessionSlice. */
    method Read(q: Cursor, limit: nat, criteria: Criteria, identity: Identity, now: int)
      returns (r: Result<Slice, Error>)
      requires Valid()
      modifies this
      ensures Valid() && (View(), r) == ReadSlice(old(View()), q, limit, criteria, identity, now)
    {
      if !CursorValid(q) { return Err(CursorInvalid); }
      if q.identity != identity { return Err(SnapshotChanged); }
      r := ReadLocked(q, limit, criteria, now);
      ReadSliceInv(old(View()), q, limit, criteria, identity, now);
    }
  }
}
