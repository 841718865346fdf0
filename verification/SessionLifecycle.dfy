/**
 * Session IDs across connect, resume, disconnect and eviction: the handshake
 * (session/session.go:885-931) and the server's park-on-disconnect
 * (server/server.go:1317-1385) on top of the parked-session store.
 *
 * The steps may come in any order and at any clock reading. Allocated IDs are
 * fresh and tenant names hold no NUL.
 */
module SessionLifecycle {
  import opened AccessUnits
  import opened SessionStore

  datatype Session = Session(tenant: string, id: string)

  function KeyOf(s: Session): string {
    ScopedKey(s.tenant, s.id)
  }

  // `parks` counts Park calls and numbers their tokens; `resumed` counts, by
  // token, the resumes that got a parked entry.
  datatype System = System(
    store: Store,
    sessions: map<nat, Session>,
    connects: nat,
    parks: nat,
    resumed: multiset<nat>,
    issued: set<string>)

  datatype Event =
    | Connect(tenant: string, hello: string, newId: string, now: int)  // hello is HELLO.SessionID
    | Disconnect(n: nat, park: bool, now: int, later: int)             // park is false while shutting down
    | Tick(now: int)                                                   // the background sweep

  const INITIAL: System := System(Store(map[], multiset{}), map[], 0, 0, multiset{}, {})

  datatype Limits = Limits(cap: nat, ttl: int)

  function Add(s: System, session: Session): System {
    s.(sessions := s.sessions[s.connects := session], connects := s.connects + 1)
  }

  // What a connect does, given what the store answers.
  ghost predicate Answers(
      s: System, tenant: string, hello: string, newId: string, now: int, found: Option<nat>, store: Store, t: System)
  {
    && (if hello != "" then ResumeStep(s.store, ScopedKey(tenant, hello), now, found, store)
        else found == None && store == s.store)
    && t == if found.Some?
            then Add(s.(store := store, resumed := s.resumed + multiset{found.value}), Session(tenant, hello))
            else Add(s.(store := store, issued := s.issued + {newId}), Session(tenant, newId))
  }

  ghost predicate Step(s: System, ev: Event, lim: Limits, t: System) {
    match ev
    case Connect(tenant, hello, newId, now) =>
      && NulFree(tenant) && newId !in s.issued
      && exists found, store :: Answers(s, tenant, hello, newId, now, found, store, t)
    case Disconnect(n, park, now, later) =>
      && n in s.sessions
      && var session := s.sessions[n];
         if !park then t == s.(sessions := s.sessions - {n})
         else
           && ParkStep(s.store, lim.cap, KeyOf(session), Parked(session.id, s.parks, later + lim.ttl), now, t.store)
           && t == s.(sessions := s.sessions - {n}, parks := s.parks + 1, store := t.store)
    case Tick(now) => Swept(s.store, now, t.store) && t == s.(store := t.store)
  }

  ghost predicate IsRun(states: seq<System>, events: seq<Event>, lim: Limits) {
    && |states| == |events| + 1
    && states[0] == INITIAL
    && forall i :: 0 <= i < |events| ==> Step(states[i], events[i], lim, states[i + 1])
  }

  // ---- What every run keeps ----

  // Live sessions have allocated IDs and no two share tenant and ID.
  ghost predicate SessionsOk(s: System) {
    && (forall n :: n in s.sessions ==>
          n < s.connects && NulFree(s.sessions[n].tenant) && s.sessions[n].id in s.issued)
    && (forall m, n :: m in s.sessions && n in s.sessions && s.sessions[m] == s.sessions[n] ==> m == n)
  }

  // k is the key of a tenant and an allocated ID.
  ghost predicate IsSessionKey(k: string, id: string, issued: set<string>) {
    id in issued && exists tenant :: NulFree(tenant) && k == ScopedKey(tenant, id)
  }

  // Parked entries are under their own keys, and none of them is live.
  ghost predicate ParkedOk(s: System, store: Store) {
    && (forall k :: k in store.byID ==> IsSessionKey(k, store.byID[k].id, s.issued))
    && (forall n :: n in s.sessions ==> KeyOf(s.sessions[n]) !in store.byID)
  }

  ghost predicate HoldsToken(store: Store, k: string, token: nat) {
    k in store.byID && store.byID[k].token == token
  }

  ghost predicate IsParked(store: Store, token: nat) {
    exists k :: HoldsToken(store, k, token)
  }

  // Each parked entry so far is in exactly one place: still parked, resumed
  // once, or disposed of once.
  ghost predicate TokensOk(s: System, store: Store) {
    && (forall token: nat :: token < s.parks ==>
          store.disposed[token] + s.resumed[token] + (if IsParked(store, token) then 1 else 0) == 1)
    && (forall token: nat :: token >= s.parks ==> store.disposed[token] == 0 && s.resumed[token] == 0)
    && (forall k :: k in store.byID ==> store.byID[k].token < s.parks)
    && (forall j, k :: j in store.byID && k in store.byID && store.byID[j].token == store.byID[k].token ==> j == k)
  }

  ghost predicate StoreOk(s: System, store: Store, cap: nat) {
    ParkedOk(s, store) && TokensOk(s, store) && |store.byID| <= cap
  }

  ghost predicate Linear(s: System, cap: nat) {
    SessionsOk(s) && StoreOk(s, s.store, cap)
  }

  lemma SameParked(a: Store, b: Store, token: nat)
    requires forall k :: HoldsToken(a, k, token) <==> HoldsToken(b, k, token)
    ensures IsParked(a, token) == IsParked(b, token)
  {
    if IsParked(a, token) {
      var k :| HoldsToken(a, k, token);
      assert HoldsToken(b, k, token);
    }
    if IsParked(b, token) {
      var k :| HoldsToken(b, k, token);
      assert HoldsToken(a, k, token);
    }
  }

  // ---- Eviction ----

  lemma EvictTokens(s: System, store: Store, k: string)
    requires TokensOk(s, store) && k in store.byID
    ensures TokensOk(s, EvictKey(store, k))
  {
    var after, gone := EvictKey(store, k), store.byID[k].token;
    forall token: nat | token < s.parks
      ensures after.disposed[token] + s.resumed[token] + (if IsParked(after, token) then 1 else 0) == 1
    {
      if token == gone {
        assert HoldsToken(store, k, token);
        assert !IsParked(after, token);
      } else {
        SameParked(store, after, token);
      }
    }
  }

  lemma EvictKeyKeeps(s: System, store: Store, k: string, cap: nat)
    requires StoreOk(s, store, cap)
    ensures StoreOk(s, EvictKey(store, k), cap)
  {
    if k in store.byID {
      EvictTokens(s, store, k);
      assert store.byID.Keys == (store.byID - {k}).Keys + {k};
    }
  }

  lemma {:induction false} EvictAllKeeps(s: System, store: Store, keys: seq<string>, cap: nat)
    requires StoreOk(s, store, cap)
    ensures StoreOk(s, EvictAll(store, keys), cap)
  {
    if keys != [] {
      EvictAllKeeps(s, store, keys[..|keys| - 1], cap);
      EvictKeyKeeps(s, EvictAll(store, keys[..|keys| - 1]), keys[|keys| - 1], cap);
    }
  }

  lemma SweepKeeps(s: System, store: Store, now: int, t: Store, cap: nat)
    requires StoreOk(s, store, cap) && Swept(store, now, t)
    ensures StoreOk(s, t, cap)
  {
    var keys :| t == EvictAll(store, keys);
    EvictAllKeeps(s, store, keys, cap);
  }

  lemma RoomKeeps(s: System, store: Store, t: Store, cap: nat)
    requires StoreOk(s, store, cap) && MadeRoom(store, cap, t)
    ensures StoreOk(s, t, cap)
  {
    var keys :| t == EvictAll(store, keys);
    EvictAllKeeps(s, store, keys, cap);
  }

  // ---- Steps ----

  // The key of a live session is not parked, so its Park never overwrites an
  // entry, whatever was evicted first.
  lemma InsertKeeps(s: System, room: Store, n: nat, p: Parked, t: System, cap: nat)
    requires SessionsOk(s) && StoreOk(s, room, cap) && |room.byID| < cap
    requires n in s.sessions && p.id == s.sessions[n].id && p.token == s.parks
    requires t == s.(sessions := s.sessions - {n}, parks := s.parks + 1,
                     store := room.(byID := room.byID[KeyOf(s.sessions[n]) := p]))
    ensures KeyOf(s.sessions[n]) !in room.byID
    ensures Linear(t, cap)
  {
    var key := KeyOf(s.sessions[n]);
    assert ParkedOk(t, t.store) by {
      InsertParked(s, room, n, key, p, t);
    }
    assert TokensOk(t, t.store) by {
      InsertTokens(s, room, key, p, t);
    }
    assert |t.store.byID| <= cap by {
      InsertedSize(room.byID, key, t.store.byID);
    }
    assert SessionsOk(t) by {
      DropSession(s, n, t);
    }
  }

  lemma DropSession(s: System, n: nat, t: System)
    requires SessionsOk(s) && t.sessions == s.sessions - {n} && t.connects == s.connects && t.issued == s.issued
    ensures SessionsOk(t)
  {}

  lemma AddSession(s: System, session: Session, t: System)
    requires SessionsOk(s) && NulFree(session.tenant) && session.id in t.issued && s.issued <= t.issued
    requires forall n :: n in s.sessions ==> s.sessions[n] != session
    requires t.sessions == s.sessions[s.connects := session] && t.connects == s.connects + 1
    ensures SessionsOk(t)
  {}

  lemma InsertParked(s: System, room: Store, n: nat, key: string, p: Parked, t: System)
    requires SessionsOk(s) && ParkedOk(s, room)
    requires n in s.sessions && p.id == s.sessions[n].id && key == KeyOf(s.sessions[n])
    requires t.sessions == s.sessions - {n} && t.store.byID == room.byID[key := p] && t.issued == s.issued
    ensures ParkedOk(t, t.store)
  {
    forall m | m in t.sessions
      ensures KeyOf(t.sessions[m]) != key
    {
      if KeyOf(t.sessions[m]) == key {
        KeyDetermines(t.sessions[m].tenant, t.sessions[m].id, s.sessions[n].tenant, s.sessions[n].id);
      }
    }
    assert IsSessionKey(key, p.id, s.issued);
  }

  lemma InsertTokens(s: System, room: Store, key: string, p: Parked, t: System)
    requires TokensOk(s, room) && key !in room.byID && p.token == s.parks
    requires t.store == room.(byID := room.byID[key := p]) && t.parks == s.parks + 1 && t.resumed == s.resumed
    ensures TokensOk(t, t.store)
  {
    forall token: nat | token < t.parks
      ensures t.store.disposed[token] + t.resumed[token] + (if IsParked(t.store, token) then 1 else 0) == 1
    {
      if token == s.parks {
        assert HoldsToken(t.store, key, token);
      } else {
        SameParked(room, t.store, token);
      }
    }
  }

  lemma DisconnectKeeps(s: System, n: nat, park: bool, now: int, later: int, lim: Limits, t: System)
    requires Linear(s, lim.cap) && Step(s, Disconnect(n, park, now, later), lim, t)
    ensures Linear(t, lim.cap)
  {
    if park {
      ParkKeeps(s, n, Parked(s.sessions[n].id, s.parks, later + lim.ttl), now, t, lim.cap);
    } else {
      LeaveKeeps(s, n, t, lim.cap);
    }
  }

  // A session that ends without being parked.
  lemma LeaveKeeps(s: System, n: nat, t: System, cap: nat)
    requires Linear(s, cap) && t == s.(sessions := s.sessions - {n})
    ensures Linear(t, cap)
  {
    DropSession(s, n, t);
  }

  lemma ParkKeeps(s: System, n: nat, p: Parked, now: int, t: System, cap: nat)
    requires Linear(s, cap) && n in s.sessions && p.id == s.sessions[n].id && p.token == s.parks
    requires ParkStep(s.store, cap, KeyOf(s.sessions[n]), p, now, t.store)
    requires t == s.(sessions := s.sessions - {n}, parks := s.parks + 1, store := t.store)
    ensures Linear(t, cap)
  {
    var swept, room :|
      && Swept(s.store, now, swept) && MadeRoom(swept, cap, room)
      && t.store == room.(byID := room.byID[KeyOf(s.sessions[n]) := p]);
    SweepKeeps(s, s.store, now, swept, cap);
    RoomKeeps(s, swept, room, cap);
    InsertKeeps(s, room, n, p, t, cap);
  }

  // A resumed entry is the one parked for this tenant and this ID.
  lemma ResumedIsOwn(s: System, store: Store, tenant: string, hello: string)
    requires ParkedOk(s, store) && NulFree(tenant) && ScopedKey(tenant, hello) in store.byID
    ensures store.byID[ScopedKey(tenant, hello)].id == hello && hello in s.issued
  {
    var key := ScopedKey(tenant, hello);
    var owner :| NulFree(owner) && key == ScopedKey(owner, store.byID[key].id);
    KeyDetermines(tenant, hello, owner, store.byID[key].id);
  }

  lemma TakeTokens(s: System, store: Store, key: string, t: System)
    requires TokensOk(s, store) && key in store.byID
    requires t.store == store.(byID := store.byID - {key}) && t.parks == s.parks
    requires t.resumed == s.resumed + multiset{store.byID[key].token}
    ensures TokensOk(t, t.store)
  {
    var taken := store.byID[key].token;
    forall token: nat | token < t.parks
      ensures t.store.disposed[token] + t.resumed[token] + (if IsParked(t.store, token) then 1 else 0) == 1
    {
      if token == taken {
        assert HoldsToken(store, key, token);
        assert !IsParked(t.store, token);
      } else {
        SameParked(store, t.store, token);
      }
    }
  }

  lemma TakeKeeps(s: System, swept: Store, tenant: string, hello: string, t: System, cap: nat)
    requires SessionsOk(s) && StoreOk(s, swept, cap) && NulFree(tenant) && ScopedKey(tenant, hello) in swept.byID
    requires var key := ScopedKey(tenant, hello);
      t == Add(s.(store := swept.(byID := swept.byID - {key}), resumed := s.resumed + multiset{swept.byID[key].token}),
               Session(tenant, hello))
    ensures Linear(t, cap)
  {
    var key := ScopedKey(tenant, hello);
    ResumedIsOwn(s, swept, tenant, hello);
    assert TokensOk(t, t.store) by {
      TakeTokens(s, swept, key, t);
    }
    assert SessionsOk(t) by {
      AddSession(s, Session(tenant, hello), t);
    }
    assert ParkedOk(t, t.store) by {
      TakeParked(s, swept, tenant, hello, t);
    }
    assert |t.store.byID| <= cap by {
      assert swept.byID.Keys == t.store.byID.Keys + {key};
    }
  }

  lemma TakeParked(s: System, swept: Store, tenant: string, hello: string, t: System)
    requires SessionsOk(s) && ParkedOk(s, swept) && t.issued == s.issued
    requires t.store.byID == swept.byID - {ScopedKey(tenant, hello)}
    requires t.sessions == s.sessions[s.connects := Session(tenant, hello)]
    ensures ParkedOk(t, t.store)
  {}

  lemma FreshKeeps(s: System, store: Store, tenant: string, newId: string, t: System, cap: nat)
    requires SessionsOk(s) && StoreOk(s, store, cap) && NulFree(tenant) && newId !in s.issued
    requires t == Add(s.(store := store, issued := s.issued + {newId}), Session(tenant, newId))
    ensures Linear(t, cap)
  {
    var key := ScopedKey(tenant, newId);
    if key in store.byID {
      ResumedIsOwn(s, store, tenant, newId);
    }
  }

  lemma ConnectKeeps(s: System, tenant: string, hello: string, newId: string, now: int, lim: Limits, t: System)
    requires Linear(s, lim.cap) && Step(s, Connect(tenant, hello, newId, now), lim, t)
    ensures Linear(t, lim.cap)
  {
    var found, store :| Answers(s, tenant, hello, newId, now, found, store, t);
    if hello == "" {
      FreshKeeps(s, store, tenant, newId, t, lim.cap);
    } else {
      var key := ScopedKey(tenant, hello);
      var swept :| Swept(s.store, now, swept)
        && (if key in swept.byID
            then found == Some(swept.byID[key].token) && store == swept.(byID := swept.byID - {key})
            else found == None && store == swept);
      SweepKeeps(s, s.store, now, swept, lim.cap);
      if key in swept.byID {
        TakeKeeps(s, swept, tenant, hello, t, lim.cap);
      } else {
        FreshKeeps(s, swept, tenant, newId, t, lim.cap);
      }
    }
  }

  // Session-ID linearity, over every run: a tenant and ID are held by at most
  // one live session or one parked entry, never both; every parked entry is
  // still parked, was resumed once with no callback, or had its callback run
  // once; and the store never exceeds its cap.
  lemma {:induction false} SessionsAreLinear(states: seq<System>, events: seq<Event>, lim: Limits, n: nat)
    requires IsRun(states, events, lim) && n < |states|
    ensures Linear(states[n], lim.cap)
  {
    if n == 0 {
      StartIsLinear(lim.cap);
    } else {
      SessionsAreLinear(states, events, lim, n - 1);
      assert Step(states[n - 1], events[n - 1], lim, states[n]);
      StepKeeps(states[n - 1], events[n - 1], lim, states[n]);
    }
  }

  lemma StartIsLinear(cap: nat)
    ensures Linear(INITIAL, cap)
  {}

  lemma StepKeeps(s: System, ev: Event, lim: Limits, t: System)
    requires Linear(s, lim.cap) && Step(s, ev, lim, t)
    ensures Linear(t, lim.cap)
  {
    match ev
    case Connect(tenant, hello, newId, now) => ConnectKeeps(s, tenant, hello, newId, now, lim, t);
    case Disconnect(n, park, now, later) => DisconnectKeeps(s, n, park, now, later, lim, t);
    case Tick(now) => TickKeeps(s, now, lim, t);
  }

  // ---- Coming back in time ----

  // A step that leaves a parked entry alone: no clock reading after its deadline,
  // no request for its key, and no Park that has to make room.
  ghost predicate Spares(s: System, ev: Event, key: string, deadline: int, cap: nat) {
    match ev
    case Connect(tenant, hello, _, now) => now <= deadline && ScopedKey(tenant, hello) != key
    case Disconnect(_, park, now, _) => park ==> now <= deadline && |s.store.byID| < cap
    case Tick(now) => now <= deadline
  }

  ghost predicate HoldsEntry(store: Store, key: string, p: Parked) {
    key in store.byID && store.byID[key] == p
  }

  lemma SparedStays(s: System, ev: Event, lim: Limits, t: System, key: string, p: Parked)
    requires ParkedOk(s, s.store) && Step(s, ev, lim, t)
    requires HoldsEntry(s.store, key, p) && Spares(s, ev, key, p.expiresAt, lim.cap)
    ensures HoldsEntry(t.store, key, p)
  {
    match ev
    case Connect(tenant, hello, newId, now) => SparedByConnect(s, tenant, hello, newId, now, lim, t, key, p);
    case Disconnect(n, park, now, later) => SparedByDisconnect(s, n, park, now, later, lim, t, key, p);
    case Tick(now) => SweepKeepsUntil(s.store, now, t.store, key);
  }

  lemma SparedByConnect(
      s: System, tenant: string, hello: string, newId: string, now: int, lim: Limits, t: System, key: string, p: Parked)
    requires Step(s, Connect(tenant, hello, newId, now), lim, t)
    requires HoldsEntry(s.store, key, p) && now <= p.expiresAt && ScopedKey(tenant, hello) != key
    ensures HoldsEntry(t.store, key, p)
  {
    var found, store :| Answers(s, tenant, hello, newId, now, found, store, t);
    if hello != "" {
      ResumeUntilDeadline(s.store, ScopedKey(tenant, hello), now, found, store, key);
    }
  }

  lemma SparedByDisconnect(
      s: System, n: nat, park: bool, now: int, later: int, lim: Limits, t: System, key: string, p: Parked)
    requires ParkedOk(s, s.store) && Step(s, Disconnect(n, park, now, later), lim, t)
    requires HoldsEntry(s.store, key, p) && (park ==> now <= p.expiresAt && |s.store.byID| < lim.cap)
    ensures HoldsEntry(t.store, key, p)
  {
    if park {
      var session := s.sessions[n];
      assert KeyOf(session) != key;
      ParkKeepsOthers(
        s.store, lim.cap, KeyOf(session), Parked(session.id, s.parks, later + lim.ttl), now, t.store, key);
    }
  }

  // Step i of a run parks a session, under this key and with this entry.
  ghost predicate ParksAt(
      states: seq<System>, events: seq<Event>, lim: Limits, i: nat, session: Session, p: Parked)
  {
    && i < |events| < |states| && events[i].Disconnect? && events[i].park
    && events[i].n in states[i].sessions && session == states[i].sessions[events[i].n]
    && p == Parked(session.id, states[i].parks, events[i].later + lim.ttl)
  }

  ghost predicate SparedBetween(states: seq<System>, events: seq<Event>, cap: nat, key: string, p: Parked, i: nat, j: nat)
    requires j <= |events| < |states|
  {
    forall k :: i < k < j ==> Spares(states[k], events[k], key, p.expiresAt, cap)
  }

  lemma {:induction false} StaysParked(
      states: seq<System>, events: seq<Event>, lim: Limits, i: nat, j: nat, session: Session, p: Parked)
    requires IsRun(states, events, lim) && ParksAt(states, events, lim, i, session, p) && i < j < |states|
    requires SparedBetween(states, events, lim.cap, KeyOf(session), p, i, j)
    ensures HoldsEntry(states[j].store, KeyOf(session), p)
  {
    var before := j - 1;
    assert Step(states[before], events[before], lim, states[j]);
    if before == i {
      ParkKeepsOthers(states[i].store, lim.cap, KeyOf(session), p, events[i].now, states[j].store, "");
    } else {
      StaysParked(states, events, lim, i, before, session, p);
      SessionsAreLinear(states, events, lim, before);
      SparedStays(states[before], events[before], lim, states[j], KeyOf(session), p);
    }
  }

  // The next session that connects.
  ghost predicate Admits(s: System, t: System, session: Session) {
    s.connects in t.sessions && t.sessions[s.connects] == session
  }

  lemma AsksForEntry(s: System, tenant: string, hello: string, newId: string, now: int, lim: Limits, t: System, p: Parked)
    requires Step(s, Connect(tenant, hello, newId, now), lim, t) && hello != ""
    requires HoldsEntry(s.store, ScopedKey(tenant, hello), p)
    ensures t.parks == s.parks && ScopedKey(tenant, hello) !in t.store.byID
    ensures forall k :: k in t.store.byID ==> k in s.store.byID && t.store.byID[k] == s.store.byID[k]
    ensures if now <= p.expiresAt then
        Admits(s, t, Session(tenant, hello)) && t.issued == s.issued && t.resumed == s.resumed + multiset{p.token}
      else
        Admits(s, t, Session(tenant, newId)) && t.resumed == s.resumed
  {
    var found, store :| Answers(s, tenant, hello, newId, now, found, store, t);
    ResumeUntilDeadline(s.store, ScopedKey(tenant, hello), now, found, store, "");
  }

  // In every run: a parked session that asks for its ID again before its deadline,
  // after steps that spare its entry, is resumed under that ID; its entry is
  // resumed exactly once and its callback never run.
  lemma ReconnectResumes(
      states: seq<System>, events: seq<Event>, lim: Limits, i: nat, j: nat, session: Session, p: Parked,
      newId: string, now: int)
    requires IsRun(states, events, lim) && ParksAt(states, events, lim, i, session, p) && i < j < |events|
    requires SparedBetween(states, events, lim.cap, KeyOf(session), p, i, j)
    requires events[j] == Connect(session.tenant, session.id, newId, now) && session.id != "" && now <= p.expiresAt
    ensures Admits(states[j], states[j + 1], session) && states[j + 1].issued == states[j].issued
    ensures states[j + 1].resumed[p.token] == 1 && states[j + 1].store.disposed[p.token] == 0
  {
    StaysParked(states, events, lim, i, j, session, p);
    SessionsAreLinear(states, events, lim, j);
    assert Step(states[j], events[j], lim, states[j + 1]);
    TimelyReconnect(states[j], session.tenant, session.id, newId, now, lim, states[j + 1], p);
  }

  lemma TimelyReconnect(
      s: System, tenant: string, hello: string, newId: string, now: int, lim: Limits, t: System, p: Parked)
    requires Linear(s, lim.cap) && Step(s, Connect(tenant, hello, newId, now), lim, t) && hello != ""
    requires HoldsEntry(s.store, ScopedKey(tenant, hello), p) && now <= p.expiresAt
    ensures Admits(s, t, Session(tenant, hello)) && t.issued == s.issued
    ensures t.resumed[p.token] == 1 && t.store.disposed[p.token] == 0
  {
    AsksForEntry(s, tenant, hello, newId, now, lim, t, p);
    ConnectKeeps(s, tenant, hello, newId, now, lim, t);
    OnceResumed(s, t, ScopedKey(tenant, hello), p);
  }

  lemma OnceResumed(s: System, t: System, key: string, p: Parked)
    requires TokensOk(s, s.store) && TokensOk(t, t.store) && t.parks == s.parks
    requires HoldsEntry(s.store, key, p) && t.resumed == s.resumed + multiset{p.token}
    ensures t.resumed[p.token] == 1 && t.store.disposed[p.token] == 0
  {
    assert HoldsToken(s.store, key, p.token);
  }

  // After the deadline the session gets a fresh ID, and the callback of its entry
  // has run exactly once.
  lemma LateReconnectIsFresh(
      s: System, tenant: string, hello: string, newId: string, now: int, lim: Limits, t: System, p: Parked)
    requires Linear(s, lim.cap) && Step(s, Connect(tenant, hello, newId, now), lim, t) && hello != ""
    requires HoldsEntry(s.store, ScopedKey(tenant, hello), p) && now > p.expiresAt
    ensures Admits(s, t, Session(tenant, newId))
    ensures t.resumed[p.token] == 0 && t.store.disposed[p.token] == 1
  {
    AsksForEntry(s, tenant, hello, newId, now, lim, t, p);
    ConnectKeeps(s, tenant, hello, newId, now, lim, t);
    OnceGone(s, t, ScopedKey(tenant, hello), p);
  }

  // A token that left the store without being resumed was disposed of.
  lemma OnceGone(s: System, t: System, key: string, p: Parked)
    requires TokensOk(s, s.store) && TokensOk(t, t.store) && t.parks == s.parks && t.resumed == s.resumed
    requires HoldsEntry(s.store, key, p) && key !in t.store.byID
    requires forall k :: k in t.store.byID ==> k in s.store.byID && t.store.byID[k] == s.store.byID[k]
    ensures t.resumed[p.token] == 0 && t.store.disposed[p.token] == 1
  {
    assert HoldsToken(s.store, key, p.token);
    assert !IsParked(t.store, p.token);
  }

  lemma TickKeeps(s: System, now: int, lim: Limits, t: System)
    requires Linear(s, lim.cap) && Step(s, Tick(now), lim, t)
    ensures Linear(t, lim.cap)
  {
    SweepKeeps(s, s.store, now, t.store, lim.cap);
  }
}
