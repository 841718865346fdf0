/**
 * The in-memory store of parked sessions (server/session_store.go): entries
 * expire, the store is capped, and an entry that leaves without being resumed
 * has its onEvict callback run.
 *
 * A parked entry's receivers and callback are known by a token, a fresh number
 * for each Park. `disposed` counts callback runs by token. Clock readings are
 * parameters.
 */
module SessionStore {
  import opened AccessUnits

  const DEFAULT_MAX_PARKED: nat := 1024
  const DEFAULT_RESUME_WINDOW: nat := 60_000_000_000

  // ---- Keys ----

  const NUL: char := '\0'

  function ScopedKey(tenant: string, id: string): string {
    tenant + [NUL] + id
  }

  predicate NulFree(s: string) {
    NUL !in s
  }

  // t continues with a NUL in u.
  predicate ExtendsAcrossNul(t: string, u: string) {
    |t| < |u| && u[..|t|] == t && u[|t|] == NUL
  }

  // Resume requests cannot cross tenants: unless one tenant's name continues the
  // other's across a NUL, a key determines tenant and session, whatever session
  // ID a client sends. NUL-free names never continue another across one.
  lemma KeyDetermines(t: string, i: string, u: string, j: string)
    requires ScopedKey(t, i) == ScopedKey(u, j) && !ExtendsAcrossNul(t, u) && !ExtendsAcrossNul(u, t)
    ensures t == u && i == j
  {
    SharedKeySplits(t, i, u, j);
    SharedKeySplits(u, j, t, i);
    assert i == ScopedKey(t, i)[|t| + 1..] && j == ScopedKey(u, j)[|u| + 1..];
  }

  ghost predicate ShareKey(t: string, u: string) {
    exists i, j :: ScopedKey(t, i) == ScopedKey(u, j)
  }

  // Exactly when two tenants can share a key: they are the same, or one of them
  // is the other continued across a NUL. So "a" and "a\0b" collide, and names
  // that merely hold a NUL, such as "a\0b" and "c", do not.
  lemma TenantsShareKeyIff(t: string, u: string)
    ensures ShareKey(t, u) <==> t == u || ExtendsAcrossNul(t, u) || ExtendsAcrossNul(u, t)
  {
    if ShareKey(t, u) {
      var i, j :| ScopedKey(t, i) == ScopedKey(u, j);
      SharedKeySplits(t, i, u, j);
      SharedKeySplits(u, j, t, i);
    }
    if t == u {
      assert ScopedKey(t, "") == ScopedKey(u, "");
    }
    if ExtendsAcrossNul(t, u) {
      KeysCollide(t, u);
    }
    if ExtendsAcrossNul(u, t) {
      KeysCollide(u, t);
    }
  }

  lemma SharedKeySplits(t: string, i: string, u: string, j: string)
    requires ScopedKey(t, i) == ScopedKey(u, j)
    ensures |t| == |u| ==> t == u
    ensures |t| < |u| ==> ExtendsAcrossNul(t, u)
  {
    var k := ScopedKey(t, i);
    assert k[..|t|] == t && k[|t|] == NUL;
    assert k[..|u|] == u;
    if |t| < |u| {
      assert u[..|t|] == k[..|u|][..|t|] == k[..|t|];
      assert u[|t|] == k[..|u|][|t|];
    }
  }

  // The session ID with which tenant t reaches the key of tenant u's session "".
  lemma KeysCollide(t: string, u: string)
    requires ExtendsAcrossNul(t, u)
    ensures t != u && ScopedKey(t, u[|t| + 1..] + [NUL]) == ScopedKey(u, "")
  {
    assert u == t + [NUL] + u[|t| + 1..];
  }

  // ---- The store as a value ----

  datatype Parked = Parked(id: string, token: nat, expiresAt: int)

  datatype Store = Store(byID: map<string, Parked>, disposed: multiset<nat>)

  // One entry is evicted: it is removed and its callback runs.
  function EvictKey(s: Store, k: string): Store {
    if k in s.byID then Store(s.byID - {k}, s.disposed + multiset{s.byID[k].token}) else s
  }

  function EvictAll(s: Store, keys: seq<string>): Store {
    if keys == [] then s else EvictKey(EvictAll(s, keys[..|keys| - 1]), keys[|keys| - 1])
  }

  lemma EvictAllAppend(s: Store, keys: seq<string>, k: string)
    ensures EvictAll(s, keys + [k]) == EvictKey(EvictAll(s, keys), k)
  {
    assert (keys + [k])[..|keys|] == keys;
  }

  predicate Expired(p: Parked, now: int) {
    now > p.expiresAt
  }

  // t is s with exactly the expired entries evicted.
  ghost predicate Swept(s: Store, now: int, t: Store) {
    && (exists keys :: t == EvictAll(s, keys))
    && (forall k :: k in t.byID ==> k in s.byID && t.byID[k] == s.byID[k])
    && (forall k :: k in s.byID ==> (k in t.byID <==> !Expired(s.byID[k], now)))
  }

  // t is s with the soonest-expiring entries evicted, as few as leave room for
  // one more.
  ghost predicate MadeRoom(s: Store, cap: nat, t: Store) {
    && (exists keys :: t == EvictAll(s, keys))
    && |t.byID| < cap
    && (|s.byID| < cap ==> t == s)
    && (|s.byID| >= cap ==> |t.byID| == cap - 1)
    && SoonestLeft(s, t)
  }

  // What was evicted expires no later than what was kept.
  ghost predicate SoonestLeft(s: Store, t: Store) {
    && (forall k :: k in t.byID ==> k in s.byID && t.byID[k] == s.byID[k])
    && (forall j, k :: j in s.byID && j !in t.byID && k in t.byID ==> s.byID[j].expiresAt <= s.byID[k].expiresAt)
  }

  // Park at time `now`: sweep, make room, insert.
  ghost predicate ParkStep(s: Store, cap: nat, key: string, p: Parked, now: int, t: Store) {
    exists swept, room ::
      Swept(s, now, swept) && MadeRoom(swept, cap, room) && t == room.(byID := room.byID[key := p])
  }

  // Resume at time `now`: sweep, then take the entry out, if it is there.
  ghost predicate ResumeStep(s: Store, key: string, now: int, found: Option<nat>, t: Store) {
    exists swept ::
      && Swept(s, now, swept)
      && (if key in swept.byID
          then found == Some(swept.byID[key].token) && t == swept.(byID := swept.byID - {key})
          else found == None && t == swept)
  }

  // ---- What a parked entry lives through ----

  // A sweep before the deadline leaves the entry, one after it does not.
  lemma SweepKeepsUntil(s: Store, now: int, t: Store, key: string)
    requires Swept(s, now, t) && key in s.byID
    ensures now <= s.byID[key].expiresAt ==> key in t.byID && t.byID[key] == s.byID[key]
    ensures now > s.byID[key].expiresAt ==> key !in t.byID
    ensures |t.byID| <= |s.byID|
  {
    assert s.byID.Keys == t.byID.Keys + (s.byID.Keys - t.byID.Keys);
  }

  // A Park puts its entry in. While there is room it leaves every other entry
  // that has not expired.
  lemma ParkKeepsOthers(s: Store, cap: nat, key: string, p: Parked, now: int, t: Store, other: string)
    requires ParkStep(s, cap, key, p, now, t)
    ensures key in t.byID && t.byID[key] == p
    ensures other in s.byID && other != key && |s.byID| < cap && now <= s.byID[other].expiresAt
            ==> other in t.byID && t.byID[other] == s.byID[other]
  {
    var swept, room :|
      Swept(s, now, swept) && MadeRoom(swept, cap, room) && t == room.(byID := room.byID[key := p]);
    if other in s.byID {
      SweepKeepsUntil(s, now, swept, other);
    }
  }

  // A Resume gets the entry until the deadline and nothing after it, and leaves
  // every other entry that has not expired. What it leaves was there before.
  lemma ResumeUntilDeadline(s: Store, key: string, now: int, found: Option<nat>, t: Store, other: string)
    requires ResumeStep(s, key, now, found, t)
    ensures key in s.byID ==>
              found == if now <= s.byID[key].expiresAt then Some(s.byID[key].token) else None
    ensures key !in s.byID ==> found == None
    ensures key !in t.byID && forall k :: k in t.byID ==> k in s.byID && t.byID[k] == s.byID[k]
    ensures other in s.byID && other != key && now <= s.byID[other].expiresAt
            ==> other in t.byID && t.byID[other] == s.byID[other]
  {
    var swept :|
      && Swept(s, now, swept)
      && (if key in swept.byID
          then found == Some(swept.byID[key].token) && t == swept.(byID := swept.byID - {key})
          else found == None && t == swept);
    if other in s.byID {
      SweepKeepsUntil(s, now, swept, other);
    }
    if key in s.byID {
      SweepKeepsUntil(s, now, swept, key);
    }
  }

  // ---- The store as an object ----

  class MemoryStore {
    const resumeTTL: int
    const maxParked: nat
    var byID: map<string, Parked>
    var disposed: multiset<nat>

    // NewMemorySessionStoreWithCap
    constructor (ttl: int, cap: int)
      ensures Valid() && View() == Store(map[], multiset{})
      ensures resumeTTL == (if ttl <= 0 then DEFAULT_RESUME_WINDOW else ttl)
      ensures maxParked == if cap <= 0 then DEFAULT_MAX_PARKED else cap
    {
      resumeTTL := if ttl <= 0 then DEFAULT_RESUME_WINDOW else ttl;
      maxParked := if cap <= 0 then DEFAULT_MAX_PARKED else cap;
      byID, disposed := map[], multiset{};
    }

    ghost function View(): Store
      reads this
    {
      Store(byID, disposed)
    }

    ghost predicate Valid()
      reads this
    {
      maxParked >= 1 && |byID| <= maxParked
    }

    // delete(s.byID, k) and the entry's callback.
    method Dispose(k: string)
      requires k in byID
      modifies this`byID, this`disposed
      ensures View() == EvictKey(old(View()), k) && |byID| == |old(byID)| - 1
    {
      var p := byID[k];
      assert byID.Keys == (byID - {k}).Keys + {k};
      byID := byID - {k};
      disposed := disposed + multiset{p.token};
    }

    // evictExpiredLocked
    method EvictExpired(now: int)
      modifies this`byID, this`disposed
      ensures Swept(old(View()), now, View()) && |byID| <= |old(byID)|
    {
      ghost var keys: seq<string> := [];
      var todo := byID.Keys;
      while todo != {}
        invariant todo <= byID.Keys && |byID| <= |old(byID)|
        invariant View() == EvictAll(old(View()), keys)
        invariant forall k :: k in byID ==> k in old(byID) && byID[k] == old(byID)[k]
        invariant forall k :: k in old(byID) ==> (k in byID <==> k in todo || !Expired(old(byID)[k], now))
        decreases todo
      {
        var k :| k in todo;
        todo := todo - {k};
        if now > byID[k].expiresAt {
          EvictAllAppend(old(View()), keys, k);
          keys := keys + [k];
          Dispose(k);
        }
      }
    }

    // The key of the entry closest to expiry.
    method Soonest() returns (oldest: string)
      requires |byID| > 0
      ensures oldest in byID && forall k :: k in byID ==> byID[oldest].expiresAt <= byID[k].expiresAt
    {
      var todo := byID.Keys;
      assert todo != {};
      oldest :| oldest in todo;
      todo := todo - {oldest};
      while todo != {}
        invariant todo <= byID.Keys && oldest in byID
        invariant forall k :: k in byID && k !in todo ==> byID[oldest].expiresAt <= byID[k].expiresAt
        decreases todo
      {
        var k :| k in todo;
        todo := todo - {k};
        if byID[k].expiresAt < byID[oldest].expiresAt {
          oldest := k;
        }
      }
    }

    // The cap loop of Park.
    method MakeRoom()
      requires Valid()
      modifies this`byID, this`disposed
      ensures MadeRoom(old(View()), maxParked, View())
    {
      ghost var keys: seq<string> := [];
      while |byID| >= maxParked
        invariant |byID| <= maxParked && View() == EvictAll(old(View()), keys)
        invariant |old(byID)| < maxParked ==> View() == old(View())
        invariant |old(byID)| >= maxParked ==> |byID| >= maxParked - 1
        invariant SoonestLeft(old(View()), View())
        decreases |byID|
      {
        var k := Soonest();
        EvictAllAppend(old(View()), keys, k);
        keys := keys + [k];
        Dispose(k);
      }
    }

    method Park(tenant: string, id: string, token: nat, now: int, later: int)
      requires Valid()
      modifies this`byID, this`disposed
      ensures Valid()
      ensures ParkStep(old(View()), maxParked, ScopedKey(tenant, id), Parked(id, token, later + resumeTTL), now, View())
    {
      EvictExpired(now);
      ghost var swept := View();
      MakeRoom();
      ghost var room := View();
      var key := ScopedKey(tenant, id);
      byID := byID[key := Parked(id, token, later + resumeTTL)];
      InsertedSize(room.byID, key, byID);
      assert Swept(old(View()), now, swept) && MadeRoom(swept, maxParked, room);
    }

    method Resume(tenant: string, id: string, now: int) returns (found: Option<nat>)
      requires Valid()
      modifies this`byID, this`disposed
      ensures Valid() && ResumeStep(old(View()), ScopedKey(tenant, id), now, found, View())
    {
      EvictExpired(now);
      ghost var swept := View();
      assert Swept(old(View()), now, swept);
      var key := ScopedKey(tenant, id);
      if key !in byID {
        return None;
      }
      found := Some(byID[key].token);
      assert byID.Keys == (byID - {key}).Keys + {key};
      byID := byID - {key};
    }
  }

  lemma InsertedSize(m: map<string, Parked>, k: string, after: map<string, Parked>)
    requires after.Keys == m.Keys + {k}
    ensures |after| <= |m| + 1
  {
    assert |after.Keys| <= |m.Keys| + 1;
  }
}
