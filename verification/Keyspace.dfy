/**
 The keyspace with lazy expiry: a table of values with absolute deadlines and an
 index of the keys that carry one. The clock reading is a parameter.
 */
module Keyspace {
  import opened Octets

  const NO_EXPIRY: int := 0
  const NO_KEY: int := -2
  const NO_TTL: int := -1

  datatype Value = Value(data: Bytes, expireAt: int) {
    predicate HasExpiry() {
      expireAt != NO_EXPIRY
    }

    predicate IsExpired(now: int) {
      HasExpiry() && expireAt <= now
    }
  }

  type Table = map<Bytes, Value>

  /** The abstract value of the database object. */
  datatype Store = Store(entries: Table, volatile: set<Bytes>, expired: nat)

  predicate GoodDeadline(t: int) {
    0 <= t <= INT64_MAX
  }

  /** What fits the C++ types: the deadline an int64_t, the size of the string one too. */
  predicate Storable(v: Value) {
    GoodDeadline(v.expireAt) && |v.data| <= INT64_MAX
  }

  /** The index holds exactly the keys with a deadline. */
  ghost predicate Consistent(s: Store) {
    && (forall k :: k in s.volatile <==> k in s.entries && s.entries[k].HasExpiry())
    && (forall k :: k in s.entries ==> Storable(s.entries[k]))
  }

  // ----- A plain table with deadlines, without index and without leftovers

  function LiveIn(m: Table, now: int): Table {
    map k | k in m && !m[k].IsExpired(now) :: m[k]
  }

  /** What a client can observe at `now`. */
  function Live(s: Store, now: int): Table {
    LiveIn(s.entries, now)
  }

  function Get(m: Table, k: Bytes): Option<Value> {
    if k in m then Some(m[k]) else None
  }

  // ----- The operations

  function Reclaim(s: Store, k: Bytes): Store {
    Store(s.entries - {k}, s.volatile - {k}, s.expired + 1)
  }

  function Lookup(s: Store, k: Bytes, now: int): (r: (Store, Option<Value>)) {
    if k !in s.entries then (s, None)
    else if s.entries[k].IsExpired(now) then (Reclaim(s, k), None)
    else (s, Some(s.entries[k]))
  }

  function SetString(s: Store, k: Bytes, data: Bytes, deadline: int): Store {
    Store(s.entries[k := Value(data, deadline)],
          if deadline == NO_EXPIRY then s.volatile - {k} else s.volatile + {k},
          s.expired)
  }

  /** The in-place write through the reference that a lookup returned. */
  function WriteData(s: Store, k: Bytes, data: Bytes): Store
    requires k in s.entries
  {
    s.(entries := s.entries[k := s.entries[k].(data := data)])
  }

  function Erase(s: Store, k: Bytes, now: int): (Store, bool) {
    var (s', v) := Lookup(s, k, now);
    if v.None? then (s', false)
    else (Store(s'.entries - {k}, s'.volatile - {k}, s'.expired), true)
  }

  function SetExpireAt(s: Store, k: Bytes, deadline: int, now: int): (Store, bool) {
    var (s', v) := Lookup(s, k, now);
    if v.None? then (s', false)
    else (Store(s'.entries[k := v.value.(expireAt := deadline)], s'.volatile + {k}, s'.expired), true)
  }

  function Persist(s: Store, k: Bytes, now: int): (Store, bool) {
    var (s', v) := Lookup(s, k, now);
    if v.None? || !v.value.HasExpiry() then (s', false)
    else (Store(s'.entries[k := v.value.(expireAt := NO_EXPIRY)], s'.volatile - {k}, s'.expired), true)
  }

  function Pttl(s: Store, k: Bytes, now: int): (Store, int) {
    var (s', v) := Lookup(s, k, now);
    if v.None? then (s', NO_KEY)
    else if !v.value.HasExpiry() then (s', NO_TTL)
    else (s', if v.value.expireAt - now > 0 then v.value.expireAt - now else 0)
  }

  // ----- Every operation keeps the index and acts on the live view as on a plain table

  /** What is live later is determined by what is live now. */
  lemma LiveLater(s: Store, now: int, later: int)
    requires now <= later
    ensures Live(s, later) == LiveIn(Live(s, now), later)
  {}

  lemma LookupRefines(s: Store, k: Bytes, now: int)
    requires Consistent(s)
    ensures var (s', v) := Lookup(s, k, now);
      && Consistent(s')
      && v == Get(Live(s, now), k)
      && Live(s', now) == Live(s, now)
      && (v.Some? ==> s' == s && k in s.entries && s.entries[k] == v.value && !v.value.IsExpired(now))
  {}

  /** A lookup drops at most the one key it was asked for, dead, and counts it. */
  lemma LookupCounts(s: Store, k: Bytes, now: int)
    requires Consistent(s)
    ensures var s' := Lookup(s, k, now).0;
      if k in s.entries && s.entries[k].expireAt != 0 && s.entries[k].expireAt <= now then
        s' == Store(s.entries - {k}, s.volatile - {k}, s.expired + 1)
      else s' == s
  {}

  lemma SetStringRefines(s: Store, k: Bytes, data: Bytes, deadline: int, now: int)
    requires Consistent(s) && Storable(Value(data, deadline))
    ensures Consistent(SetString(s, k, data, deadline))
    ensures Live(SetString(s, k, data, deadline), now) ==
              if deadline != NO_EXPIRY && deadline <= now then Live(s, now) - {k}
              else Live(s, now)[k := Value(data, deadline)]
  {}

  lemma WriteDataRefines(s: Store, k: Bytes, data: Bytes, now: int)
    requires Consistent(s) && k in Live(s, now) && |data| <= INT64_MAX
    ensures Consistent(WriteData(s, k, data))
    ensures Live(WriteData(s, k, data), now) == Live(s, now)[k := Live(s, now)[k].(data := data)]
  {}

  lemma EraseRefines(s: Store, k: Bytes, now: int)
    requires Consistent(s)
    ensures var (s', found) := Erase(s, k, now);
      && Consistent(s')
      && found == (k in Live(s, now))
      && Live(s', now) == Live(s, now) - {k}
  {
    LookupRefines(s, k, now);
  }

  lemma SetExpireAtRefines(s: Store, k: Bytes, deadline: int, now: int)
    requires Consistent(s) && GoodDeadline(deadline) && deadline != NO_EXPIRY
    ensures var (s', found) := SetExpireAt(s, k, deadline, now);
      && Consistent(s')
      && found == (k in Live(s, now))
      && Live(s', now) == if !found then Live(s, now)
                          else if deadline <= now then Live(s, now) - {k}
                          else Live(s, now)[k := Live(s, now)[k].(expireAt := deadline)]
  {
    LookupRefines(s, k, now);
  }

  lemma PersistRefines(s: Store, k: Bytes, now: int)
    requires Consistent(s)
    ensures var (s', cleared) := Persist(s, k, now);
      && Consistent(s')
      && cleared == (k in Live(s, now) && Live(s, now)[k].HasExpiry())
      && Live(s', now) == if cleared then Live(s, now)[k := Live(s, now)[k].(expireAt := NO_EXPIRY)] else Live(s, now)
  {
    LookupRefines(s, k, now);
  }

  lemma PttlRefines(s: Store, k: Bytes, now: int)
    requires Consistent(s)
    ensures var (s', ms) := Pttl(s, k, now);
      && Consistent(s')
      && Live(s', now) == Live(s, now)
      && ms == match Get(Live(s, now), k)
               case None => NO_KEY
               case Some(v) => if v.HasExpiry() then v.expireAt - now else NO_TTL
  {
    LookupRefines(s, k, now);
  }

  /**
   set_expire_at keeps the index right exactly when the deadline is not the 0 that means "none",
   or there is no live key to attach it to.
   */
  lemma SetExpireAtKeepsIndex(s: Store, k: Bytes, deadline: int, now: int)
    requires Consistent(s) && GoodDeadline(deadline)
    ensures Consistent(SetExpireAt(s, k, deadline, now).0) <==> deadline != NO_EXPIRY || k !in Live(s, now)
  {
    LookupRefines(s, k, now);
    var s' := SetExpireAt(s, k, deadline, now).0;
    if deadline != NO_EXPIRY {
      SetExpireAtRefines(s, k, deadline, now);
    } else if k in Live(s, now) {
      assert k in s'.volatile && !s'.entries[k].HasExpiry();
    }
  }

  /** A persistent key given the deadline 0 ends up in the index, without a deadline. */
  lemma ZeroDeadlineBreaksIndex(k: Bytes, now: int)
    ensures var s := Store(map[k := Value([], NO_EXPIRY)], {}, 0);
      && Consistent(s)
      && SetExpireAt(s, k, NO_EXPIRY, now).0 == Store(s.entries, {k}, 0)
      && !Consistent(SetExpireAt(s, k, NO_EXPIRY, now).0)
  {
    var s := Store(map[k := Value([], NO_EXPIRY)], {}, 0);
    assert k in Live(s, now);
    SetExpireAtKeepsIndex(s, k, NO_EXPIRY, now);
    assert s.entries[k := s.entries[k].(expireAt := NO_EXPIRY)] == s.entries;
  }
}
