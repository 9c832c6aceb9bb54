/** The idempotency store kept in memory, and one request handled from start to end. */
module IdempotencyStore {
  import opened Options

  const LOCK_TTL_MS: int := 60 * 1000

  datatype Entry =
    | Locked(bodyHash: string)
    | Complete(bodyHash: string, status: int, body: string)

  datatype Slot = Slot(value: Entry, expiresAt: int)

  type Memory = map<string, Slot>

  /** The abstract timed map: what the store holds at a given clock value. */
  function View(m: Memory, now: int): map<string, Entry> {
    map k | k in m && m[k].expiresAt >= now :: m[k].value
  }

  predicate Live(m: Memory, key: string, now: int) {
    key in m && m[key].expiresAt >= now
  }

  /** From `from` on, nobody can tell m' from m. */
  ghost predicate SameFrom(m: Memory, m': Memory, from: int) {
    forall t | t >= from :: View(m', t) == View(m, t)
  }

  /** At t, m' is m with the key held at this entry, or free once the deadline has passed. */
  ghost predicate HeldAt(m: Memory, m': Memory, key: string, entry: Entry, deadline: int, t: int) {
    View(m', t) == if t <= deadline then View(m, t)[key := entry] else View(m, t) - {key}
  }

  ghost predicate HeldFrom(m: Memory, m': Memory, key: string, entry: Entry, deadline: int, from: int) {
    forall t | t >= from :: HeldAt(m, m', key, entry, deadline, t)
  }

  /** Dropping what has expired cannot be seen from then on. */
  lemma CollectionIsInvisible(m: Memory, m': Memory, now: int)
    requires forall k :: k in m' <==> Live(m, k, now)
    requires forall k | k in m' :: k in m && m'[k] == m[k]
    ensures SameFrom(m, m', now)
  {
  }

  lemma ViewOfSet(m: Memory, key: string, entry: Entry, deadline: int, t: int)
    ensures View(m[key := Slot(entry, deadline)], t) ==
              if t <= deadline then View(m, t)[key := entry] else View(m, t) - {key}
  {
    var v, v' := View(m, t), View(m[key := Slot(entry, deadline)], t);
    if t <= deadline {
      assert v'.Keys == v.Keys + {key};
    } else {
      assert v'.Keys == v.Keys - {key};
    }
  }

  lemma SetHolds(m: Memory, m': Memory, key: string, entry: Entry, deadline: int, from: int)
    requires SameFrom(m, m', from)
    ensures HeldFrom(m, m'[key := Slot(entry, deadline)], key, entry, deadline, from)
  {
    var held := m'[key := Slot(entry, deadline)];
    forall t | t >= from ensures HeldAt(m, held, key, entry, deadline, t) {
      assert View(m', t) == View(m, t);
      ViewOfSet(m', key, entry, deadline, t);
    }
  }

  /** Two holds of one key, one after the other, are the second alone. */
  lemma HeldTwice(v: map<string, Entry>, v1: map<string, Entry>, v2: map<string, Entry>, key: string,
                  e1: Entry, e2: Entry, held1: bool, held2: bool)
    requires v1 == if held1 then v[key := e1] else v - {key}
    requires v2 == if held2 then v1[key := e2] else v1 - {key}
    ensures v2 == if held2 then v[key := e2] else v - {key}
  {
  }

  lemma HeldThenHeld(m: Memory, m1: Memory, m2: Memory, key: string, e1: Entry, e2: Entry, d1: int, d2: int, t0: int,
                     t2: int)
    requires t0 <= t2 && HeldFrom(m, m1, key, e1, d1, t0) && HeldFrom(m1, m2, key, e2, d2, t2)
    ensures HeldFrom(m, m2, key, e2, d2, t2)
  {
    forall t | t >= t2 ensures HeldAt(m, m2, key, e2, d2, t) {
      assert HeldAt(m, m1, key, e1, d1, t) && HeldAt(m1, m2, key, e2, d2, t);
      HeldTwice(View(m, t), View(m1, t), View(m2, t), key, e1, e2, t <= d1, t <= d2);
    }
  }

  lemma HeldThenGone(v: map<string, Entry>, v1: map<string, Entry>, key: string, e1: Entry, held1: bool)
    requires key !in v && v1 == if held1 then v[key := e1] else v - {key}
    ensures v1 - {key} == v
  {
  }

  lemma HeldThenReleased(m: Memory, m1: Memory, m2: Memory, key: string, e1: Entry, d1: int, t0: int, t2: int)
    requires t0 <= t2 && HeldFrom(m, m1, key, e1, d1, t0) && key !in View(m, t0)
    requires forall t :: View(m2, t) == View(m1, t) - {key}
    ensures SameFrom(m, m2, t2)
  {
    forall t | t >= t2 ensures View(m2, t) == View(m, t) {
      assert HeldAt(m, m1, key, e1, d1, t);
      HeldThenGone(View(m, t), View(m1, t), key, e1, t <= d1);
    }
  }

  function Find(view: map<string, Entry>, key: string): Option<Entry> {
    if key in view then Some(view[key]) else None
  }

  datatype Response =
    | Fresh(status: int, body: string)
    | Replayed(status: int, body: string)
    | InProgress            // 409
    | BodyMismatch          // 422
    | Thrown(error: string)

  /** The answer to a request that did not get the lock, from what it then fetches. */
  function Contended(existing: Option<Entry>, bodyHash: string): Response {
    match existing
    case None => InProgress
    case Some(entry) =>
      if entry.bodyHash != bodyHash then BodyMismatch
      else if entry.Locked? then InProgress
      else Replayed(entry.status, entry.body)
  }

  /** What a request that did not get the lock is told, by what the store then holds: a response is replayed
      exactly when it is stored for this body, and until then the request is in progress. */
  ghost predicate Refusal(view: map<string, Entry>, key: string, bodyHash: string, response: Response) {
    && (response == BodyMismatch <==> key in view && view[key].bodyHash != bodyHash)
    && (response == InProgress <==> key in view ==> view[key] == Locked(bodyHash))
    && (forall st, b :: response == Replayed(st, b) <==> key in view && view[key] == Complete(bodyHash, st, b))
  }

  datatype Outcome = Returns(status: int, body: string) | Throws(error: string)

  class IdempotencyService {
    var memory: Memory

    constructor ()
      ensures memory == map[]
    {
      memory := map[];
    }

    method GcMemory(now: int)
      modifies this
      ensures forall k :: k in memory <==> Live(old(memory), k, now)
      ensures forall k | k in memory :: k in old(memory) && memory[k] == old(memory)[k]
    {
      var keys := memory.Keys;
      while keys != {}
        invariant keys <= memory.Keys
        invariant forall k :: k in memory <==> k in old(memory) && (k in keys || old(memory)[k].expiresAt >= now)
        invariant forall k | k in memory :: k in old(memory) && memory[k] == old(memory)[k]
        decreases keys
      {
        var k :| k in keys;
        if memory[k].expiresAt < now {
          memory := memory - {k};
        }
        keys := keys - {k};
      }
    }

    /** Succeeds exactly when the view lacks the key; collection is invisible from `gcNow` on. */
    method MemorySetNx(key: string, value: Entry, ttlMs: int, gcNow: int, now: int) returns (ok: bool)
      requires gcNow <= now
      modifies this
      ensures ok <==> key !in View(old(memory), gcNow)
      ensures ok ==> HeldFrom(old(memory), memory, key, value, now + ttlMs, gcNow)
      ensures !ok ==> SameFrom(old(memory), memory, gcNow)
    {
      GcMemory(gcNow);
      CollectionIsInvisible(old(memory), memory, gcNow);
      if key in memory {
        return false;
      }
      SetHolds(old(memory), memory, key, value, now + ttlMs, gcNow);
      memory := memory[key := Slot(value, now + ttlMs)];
      ok := true;
    }

    method MemoryGet(key: string, now: int) returns (entry: Option<Entry>)
      modifies this
      ensures entry == Find(View(old(memory), now), key)
      ensures SameFrom(old(memory), memory, now)
    {
      if key !in memory {
        return None;
      }
      if memory[key].expiresAt < now {
        memory := memory - {key};
        return None;
      }
      entry := Some(memory[key].value);
    }

    method MemorySet(key: string, value: Entry, ttlMs: int, now: int)
      modifies this
      ensures forall t :: View(memory, t) == if t <= now + ttlMs then View(old(memory), t)[key := value]
                                             else View(old(memory), t) - {key}
    {
      forall t ensures View(memory[key := Slot(value, now + ttlMs)], t) ==
                       if t <= now + ttlMs then View(memory, t)[key := value] else View(memory, t) - {key}
      {
        ViewOfSet(memory, key, value, now + ttlMs, t);
      }
      memory := memory[key := Slot(value, now + ttlMs)];
    }

    method TryAcquireLock(key: string, bodyHash: string, lockTtlMs: int, gcNow: int, now: int) returns (ok: bool)
      requires gcNow <= now
      modifies this
      ensures ok <==> key !in View(old(memory), gcNow)
      ensures ok ==> HeldFrom(old(memory), memory, key, Locked(bodyHash), now + lockTtlMs, gcNow)
      ensures !ok ==> SameFrom(old(memory), memory, gcNow)
    {
      ok := MemorySetNx(key, Locked(bodyHash), lockTtlMs, gcNow, now);
    }

    method Fetch(key: string, now: int) returns (entry: Option<Entry>)
      modifies this
      ensures entry == Find(View(old(memory), now), key)
      ensures SameFrom(old(memory), memory, now)
    {
      entry := MemoryGet(key, now);
    }

    method StoreResponse(key: string, bodyHash: string, status: int, body: string, ttlMs: int, now: int)
      modifies this
      ensures forall t :: View(memory, t) == if t <= now + ttlMs
                                             then View(old(memory), t)[key := Complete(bodyHash, status, body)]
                                             else View(old(memory), t) - {key}
    {
      MemorySet(key, Complete(bodyHash, status, body), ttlMs, now);
    }

    method Release(key: string)
      modifies this
      ensures forall t :: View(memory, t) == View(old(memory), t) - {key}
    {
      memory := memory - {key};
    }

    /** One request with nothing interleaved, its clock readings in order; `storeError` is what storing the
        response throws, if anything. The handler runs exactly when the key is free; its stored success is
        what is then replayed, a failure of the handler or of the store leaves no trace. */
    method Handle(key: string, bodyHash: string, ttlMs: int, handler: Outcome, storeError: Option<string>, t0: int,
                  t1: int, t2: int)
      returns (response: Response, ran: bool)
      requires t0 <= t1 <= t2
      modifies this
      ensures ran <==> key !in View(old(memory), t0)
      ensures !ran ==> response == Contended(Find(View(old(memory), t2), key), bodyHash)
                       && SameFrom(old(memory), memory, t2)
      ensures !ran ==> Refusal(View(old(memory), t2), key, bodyHash, response)
      ensures ran && handler.Returns? && storeError.None? ==>
                && response == Fresh(handler.status, handler.body)
                && HeldFrom(old(memory), memory, key, Complete(bodyHash, handler.status, handler.body), t2 + ttlMs, t2)
      ensures ran && (handler.Throws? || storeError.Some?) ==>
                && response == Thrown(if handler.Throws? then handler.error else storeError.value)
                && SameFrom(old(memory), memory, t2)
    {
      var acquired := TryAcquireLock(key, bodyHash, LOCK_TTL_MS, t0, t1);
      if !acquired {
        var existing := Fetch(key, t2);
        ran := false;
        if existing.None? {
          response := InProgress;
        } else if existing.value.bodyHash != bodyHash {
          response := BodyMismatch;
        } else if existing.value.Locked? {
          response := InProgress;
        } else {
          response := Replayed(existing.value.status, existing.value.body);
        }
        return;
      }
      ran := true;
      ghost var locked := memory;
      if handler.Returns? && storeError.None? {
        StoreResponse(key, bodyHash, handler.status, handler.body, ttlMs, t2);
        HeldThenHeld(old(memory), locked, memory, key, Locked(bodyHash),
                     Complete(bodyHash, handler.status, handler.body), t1 + LOCK_TTL_MS, t2 + ttlMs, t0, t2);
        return Fresh(handler.status, handler.body), true;
      }
      Release(key);
      HeldThenReleased(old(memory), locked, memory, key, Locked(bodyHash), t1 + LOCK_TTL_MS, t0, t2);
      response := Thrown(if handler.Throws? then handler.error else storeError.value);
    }
  }
}
