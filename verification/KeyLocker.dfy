/** The lock store of anarchoredis/localstate/keylocker.go: how it takes and drops locks, how it
    waits for them to be dropped, and where the two do not meet because one of them leaves out
    the key prefix. */
module KeyLocker {
  import opened Badger

  const KEY_PREFIX: string := "anarcho:key:"
  const SENTINEL: string := "OK"

  type Db = map<string, string>

  /** A change of the lock database as a subscriber sees it; a deletion carries an empty value. */
  datatype Event = Event(key: string, value: string)

  /** What AwaitUnlocked comes to: it returns, or it still waits for some keys. */
  datatype Verdict = Free | Blocked(wait: set<string>)

  function LockName(key: string): string { KEY_PREFIX + key }

  function Names(keys: seq<string>): set<string> { set k | k in keys }
  function LockNames(keys: seq<string>): set<string> { set k | k in keys :: LockName(k) }

  lemma LockNameInjective(a: string, b: string)
    ensures LockName(a) == LockName(b) ==> a == b
  {
    assert LockName(a)[|KEY_PREFIX|..] == a && LockName(b)[|KEY_PREFIX|..] == b;
  }

  /** LockKeys puts the sentinel under each key as it stands, without the prefix. */
  function Locked(db: Db, keys: seq<string>): Db {
    db + map k | k in Names(keys) :: SENTINEL
  }

  /** What LockKeys is meant to do: the sentinel under each key with the prefix. */
  function LockedAsIntended(db: Db, keys: seq<string>): Db {
    db + map k | k in LockNames(keys) :: SENTINEL
  }

  /** UnlockKeys deletes each key with the prefix. */
  function Unlocked(db: Db, keys: seq<string>): Db { db - LockNames(keys) }

  /** AwaitUnlocked looks each key up with the prefix. */
  predicate SeenLocked(db: Db, key: string) { LockName(key) in db }

  function WaitSet(db: Db, keys: seq<string>): set<string> {
    set k | k in keys && SeenLocked(db, k)
  }

  function TrimPrefix(s: string): string {
    if KEY_PREFIX <= s then s[|KEY_PREFIX|..] else s
  }

  /** The keys whose locks a batch of events tells to be gone. */
  function Removed(batch: seq<Event>): set<string> {
    set e | e in batch && e.value != SENTINEL :: TrimPrefix(e.key)
  }

  function RemovedIn(batches: seq<seq<Event>>): set<string> {
    if batches == [] then {} else Removed(batches[0]) + RemovedIn(batches[1..])
  }

  /** The subscription passes on an event if some key waited for, without the prefix, begins its key. */
  predicate Delivered(wait: set<string>, e: Event) { exists w | w in wait :: w <= e.key }

  // ---- what locking and unlocking come to ----

  /** After LockKeys a key is seen to be locked if and only if it was before, or the command's keys
      happen to include it in prefixed form. */
  lemma LockSeenIff(db: Db, keys: seq<string>, key: string)
    ensures SeenLocked(Locked(db, keys), key) <==> SeenLocked(db, key) || LockName(key) in keys
  {}

  /** As intended, the keys seen to be locked are those locked before and the command's own. */
  lemma LockSeenAsIntended(db: Db, keys: seq<string>, key: string)
    ensures SeenLocked(LockedAsIntended(db, keys), key) <==> SeenLocked(db, key) || key in keys
  {
    if LockName(key) in LockNames(keys) {
      var k :| k in keys && LockName(k) == LockName(key);
      LockNameInjective(k, key);
    }
  }

  /** UnlockKeys undoes LockKeys if and only if every key was already there with the sentinel, or
      is another one's prefixed form, and no prefixed form was there. */
  lemma UnlockUndoesLockIff(db: Db, keys: seq<string>)
    ensures Unlocked(Locked(db, keys), keys) == db <==>
            (forall k | k in keys ::
               && LockName(k) !in db
               && (k in LockNames(keys) || (k in db && db[k] == SENTINEL)))
  {
    var after := Unlocked(Locked(db, keys), keys);
    if forall k | k in keys :: LockName(k) !in db && (k in LockNames(keys) || (k in db && db[k] == SENTINEL)) {
      assert after.Keys == db.Keys;
      forall x | x in db ensures after[x] == db[x] {}
    } else {
      var k :| k in keys && !(LockName(k) !in db && (k in LockNames(keys) || (k in db && db[k] == SENTINEL)));
      if LockName(k) in db {
        assert LockName(k) in LockNames(keys) && LockName(k) !in after;
      } else {
        assert k in after && after[k] == SENTINEL;
      }
    }
  }

  /** As intended it does if and only if none of the keys was locked before: exactly when the locks
      are mutually exclusive. */
  lemma UnlockUndoesIntendedLockIff(db: Db, keys: seq<string>)
    ensures Unlocked(LockedAsIntended(db, keys), keys) == db <==> forall k | k in keys :: !SeenLocked(db, k)
  {
    var after := Unlocked(LockedAsIntended(db, keys), keys);
    assert after == db - LockNames(keys);
    if forall k | k in keys :: !SeenLocked(db, k) {
      assert after == db;
    } else {
      var k :| k in keys && SeenLocked(db, k);
      assert LockName(k) in LockNames(keys) && LockName(k) !in after;
    }
  }

  // ---- waiting ----

  /** The callback over the batches in turn: it ends the wait with the batch that leaves nothing. */
  function Drain(wait: set<string>, batches: seq<seq<Event>>): Verdict
    decreases |batches|
  {
    if batches == [] then Blocked(wait)
    else
      var rest := wait - Removed(batches[0]);
      if rest == {} then Free else Drain(rest, batches[1..])
  }

  /** A wait ends if and only if every key waited for has had its removal told; until then the keys
      waited for are those that have not. */
  lemma {:induction false} DrainIff(wait: set<string>, batches: seq<seq<Event>>)
    requires wait != {}
    ensures Drain(wait, batches).Free? <==> wait <= RemovedIn(batches)
    ensures Drain(wait, batches).Blocked? ==> Drain(wait, batches).wait == wait - RemovedIn(batches)
    decreases |batches|
  {
    if batches != [] {
      var rest := wait - Removed(batches[0]);
      if rest != {} {
        DrainIff(rest, batches[1..]);
        assert wait <= RemovedIn(batches) <==> rest <= RemovedIn(batches[1..]);
        assert wait - RemovedIn(batches) == rest - RemovedIn(batches[1..]);
      } else {
        assert forall k | k in wait :: k in rest || k in Removed(batches[0]);
      }
    }
  }

  /** More batches only shrink the wait. */
  lemma WaitShrinks(wait: set<string>, batches: seq<seq<Event>>, more: seq<seq<Event>>)
    requires wait != {} && Drain(wait, batches + more).Blocked?
    ensures Drain(wait, batches).Blocked?
    ensures Drain(wait, batches + more).wait <= Drain(wait, batches).wait
  {
    DrainIff(wait, batches);
    DrainIff(wait, batches + more);
    RemovedInConcat(batches, more);
  }

  lemma {:induction false} RemovedInConcat(a: seq<seq<Event>>, b: seq<seq<Event>>)
    ensures RemovedIn(a + b) == RemovedIn(a) + RemovedIn(b)
  {
    if a == [] {
      assert a + b == b;
    } else {
      assert (a + b)[1..] == a[1..] + b;
      RemovedInConcat(a[1..], b);
    }
  }

  /** AwaitUnlocked: a lookup that fails counts as nothing locked. */
  function Await(db: Db, keys: seq<string>, faulty: set<string>, batches: seq<seq<Event>>): Verdict {
    if exists k | k in keys :: k in faulty then Free
    else if WaitSet(db, keys) == {} then Free
    else Drain(WaitSet(db, keys), Passed(WaitSet(db, keys), batches))
  }

  function Pass(wait: set<string>, batch: seq<Event>): seq<Event> {
    if batch == [] then []
    else (if Delivered(wait, batch[0]) then [batch[0]] else []) + Pass(wait, batch[1..])
  }

  function Passed(wait: set<string>, batches: seq<seq<Event>>): seq<seq<Event>> {
    seq(|batches|, i requires 0 <= i < |batches| => Pass(wait, batches[i]))
  }

  lemma {:induction false} PassIs(wait: set<string>, batch: seq<Event>, e: Event)
    ensures e in Pass(wait, batch) <==> e in batch && Delivered(wait, e)
  {
    if batch != [] {
      PassIs(wait, batch[1..], e);
      assert e in batch <==> e == batch[0] || e in batch[1..];
    }
  }

  /** Some batch holds the event. */
  predicate Happens(batches: seq<seq<Event>>, e: Event) { exists batch | batch in batches :: e in batch }

  lemma PassedIs(wait: set<string>, batches: seq<seq<Event>>, e: Event)
    ensures Happens(Passed(wait, batches), e) <==> Happens(batches, e) && Delivered(wait, e)
  {
    if Happens(batches, e) && Delivered(wait, e) {
      var batch :| batch in batches && e in batch;
      var i :| 0 <= i < |batches| && batches[i] == batch;
      PassIs(wait, batch, e);
      assert Passed(wait, batches)[i] == Pass(wait, batch);
    }
    if Happens(Passed(wait, batches), e) {
      var batch :| batch in Passed(wait, batches) && e in batch;
      var i :| 0 <= i < |batches| && Passed(wait, batches)[i] == batch;
      PassIs(wait, batches[i], e);
      assert batches[i] in batches;
    }
  }

  /** A key is told to be unlocked by an event that carries its name, prefixed or not, and no lock. */
  lemma {:induction false} RemovedInIs(batches: seq<seq<Event>>, key: string)
    ensures key in RemovedIn(batches) <==>
            exists e :: Happens(batches, e) && e.value != SENTINEL && TrimPrefix(e.key) == key
  {
    if batches != [] {
      RemovedInIs(batches[1..], key);
      forall e ensures Happens(batches, e) <==> e in batches[0] || Happens(batches[1..], e) {
        HappensFirst(batches, e);
      }
    }
  }

  lemma HappensFirst(batches: seq<seq<Event>>, e: Event)
    requires batches != []
    ensures Happens(batches, e) <==> e in batches[0] || Happens(batches[1..], e)
  {
    assert forall b :: b in batches <==> b == batches[0] || b in batches[1..];
  }

  /** The events that dropping the lock of a key brings about. */
  function UnlockEvent(key: string): Event { Event(LockName(key), "") }

  /** The events are those of dropping the locks of `keys`, in whatever order and batches. */
  ghost predicate UnlocksOf(batches: seq<seq<Event>>, keys: set<string>) {
    forall e :: Happens(batches, e) <==> e.key in (set k | k in keys :: LockName(k)) && e.value == ""
  }

  lemma TrimLockName(key: string)
    ensures TrimPrefix(LockName(key)) == key
  {}

  /** Dropping the locks of some keys, however the events are batched, is told of a key to a waiting
      subscriber if and only if something it waits for, unprefixed, begins the key's prefixed name. */
  lemma UnlockToldIff(wait: set<string>, keys: set<string>, batches: seq<seq<Event>>, key: string)
    requires UnlocksOf(batches, keys) && key in keys
    ensures key in RemovedIn(Passed(wait, batches)) <==> exists w | w in wait :: w <= LockName(key)
  {
    TrimLockName(key);
    PassedIs(wait, batches, UnlockEvent(key));
    RemovedInIs(Passed(wait, batches), key);
    if key in RemovedIn(Passed(wait, batches)) {
      var e :| Happens(Passed(wait, batches), e) && e.value != SENTINEL && TrimPrefix(e.key) == key;
      PassedIs(wait, batches, e);
      var k :| k in keys && e.key == LockName(k);
      TrimLockName(k);
      assert e == UnlockEvent(key);
    }
  }

  /** Each key waited for, once prefixed, begins with one of them unprefixed. */
  ghost predicate AllBegun(wait: set<string>) {
    forall k | k in wait :: exists w | w in wait :: w <= LockName(k)
  }

  /** Dropping all the locks that a command waits for, however the events are batched, frees it if
      and only if each key it waits for, once prefixed, begins with one of them unprefixed. */
  lemma UnlockFreesIff(wait: set<string>, batches: seq<seq<Event>>)
    requires wait != {} && UnlocksOf(batches, wait)
    ensures Drain(wait, Passed(wait, batches)).Free? <==> AllBegun(wait)
  {
    DrainIff(wait, Passed(wait, batches));
    forall k | k in wait
      ensures k in RemovedIn(Passed(wait, batches)) <==> exists w | w in wait :: w <= LockName(k)
    {
      UnlockToldIff(wait, wait, batches, k);
    }
  }

  /** So it waits for ever, whatever locks are dropped, for keys of which none begins the prefix and
      none begins with it. */
  lemma UnlockNeverTold(wait: set<string>, batches: seq<seq<Event>>)
    requires wait != {} && forall w | w in wait :: !(w <= KEY_PREFIX) && !(KEY_PREFIX <= w)
    requires forall e | Happens(batches, e) :: KEY_PREFIX <= e.key
    ensures Drain(wait, Passed(wait, batches)) == Blocked(wait)
  {
    DrainIff(wait, Passed(wait, batches));
    forall key ensures key !in RemovedIn(Passed(wait, batches)) {
      RemovedInIs(Passed(wait, batches), key);
      forall e ensures !Happens(Passed(wait, batches), e) {
        PassedIs(wait, batches, e);
        if Happens(batches, e) {
          forall w | w in wait ensures !(w <= e.key) { NotBeginning(w, e.key); }
        }
      }
    }
    assert wait - RemovedIn(Passed(wait, batches)) == wait;
  }

  lemma NotBeginning(w: string, key: string)
    requires KEY_PREFIX <= key && !(w <= KEY_PREFIX) && !(KEY_PREFIX <= w)
    ensures !(w <= key)
  {
    assert w <= key ==> if |w| <= |KEY_PREFIX| then w <= KEY_PREFIX else KEY_PREFIX <= w;
  }

  // ---- AwaitUnlocked as a whole ----

  /** The event tells that the lock of `key` is gone: it is not the sentinel, and carries the key's
      prefixed name or, if that does not begin with the prefix itself, its plain one. */
  predicate Tells(e: Event, key: string) {
    e.value != SENTINEL && (e.key == LockName(key) || (e.key == key && !(KEY_PREFIX <= key)))
  }

  lemma TellsIff(e: Event, key: string)
    ensures Tells(e, key) <==> e.value != SENTINEL && TrimPrefix(e.key) == key
  {
    TrimLockName(key);
    if KEY_PREFIX <= e.key { assert e.key == KEY_PREFIX + e.key[|KEY_PREFIX|..]; }
  }

  /** Some event that tells of the key begins with a key waited for, and so gets through. */
  ghost predicate ToldThrough(wait: set<string>, batches: seq<seq<Event>>, key: string) {
    exists e :: Happens(batches, e) && Tells(e, key) && exists w | w in wait :: w <= e.key
  }

  lemma ToldIff(wait: set<string>, batches: seq<seq<Event>>, key: string)
    ensures key in RemovedIn(Passed(wait, batches)) <==> ToldThrough(wait, batches, key)
  {
    RemovedInIs(Passed(wait, batches), key);
    if key in RemovedIn(Passed(wait, batches)) {
      var e :| Happens(Passed(wait, batches), e) && e.value != SENTINEL && TrimPrefix(e.key) == key;
      PassedIs(wait, batches, e);
      TellsIff(e, key);
    }
    if ToldThrough(wait, batches, key) {
      var e :| Happens(batches, e) && Tells(e, key) && exists w | w in wait :: w <= e.key;
      PassedIs(wait, batches, e);
      TellsIff(e, key);
    }
  }

  /** AwaitUnlocked returns if and only if a lookup fails, or each key that is locked under its prefixed
      name is told to be gone by an event that begins with one of these keys unprefixed; until
      then it waits for those that are not. */
  lemma AwaitIff(db: Db, keys: seq<string>, faulty: set<string>, batches: seq<seq<Event>>)
    ensures Await(db, keys, faulty, batches).Free? <==>
            || (exists k | k in keys :: k in faulty)
            || (forall k | k in keys && LockName(k) in db :: ToldThrough(WaitSet(db, keys), batches, k))
    ensures var v := Await(db, keys, faulty, batches);
            v.Blocked? ==> forall k :: k in v.wait <==>
              k in keys && LockName(k) in db && !ToldThrough(WaitSet(db, keys), batches, k)
  {
    var wait := WaitSet(db, keys);
    forall k ensures k in RemovedIn(Passed(wait, batches)) <==> ToldThrough(wait, batches, k) { ToldIff(wait, batches, k); }
    forall k ensures k in wait <==> k in keys && LockName(k) in db {}
    if wait != {} { DrainIff(wait, Passed(wait, batches)); }
  }

  /** When all the locks that a command waits for are dropped, however the events are batched, it goes on
      if and only if each key it waits for, once prefixed, begins with one of them unprefixed. */
  lemma AwaitFreesIff(db: Db, keys: seq<string>, batches: seq<seq<Event>>)
    requires WaitSet(db, keys) != {} && UnlocksOf(batches, WaitSet(db, keys))
    ensures forall k :: k in WaitSet(db, keys) <==> k in keys && LockName(k) in db
    ensures Await(db, keys, {}, batches).Free? <==> AllBegun(WaitSet(db, keys))
  {
    UnlockFreesIff(WaitSet(db, keys), batches);
  }

  /** It waits for ever, whatever locks are dropped, for locked keys of which none begins the prefix and
      none begins with it. */
  lemma AwaitNeverTold(db: Db, keys: seq<string>, batches: seq<seq<Event>>)
    requires WaitSet(db, keys) != {}
    requires forall k | k in keys && LockName(k) in db :: !(k <= KEY_PREFIX) && !(KEY_PREFIX <= k)
    requires forall e | Happens(batches, e) :: KEY_PREFIX <= e.key
    ensures Await(db, keys, {}, batches) == Blocked(WaitSet(db, keys))
  {
    UnlockNeverTold(WaitSet(db, keys), batches);
  }

  /** On every store, a command that has just taken its locks is let through at once if and only if
      none of its keys was seen locked before or is named in prefixed form among them; and then
      it is let through whatever happens. */
  lemma OwnLocksIff(db: Db, keys: seq<string>)
    ensures Await(Locked(db, keys), keys, {}, []).Free? <==>
            forall k | k in keys :: LockName(k) !in db && LockName(k) !in keys
    ensures Await(Locked(db, keys), keys, {}, []).Free? ==>
            forall faulty, batches :: Await(Locked(db, keys), keys, faulty, batches).Free?
  {
    var after := Locked(db, keys);
    forall k | k in keys ensures k in WaitSet(after, keys) <==> LockName(k) in db || LockName(k) in keys {
      LockSeenIff(db, keys, k);
    }
    assert WaitSet(after, keys) == {} <==> forall k | k in keys :: k !in WaitSet(after, keys);
  }

  /** As intended it waits for exactly its own keys, until they are unlocked. */
  lemma OwnIntendedLocksIff(db: Db, keys: seq<string>)
    ensures Await(LockedAsIntended(db, keys), keys, {}, []).Free? <==> keys == []
    ensures keys != [] ==> Await(LockedAsIntended(db, keys), keys, {}, []) == Blocked(Names(keys))
  {
    var after := LockedAsIntended(db, keys);
    forall k | k in keys ensures k in WaitSet(after, keys) { LockSeenAsIntended(db, keys, k); }
    assert WaitSet(after, keys) == Names(keys);
    if keys != [] { assert keys[0] in Names(keys); }
  }

  // ---- the store ----

  class LockStore {
    var db: Db

    constructor ()
      ensures db == map[]
    {
      db := map[];
    }

    method UnlockKeys(keys: seq<string>, t: Txn) returns (ok: bool)
      modifies this
      ensures ok == (|keys| <= t.room && t.commits)
      ensures db == if ok then Unlocked(old(db), keys) else old(db)
    {
      var pending: set<string> := {};
      for i := 0 to |keys|
        invariant i <= t.room && pending == LockNames(keys[..i])
      {
        if i == t.room { return false; }
        assert keys[..i + 1] == keys[..i] + [keys[i]];
        pending := pending + {LockName(keys[i])};
      }
      assert keys[..|keys|] == keys;
      if !t.commits { return false; }
      db := db - pending;
      ok := true;
    }

    method LockKeys(keys: seq<string>, t: Txn) returns (ok: bool)
      modifies this
      ensures ok == (|keys| <= t.room && t.commits)
      ensures db == if ok then Locked(old(db), keys) else old(db)
    {
      var pending: Db := map[];
      for i := 0 to |keys|
        invariant i <= t.room && pending == map k | k in Names(keys[..i]) :: SENTINEL
      {
        if i == t.room { return false; }
        assert keys[..i + 1] == keys[..i] + [keys[i]];
        pending := pending[keys[i] := SENTINEL];
      }
      assert keys[..|keys|] == keys;
      if !t.commits { return false; }
      db := db + pending;
      ok := true;
    }

    method AwaitUnlocked(keys: seq<string>, faulty: set<string>, batches: seq<seq<Event>>) returns (v: Verdict)
      ensures v == Await(db, keys, faulty, batches)
      ensures v.Free? <==>
        || (exists k | k in keys :: k in faulty)
        || (forall k | k in keys && LockName(k) in db :: ToldThrough(WaitSet(db, keys), batches, k))
    {
      AwaitIff(db, keys, faulty, batches);
      var wait: set<string> := {};
      for i := 0 to |keys|
        invariant wait == WaitSet(db, keys[..i])
        invariant forall k | k in keys[..i] :: k !in faulty
      {
        assert keys[..i + 1] == keys[..i] + [keys[i]];
        if keys[i] in faulty { return Free; }
        if SeenLocked(db, keys[i]) { wait := wait + {keys[i]}; }
      }
      assert keys[..|keys|] == keys;
      if wait == {} { return Free; }
      v := Subscribe(wait, Passed(wait, batches));
    }

    /** The subscription's callback, batch by batch. */
    method Subscribe(initial: set<string>, batches: seq<seq<Event>>) returns (v: Verdict)
      ensures v == Drain(initial, batches)
    {
      var wait := initial;
      for i := 0 to |batches|
        invariant Drain(initial, batches) == Drain(wait, batches[i..])
      {
        wait := Callback(wait, batches[i]);
        assert batches[i..][1..] == batches[i + 1..];
        if wait == {} { return Free; }
      }
      v := Blocked(wait);
    }

    method Callback(wait: set<string>, batch: seq<Event>) returns (rest: set<string>)
      ensures rest == wait - Removed(batch)
    {
      rest := wait;
      for i := 0 to |batch|
        invariant rest == wait - Removed(batch[..i])
      {
        var key := TrimPrefix(batch[i].key);
        assert batch[..i + 1] == batch[..i] + [batch[i]];
        if batch[i].value != SENTINEL { rest := rest - {key}; }
      }
      assert batch[..|batch|] == batch;
    }
  }
}
