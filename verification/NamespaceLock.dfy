/** The table of local read/write locks. Every method below called a section runs under one mutex in the
    original; everything between two sections may be interleaved with sections of other threads. */
module NamespaceLock {

  const WRITELOCK := -1
  const NOLOCKS := 0

  /** The read/write mutex with the reference count of its table entry. `state` is WRITELOCK, NOLOCKS or
      the number of readers. */
  class NsLock {
    var state: int
    var ref: int

    constructor ()
      ensures state == NOLOCKS && ref == 1
    {
      state, ref := NOLOCKS, 1;
    }

    /** One attempt of the retry loop. */
    method TryLock(isWriteLock: bool) returns (success: bool)
      modifies this`state
      ensures success <==> if isWriteLock then old(state) == NOLOCKS else old(state) != WRITELOCK
      ensures state == if !success then old(state) else if isWriteLock then WRITELOCK else old(state) + 1
    {
      success := false;
      if isWriteLock {
        if state == NOLOCKS {
          state := WRITELOCK;
          success := true;
        }
      } else {
        if state != WRITELOCK {
          state := state + 1;
          success := true;
        }
      }
    }

    /** The original panics when this returns false. */
    method Unlock(isWriteLock: bool) returns (unlocked: bool)
      modifies this`state
      ensures unlocked <==> if isWriteLock then old(state) == WRITELOCK else old(state) !in {WRITELOCK, NOLOCKS}
      ensures state == if !unlocked then old(state) else if isWriteLock then NOLOCKS else old(state) - 1
    {
      unlocked := false;
      if isWriteLock {
        if state == WRITELOCK {
          state := NOLOCKS;
          unlocked := true;
        }
      } else {
        if state == WRITELOCK || state == NOLOCKS {
          unlocked := false;
        } else {
          state := state - 1;
          unlocked := true;
        }
      }
    }
  }

  /** Where a thread stands between its registration in the table and its last section. Failing and
      Releasing threads hold nothing but are still counted. */
  datatype Place = Waiting | Holding | Failing | Releasing

  /** A thread inside the table, with its own pointer to the lock. */
  datatype Thread = Thread(resource: string, readLock: bool, lock: NsLock, place: Place)

  type Threads = map<nat, Thread>

  /** The threads counted by the entry of a resource. */
  function Users(ts: Threads, resource: string): set<nat> {
    set u | u in ts && ts[u].resource == resource
  }

  function Holders(ts: Threads, resource: string, readLock: bool): set<nat> {
    set u | u in ts && ts[u].resource == resource && ts[u].readLock == readLock && ts[u].place.Holding?
  }

  /** The state of a lock says who holds it: one writer, or so many readers. */
  predicate StateFits(state: int, readers: nat, writers: nat) {
    || (state == WRITELOCK && writers == 1 && readers == 0)
    || (state >= NOLOCKS && writers == 0 && readers == state)
  }

  lemma Removed(s: set<nat>, t: set<nat>, u: nat)
    requires u in s && t == s - {u}
    ensures |t| == |s| - 1
  {
  }

  lemma Added(s: set<nat>, t: set<nat>, u: nat)
    requires u !in s && t == s + {u}
    ensures |t| == |s| + 1
  {
  }

  /** Thread u, which does not hold, starts to hold. */
  lemma StartsHolding(ts: Threads, u: nat)
    requires u in ts && !ts[u].place.Holding?
    ensures var after := ts[u := ts[u].(place := Holding)];
            && (forall r :: Users(after, r) == Users(ts, r))
            && (forall r, m :: |Holders(after, r, m)| == |Holders(ts, r, m)|
                                 + (if r == ts[u].resource && m == ts[u].readLock then 1 else 0))
  {
    var after := ts[u := ts[u].(place := Holding)];
    StopsHolding(after, u, ts[u].place);
    assert after[u := after[u].(place := ts[u].place)] == ts;
  }

  /** Thread u moves to a place where it does not hold. */
  lemma StopsHolding(ts: Threads, u: nat, place: Place)
    requires u in ts && !place.Holding?
    ensures var after := ts[u := ts[u].(place := place)];
            && (forall r :: Users(after, r) == Users(ts, r))
            && (forall r, m :: |Holders(after, r, m)| == |Holders(ts, r, m)|
                                 - (if ts[u].place.Holding? && r == ts[u].resource && m == ts[u].readLock then 1 else 0))
  {
    var after := ts[u := ts[u].(place := place)];
    forall r
      ensures Users(after, r) == Users(ts, r)
    {
    }
    forall r, m
      ensures |Holders(after, r, m)| == |Holders(ts, r, m)|
                - (if ts[u].place.Holding? && r == ts[u].resource && m == ts[u].readLock then 1 else 0)
    {
      if ts[u].place.Holding? && r == ts[u].resource && m == ts[u].readLock {
        Removed(Holders(ts, r, m), Holders(after, r, m), u);
      } else {
        assert Holders(after, r, m) == Holders(ts, r, m);
      }
    }
  }

  /** Thread u arrives, not holding. */
  lemma Arrives(ts: Threads, u: nat, t: Thread)
    requires u !in ts && !t.place.Holding?
    ensures forall r :: |Users(ts[u := t], r)| == |Users(ts, r)| + (if r == t.resource then 1 else 0)
    ensures forall r, m :: Holders(ts[u := t], r, m) == Holders(ts, r, m)
  {
    hide Users, Holders;
    SameHolders(ts, ts[u := t]);
    forall r
      ensures |Users(ts[u := t], r)| == |Users(ts, r)| + (if r == t.resource then 1 else 0)
    {
      UserAdded(ts, u, t, r);
    }
  }

  lemma UserAdded(ts: Threads, u: nat, t: Thread, r: string)
    requires u !in ts
    ensures |Users(ts[u := t], r)| == |Users(ts, r)| + (if r == t.resource then 1 else 0)
  {
    if r == t.resource {
      Added(Users(ts, r), Users(ts[u := t], r), u);
    } else {
      assert Users(ts[u := t], r) == Users(ts, r);
    }
  }

  /** Threads that do not hold do not matter for the holders. */
  lemma SameHolders(ts: Threads, ts': Threads)
    requires forall u :: u in ts && ts[u].place.Holding? ==> u in ts' && ts'[u] == ts[u]
    requires forall u :: u in ts' && ts'[u].place.Holding? ==> u in ts && ts[u] == ts'[u]
    ensures forall r, m :: Holders(ts', r, m) == Holders(ts, r, m)
  {
  }

  /** Thread u, which does not hold, leaves. */
  lemma Leaves(ts: Threads, u: nat)
    requires u in ts && !ts[u].place.Holding?
    ensures forall r :: |Users(ts - {u}, r)| == |Users(ts, r)| - (if r == ts[u].resource then 1 else 0)
    ensures forall r, m :: Holders(ts - {u}, r, m) == Holders(ts, r, m)
  {
    forall r
      ensures |Users(ts - {u}, r)| == |Users(ts, r)| - (if r == ts[u].resource then 1 else 0)
    {
      if r == ts[u].resource {
        Removed(Users(ts, r), Users(ts - {u}, r), u);
      } else {
        assert Users(ts - {u}, r) == Users(ts, r);
      }
    }
  }

  /** Thread u is the first to use the resource. */
  lemma ArrivesFirst(ts: Threads, u: nat, t: Thread)
    requires u !in ts && !t.place.Holding? && forall v :: v in ts ==> ts[v].resource != t.resource
    ensures |Users(ts[u := t], t.resource)| == 1
    ensures forall r :: r != t.resource ==> Users(ts[u := t], r) == Users(ts, r)
    ensures forall r, m :: r != t.resource ==> Holders(ts[u := t], r, m) == Holders(ts, r, m)
    ensures StateFits(NOLOCKS, |Holders(ts[u := t], t.resource, true)|, |Holders(ts[u := t], t.resource, false)|)
  {
    assert Users(ts[u := t], t.resource) == {u};
    assert Holders(ts[u := t], t.resource, true) == {} == Holders(ts[u := t], t.resource, false);
  }

  lemma NoUsersThere(ts: Threads, resource: string)
    requires |Users(ts, resource)| == 0
    ensures forall u :: u in ts ==> ts[u].resource != resource
  {
    forall u | u in ts
      ensures ts[u].resource != resource
    {
      assert u !in Users(ts, resource);
    }
  }

  lemma HoldsSome(ts: Threads, u: nat)
    requires u in ts && ts[u].place.Holding?
    ensures |Holders(ts, ts[u].resource, ts[u].readLock)| > 0
  {
    assert u in Holders(ts, ts[u].resource, ts[u].readLock);
  }

  function PathJoin(volume: string, path: string): string {
    volume + "/" + path
  }

  /** Different paths of different volumes are different resources. */
  lemma PathJoinInjective(v: string, p: string, w: string, q: string)
    requires '/' !in v && '/' !in w
    ensures PathJoin(v, p) == PathJoin(w, q) <==> v == w && p == q
  {
    if PathJoin(v, p) == PathJoin(w, q) {
      FirstSlash(v, p, PathJoin(v, p));
      FirstSlash(w, q, PathJoin(w, q));
    }
  }

  /** The volume and the path can be read off the resource. */
  lemma FirstSlash(v: string, p: string, resource: string)
    requires '/' !in v && resource == PathJoin(v, p)
    ensures |v| < |resource| && resource[|v|] == '/' && forall i :: 0 <= i < |v| ==> resource[i] != '/'
    ensures resource[..|v|] == v && resource[|v| + 1..] == p
  {
    assert resource == v + ("/" + p);
    assert resource[|v| + 1..] == ("/" + p)[1..] == p;
    forall i | 0 <= i < |v|
      ensures resource[i] != '/'
    {
      assert resource[i] == v[i] && v[i] in v;
    }
  }

  /** Somebody holds the resource in a way that shuts the request out. */
  predicate Conflict(ts: Threads, resource: string, readLock: bool) {
    Holders(ts, resource, false) != {} || (!readLock && Holders(ts, resource, true) != {})
  }

  /** The table as it was at each of the failed attempts, of which there was at least one. */
  ghost predicate Refused(tries: seq<Threads>, resource: string, readLock: bool) {
    tries != [] && forall i :: 0 <= i < |tries| ==> Conflict(tries[i], resource, readLock)
  }

  lemma RefusedOnce(tries: seq<Threads>, last: Threads, resource: string, readLock: bool)
    requires tries == [] || Refused(tries, resource, readLock)
    requires Conflict(last, resource, readLock)
    ensures Refused(tries + [last], resource, readLock)
  {
  }

  class NsLockMap {
    var lockMap: map<string, NsLock>
    /** The threads between their first and last section. */
    var threads: Threads

    /** What every section keeps: the table has an entry exactly for the resources some thread uses, `ref`
        counts those threads, every thread's pointer is the lock the table has, no two resources share a
        lock, and a lock's state says who holds it. */
    ghost predicate Valid()
      reads this, lockMap.Values
    {
      Pointers() && Counts() && Distinct() && States()
    }

    ghost predicate Pointers()
      reads this
    {
      forall u :: u in threads ==> threads[u].resource in lockMap && lockMap[threads[u].resource] == threads[u].lock
    }

    ghost predicate Counts()
      reads this, lockMap.Values
    {
      forall r :: r in lockMap ==> lockMap[r].ref == |Users(threads, r)| > 0
    }

    ghost predicate Distinct()
      reads this
    {
      forall r, s :: r in lockMap && s in lockMap && r != s ==> lockMap[r] != lockMap[s]
    }

    ghost predicate States()
      reads this, lockMap.Values
    {
      forall r :: r in lockMap ==>
        StateFits(lockMap[r].state, |Holders(threads, r, true)|, |Holders(threads, r, false)|)
    }

    /** The same threads of `mine` stand at the same places. */
    twostate predicate Keeps(mine: set<nat>)
      reads this
    {
      forall u :: u in mine ==>
        && (u in threads <==> u in old(threads))
        && (u in threads ==> threads[u] == old(threads[u]))
    }

    /** Every lock of the table was there before or is new. */
    twostate predicate Grows()
      reads this
    {
      forall r :: r in lockMap ==> lockMap[r] in old(lockMap.Values) || fresh(lockMap[r])
    }

    constructor ()
      ensures Valid() && lockMap == map[] && threads == map[]
    {
      lockMap, threads := map[], map[];
    }

    /** Two different threads holding one resource are both readers, and the table still has that lock. */
    lemma Exclusion(u: nat, v: nat)
      requires Valid() && u != v && u in threads && v in threads
      requires threads[u].place.Holding? && threads[v].place.Holding?
      requires threads[u].resource == threads[v].resource
      ensures threads[u].readLock && threads[v].readLock
      ensures lockMap[threads[u].resource] == threads[u].lock == threads[v].lock
      ensures threads[u].lock.state >= 2 && threads[u].lock.ref >= 2
    {
      var r := threads[u].resource;
      assert u in Users(threads, r) && v in Users(threads, r);
      Several(Users(threads, r), u, v);
      var readers, writers := Holders(threads, r, true), Holders(threads, r, false);
      assert StateFits(lockMap[r].state, |readers|, |writers|);
      assert u in readers || u in writers;
      assert v in readers || v in writers;
      if u in writers && v in writers {
        Several(writers, u, v);
        assert false;
      } else if u in writers {
        assert false;
      } else if v in writers {
        assert false;
      } else {
        Several(readers, u, v);
      }
    }

    /** First section of `lock`. */
    method Register(u: nat, resource: string, readLock: bool)
      requires Valid() && u !in threads
      modifies this, if resource in lockMap then {lockMap[resource]} else {}
      ensures Valid()
      ensures Grows() && lockMap.Keys == old(lockMap.Keys) + {resource}
      ensures threads == old(threads)[u := Thread(resource, readLock, lockMap[resource], Waiting)]
      ensures resource in old(lockMap) ==> lockMap == old(lockMap)
    {
      hide Users, Holders, Valid;
      if resource !in lockMap {
        Create(u, resource, readLock);
      } else {
        Join(u, resource, readLock);
      }
    }

    /** The entry of the resource is counted once more. */
    method Join(u: nat, resource: string, readLock: bool)
      requires Valid() && u !in threads && resource in lockMap
      modifies this, lockMap[resource]
      ensures lockMap == old(lockMap)
      ensures Valid()
      ensures threads == old(threads)[u := Thread(resource, readLock, lockMap[resource], Waiting)]
    {
      hide Users, Holders, StateFits;
      Arrives(threads, u, Thread(resource, readLock, lockMap[resource], Waiting));
      lockMap[resource].ref := lockMap[resource].ref + 1;
      threads := threads[u := Thread(resource, readLock, lockMap[resource], Waiting)];
    }

    /** The resource gets an entry, counted once. */
    method Create(u: nat, resource: string, readLock: bool)
      requires Valid() && u !in threads && resource !in lockMap
      modifies this
      ensures Valid()
      ensures resource in lockMap && fresh(lockMap[resource]) && lockMap == old(lockMap)[resource := lockMap[resource]]
      ensures threads == old(threads)[u := Thread(resource, readLock, lockMap[resource], Waiting)]
    {
      hide Users, Holders, StateFits, Valid;
      var nsLk := new NsLock();
      NewIsOther(nsLk);
      AddEntry(u, resource, readLock, nsLk);
    }

    twostate lemma NewIsOther(new nsLk: NsLock)
      requires old(Valid()) && Valid() && fresh(nsLk) && lockMap == old(lockMap)
      ensures nsLk !in lockMap.Values
    {
    }

    method AddEntry(u: nat, resource: string, readLock: bool, nsLk: NsLock)
      requires Valid() && u !in threads && resource !in lockMap && nsLk !in lockMap.Values
      requires nsLk.ref == 1 && nsLk.state == NOLOCKS
      modifies this
      ensures Valid() && lockMap == old(lockMap)[resource := nsLk]
      ensures threads == old(threads)[u := Thread(resource, readLock, nsLk, Waiting)]
    {
      hide Users, Holders, StateFits;
      ghost var ts := threads;
      ArrivesFirst(ts, u, Thread(resource, readLock, nsLk, Waiting));
      lockMap := lockMap[resource := nsLk];
      threads := threads[u := Thread(resource, readLock, nsLk, Waiting)];
      assert Pointers() && Distinct();
      forall r | r in lockMap
        ensures lockMap[r].ref == |Users(threads, r)| > 0
        ensures StateFits(lockMap[r].state, |Holders(threads, r, true)|, |Holders(threads, r, false)|)
      {
        assert r != resource ==> Users(threads, r) == Users(ts, r) && r in old(lockMap);
      }
    }

    /** One attempt in the retry loop of the lock. */
    method Attempt(u: nat) returns (locked: bool)
      requires Valid() && u in threads && threads[u].place.Waiting?
      modifies this`threads, threads[u].lock`state
      ensures Valid()
      ensures threads == old(threads)[u := old(threads)[u].(place := if locked then Holding else Waiting)]
      ensures locked <==> if old(threads[u].readLock) then Holders(old(threads), old(threads[u].resource), false) == {}
                          else Holders(old(threads), old(threads[u].resource), false) == {}
                               == Holders(old(threads), old(threads[u].resource), true)
    {
      hide Users, Holders;
      ghost var was := threads;
      var t := threads[u];
      assert StateFits(t.lock.state, |Holders(threads, t.resource, true)|, |Holders(threads, t.resource, false)|);
      locked := t.lock.TryLock(!t.readLock);
      if locked {
        threads := threads[u := t.(place := Holding)];
        StartsHolding(was, u);
      } else {
        assert threads[u := t.(place := Waiting)] == threads;
      }
    }

    /** The retry loop ends with the timeout. */
    method GiveUp(u: nat)
      requires Valid() && u in threads && threads[u].place.Waiting?
      modifies this`threads
      ensures Valid() && threads == old(threads)[u := old(threads)[u].(place := Failing)]
    {
      hide Users, Holders;
      StopsHolding(threads, u, Failing);
      threads := threads[u := threads[u].(place := Failing)];
    }

    /** First section of `unlock`: the lookup, by a thread that holds, finds the lock it holds. */
    method Find(u: nat) returns (found: bool, nsLk: NsLock?)
      requires Valid() && u in threads && threads[u].place.Holding?
      ensures found && nsLk == threads[u].lock
    {
      var t := threads[u];
      found, nsLk := false, null;
      if t.resource in lockMap {
        found, nsLk := true, lockMap[t.resource];
      }
    }

    /** Second section of `unlock`: it does not panic. */
    method Release(u: nat, nsLk: NsLock) returns (panics: bool)
      requires Valid() && u in threads && threads[u].place.Holding? && threads[u].lock == nsLk
      modifies this`threads, nsLk`state
      ensures !panics
      ensures Valid() && threads == old(threads)[u := old(threads)[u].(place := Releasing)]
    {
      hide Users, Holders;
      ghost var was := threads;
      var t := threads[u];
      HoldsSome(threads, u);
      assert StateFits(nsLk.state, |Holders(threads, t.resource, true)|, |Holders(threads, t.resource, false)|);
      var unlocked := nsLk.Unlock(!t.readLock);
      panics := !unlocked;
      threads := threads[u := t.(place := Releasing)];
      StopsHolding(was, u, Releasing);
    }

    /** The last section of a failed `lock` and of `unlock`: the entry goes with its last user. */
    method Forget(u: nat) returns (logged: bool)
      requires Valid() && u in threads && threads[u].place in {Failing, Releasing}
      modifies this, threads[u].lock`ref
      ensures !logged
      ensures Valid() && threads == old(threads) - {u}
      ensures var r := old(threads[u].resource);
              lockMap == if Users(threads, r) == {} then old(lockMap) - {r} else old(lockMap)
    {
      hide Users, Holders, StateFits;
      ghost var was := threads;
      var t := threads[u];
      var nsLk := t.lock;
      logged := false;
      threads := threads - {u};
      Leaves(was, u);
      if nsLk.ref == 0 {
        logged := true;
      } else {
        nsLk.ref := nsLk.ref - 1;
        if nsLk.ref == 0 {
          DropEntry(t.resource);
        }
      }
    }

    /** The entry of a resource that nobody uses any more is deleted. */
    method DropEntry(resource: string)
      requires resource in lockMap && Pointers() && Distinct() && States() && |Users(threads, resource)| == 0
      requires forall r :: r in lockMap && r != resource ==> lockMap[r].ref == |Users(threads, r)| > 0
      modifies this`lockMap
      ensures Valid() && lockMap == old(lockMap) - {resource} && Users(threads, resource) == {}
    {
      hide Users, Holders, StateFits;
      NoUsersThere(threads, resource);
      lockMap := lockMap - {resource};
    }

    /** One section of some thread outside `mine`. */
    method Step(mine: set<nat>)
      requires Valid()
      modifies this, lockMap.Values
      ensures Valid() && Keeps(mine)
      ensures Grows()
    {
      hide Users, Holders, Valid;
      var u: nat :| true;
      if u in mine {
        return;
      } else if u !in threads {
        var resource: string, readLock: bool :| true;
        Register(u, resource, readLock);
      } else {
        UsesEntry(u);
        var giveUp: bool :| true;
        match threads[u].place
        case Waiting =>
          if giveUp {
            GiveUp(u);
          } else {
            var _ := Attempt(u);
          }
        case Holding =>
          var _ := Release(u, threads[u].lock);
        case _ =>
          var _ := Forget(u);
      }
    }

    /** Any number of sections of threads outside `mine`. Since every section keeps Valid(), so does every
        run, whatever the interleaving. */
    method Others(mine: set<nat>)
      requires Valid()
      modifies this, lockMap.Values
      ensures Valid() && Keeps(mine)
      ensures Grows()
    {
      var sections: nat :| true;
      for _ := 0 to sections
        invariant Valid() && Keeps(mine)
        invariant Grows()
      {
        Step(mine);
      }
    }

    /** One whole call of `lock` by thread u, with other threads running in between. A call fails only after
        attempts at each of which the resource was held by others, and leaves nothing behind. */
    method Lock(u: nat, resource: string, readLock: bool, mine: set<nat>) returns (locked: bool, ghost tries: seq<Threads>)
      requires Valid() && u !in threads && u !in mine
      modifies this, lockMap.Values
      ensures Valid() && Keeps(mine)
      ensures Grows()
      ensures locked ==> u in threads && threads[u].resource == resource && threads[u].readLock == readLock && threads[u].place.Holding?
      ensures !locked ==> u !in threads && Refused(tries, resource, readLock)
    {
      hide Users, Holders, Valid, Refused;
      locked, tries := Enter(u, resource, readLock, mine);
      if !locked {
        ForgetAmong(u, mine);
      } else {
        Others(mine + {u});
      }
    }

    /** The first section and the retry loop. */
    method Enter(u: nat, resource: string, readLock: bool, mine: set<nat>) returns (locked: bool, ghost tries: seq<Threads>)
      requires Valid() && u !in threads && u !in mine
      modifies this, lockMap.Values
      ensures Valid() && Keeps(mine) && u in threads
      ensures Grows()
      ensures threads[u].resource == resource && threads[u].readLock == readLock
      ensures threads[u].place == if locked then Holding else Failing
      ensures !locked ==> Refused(tries, resource, readLock)
    {
      hide Users, Holders, Valid, Refused;
      Register(u, resource, readLock);
      locked, tries := Acquire(u, mine);
    }

    /** The last section, with other threads running before and after it. */
    method ForgetAmong(u: nat, mine: set<nat>)
      requires Valid() && u in threads && u !in mine && threads[u].place in {Failing, Releasing}
      modifies this, lockMap.Values
      ensures Valid() && Keeps(mine) && u !in threads
      ensures Grows()
    {
      hide Users, Holders, Valid;
      Others(mine + {u});
      ForgetNow(u, mine);
      Others(mine + {u});
    }

    method ForgetNow(u: nat, mine: set<nat>)
      requires Valid() && u in threads && u !in mine && threads[u].place in {Failing, Releasing}
      modifies this, lockMap.Values
      ensures Valid() && Keeps(mine) && u !in threads
      ensures Grows()
    {
      hide Users, Holders, Valid;
      UsesEntry(u);
      var _ := Forget(u);
    }

    /** The retry loop: it tries until it succeeds or the timeout has passed. */
    method Acquire(u: nat, mine: set<nat>) returns (locked: bool, ghost tries: seq<Threads>)
      requires Valid() && u in threads && u !in mine && threads[u].place.Waiting?
      modifies this, lockMap.Values
      ensures Valid() && Keeps(mine)
      ensures Grows()
      ensures u in threads && threads[u] == old(threads[u]).(place := if locked then Holding else Failing)
      ensures !locked ==> Refused(tries, old(threads[u].resource), old(threads[u].readLock))
    {
      hide Users, Holders, Valid, Refused, Conflict;
      var ticks: nat :| true;
      locked, tries := false, [];
      while true
        invariant Valid() && Keeps(mine)
        invariant Grows()
        invariant u in threads && threads[u] == old(threads[u])
        invariant tries == [] || Refused(tries, threads[u].resource, threads[u].readLock)
        decreases ticks
      {
        ghost var seen;
        locked, seen := Retry(u, mine);
        if locked {
          return;
        }
        RefusedOnce(tries, seen, threads[u].resource, threads[u].readLock);
        tries := tries + [seen];
        if ticks == 0 {
          GiveUp(u);
          return;
        }
        ticks := ticks - 1;
      }
    }

    method Retry(u: nat, mine: set<nat>) returns (locked: bool, ghost seen: Threads)
      requires Valid() && u in threads && u !in mine && threads[u].place.Waiting?
      modifies this, lockMap.Values
      ensures Valid() && Keeps(mine) && Grows()
      ensures u in threads && threads[u] == old(threads[u]).(place := if locked then Holding else Waiting)
      ensures locked <==> !Conflict(seen, threads[u].resource, threads[u].readLock)
    {
      hide Users, Holders, Valid;
      Others(mine + {u});
      UsesEntry(u);
      seen := threads;
      locked := Attempt(u);
    }

    /** The first two sections of `unlock`. */
    method ReleaseHeld(u: nat, mine: set<nat>)
      requires Valid() && u in threads && u !in mine && threads[u].place.Holding?
      modifies this, lockMap.Values
      ensures Valid() && Keeps(mine) && Grows()
      ensures u in threads && threads[u] == old(threads[u]).(place := Releasing)
    {
      hide Users, Holders, Valid;
      var found, nsLk := Find(u);
      if found {
        Others(mine + {u});
        UsesEntry(u);
        var _ := Release(u, nsLk);
      }
    }

    /** One whole call of `unlock` by a thread that holds. */
    method Unlock(u: nat, mine: set<nat>)
      requires Valid() && u in threads && u !in mine && threads[u].place.Holding?
      modifies this, lockMap.Values
      ensures Valid() && Keeps(mine) && u !in threads
      ensures Grows()
    {
      hide Users, Holders, Valid;
      ReleaseHeld(u, mine);
      ForgetAmong(u, mine);
    }

    lemma UsesEntry(u: nat)
      requires Valid() && u in threads
      ensures threads[u].lock in lockMap.Values
    {
    }
  }

  /** All the ids but one. */
  function Rest(ids: seq<nat>, i: nat): (rest: set<nat>)
    requires i < |ids| && forall j, k :: 0 <= j < k < |ids| ==> ids[j] != ids[k]
    ensures ids[i] !in rest && forall j :: 0 <= j < |ids| && j != i ==> ids[j] in rest
  {
    set j | 0 <= j < |ids| && j != i :: ids[j]
  }

  /** A lock request for several paths. The thread that asks for path i is ids[i]. */
  class LocalLockInstance {
    const ns: NsLockMap
    const volume: string
    const paths: seq<string>
    const ids: seq<nat>

    constructor (ns: NsLockMap, volume: string, paths: seq<string>, ids: seq<nat>)
      requires ns.Valid() && |ids| == |paths| && forall i, j :: 0 <= i < j < |ids| ==> ids[i] != ids[j]
      ensures Valid() && this.ns == ns && this.volume == volume && this.paths == paths && this.ids == ids
    {
      this.ns, this.volume, this.paths, this.ids := ns, volume, paths, ids;
    }

    ghost predicate Valid()
      reads this, ns, ns.lockMap.Values
    {
      && ns.Valid()
      && |ids| == |paths|
      && forall i, j :: 0 <= i < j < |ids| ==> ids[i] != ids[j]
    }

    predicate Holds(i: nat, readLock: bool)
      reads this, ns
    {
      && i < |ids| == |paths|
      && ids[i] in ns.threads
      && ns.threads[ids[i]].resource == PathJoin(volume, paths[i])
      && ns.threads[ids[i]].readLock == readLock
      && ns.threads[ids[i]].place.Holding?
    }

    predicate HoldsAll(readLock: bool)
      reads this, ns
    {
      forall i :: 0 <= i < |paths| ==> Holds(i, readLock)
    }

    /** No trace of the request is left in the table. */
    predicate HoldsNone()
      reads this, ns
    {
      forall i :: 0 <= i < |ids| ==> ids[i] !in ns.threads
    }

    /** Either every path is held, or every path taken so far has been released again. */
    method GetLock(readLock: bool) returns (timedOut: bool, ghost blocked: nat, ghost tries: seq<Threads>)
      requires Valid() && HoldsNone()
      modifies ns, ns.lockMap.Values
      ensures Valid() && ns.Grows()
      ensures if timedOut then HoldsNone() else HoldsAll(readLock)
      ensures timedOut ==> blocked < |paths| && Refused(tries, PathJoin(volume, paths[blocked]), readLock)
    {
      hide NsLockMap.Valid, Refused;
      blocked, tries := 0, [];
      for i := 0 to |paths|
        invariant Valid() && ns.Grows()
        invariant forall j :: 0 <= j < i ==> Holds(j, readLock)
        invariant forall j :: i <= j < |ids| ==> ids[j] !in ns.threads
      {
        label before:
        var locked;
        locked, tries := ns.Lock(ids[i], PathJoin(volume, paths[i]), readLock, Rest(ids, i));
        forall j | 0 <= j < i
          ensures Holds(j, readLock)
        {
          assert old@before(Holds(j, readLock));
        }
        if !locked {
          ReleaseFrom(0, i, readLock);
          return true, i, tries;
        }
      }
      timedOut := false;
    }

    /** Unlocks the paths first .. last - 1, in this order. */
    method ReleaseFrom(first: nat, last: nat, readLock: bool)
      requires Valid() && first <= last <= |paths|
      requires forall j :: first <= j < last ==> Holds(j, readLock)
      requires forall j :: 0 <= j < first || last <= j < |ids| ==> ids[j] !in ns.threads
      modifies ns, ns.lockMap.Values
      ensures Valid() && ns.Grows() && HoldsNone()
    {
      for k := first to last
        invariant Valid() && ns.Grows()
        invariant forall j :: k <= j < last ==> Holds(j, readLock)
        invariant forall j :: 0 <= j < k || last <= j < |ids| ==> ids[j] !in ns.threads
      {
        assert Holds(k, readLock);
        label before:
        ns.Unlock(ids[k], Rest(ids, k));
        forall j | k < j < last
          ensures Holds(j, readLock)
        {
          assert old@before(Holds(j, readLock));
        }
      }
    }

    method Unlock(readLock: bool)
      requires Valid() && HoldsAll(readLock)
      modifies ns, ns.lockMap.Values
      ensures Valid() && ns.Grows() && HoldsNone()
    {
      ReleaseFrom(0, |paths|, readLock);
    }
  }

  lemma Several(s: set<nat>, u: nat, v: nat)
    requires u in s && v in s && u != v
    ensures |s| >= 2
  {
    assert |{u, v}| == 2 && {u, v} <= s;
    assert s == {u, v} + (s - {u, v});
  }
}
