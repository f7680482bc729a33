/** dsync: a read/write lock held by a quorum of n lockers, as a state machine over the steps of its
    clients, its collectors and its lockers. */
module Dsync {
  import opened Basics
  /** What one locker knows about the resource. */
  datatype Locker = Locker(writer: Option<string>, readers: multiset<string>)

  /** One locker's part in one call of lock: asked, answered but not yet received, recorded in `locks`,
      or neither (refused, or granted and released again). */
  datatype Slot = Waiting | InChannel(granted: bool) | Recorded | Gone

  /** Collecting, Aborting (releaseAll), Won and Lost are the states of one call of lock; after it returned
      true the grants are Held in the mutex until they are handed to unlock (Unlocking). */
  datatype Phase = Collecting | Aborting | Won | Lost | Held | Unlocking

  datatype Attempt = Attempt(client: nat, uid: string, read: bool, phase: Phase, consumed: nat, failed: nat, slots: seq<Slot>)

  /** The fields of DRWMutex: the attempt recorded in writeLocks and those recorded in readersLocks. */
  datatype Client = Client(writeLocks: Option<nat>, readersLocks: seq<nat>)

  datatype State = State(lockers: seq<Locker>, attempts: map<nat, Attempt>, clients: map<nat, Client>, lossless: bool)

  function ReadQuorum(n: nat): nat { (n + 1) / 2 }
  function WriteQuorum(n: nat): nat { ReadQuorum(n) + 1 }
  function Quorum(n: nat, read: bool): nat { if read then ReadQuorum(n) else WriteQuorum(n) }

  /** Half of the lockers are enough for a read lock, and one locker more than half for a write lock. */
  predicate Enough(grants: int, n: nat, read: bool) {
    2 * grants >= if read then n else n + 2
  }

  lemma EnoughIsQuorum(grants: int, n: nat, read: bool)
    ensures Enough(grants, n, read) <==> grants >= Quorum(n, read)
  {
  }

  function RecordedSet(slots: seq<Slot>): set<nat> {
    set k: nat | k < |slots| && slots[k] == Recorded
  }

  predicate QuorumMet(slots: seq<Slot>, read: bool) {
    |RecordedSet(slots)| >= Quorum(|slots|, read)
  }

  // ----- lockers

  predicate CanGrant(l: Locker, read: bool) {
    l.writer.None? && (read || l.readers == multiset{})
  }

  function Grant(l: Locker, uid: string, read: bool): Locker {
    if read then l.(readers := l.readers + multiset{uid}) else l.(writer := Some(uid))
  }

  function Release(l: Locker, uid: string, read: bool): Locker {
    if read then l.(readers := l.readers - multiset{uid})
    else if l.writer == Some(uid) then l.(writer := None)
    else l
  }

  // ----- steps

  datatype Step =
    | Begin(a: nat, client: nat, uid: string, read: bool)
    | Answer(a: nat, k: nat, granted: bool, replyLost: bool)
    | Collect(a: nat, k: nat)
    | Timeout(a: nat)
    | Finish(a: nat)
    | ReleaseOne(a: nat, k: nat, lost: bool)
    | Aborted(a: nat)
    | Drain(a: nat, k: nat, lost: bool)
    | Return(a: nat)
    | Unlock(client: nat)
    | RUnlock(client: nat)

  predicate Enabled(s: State, step: Step) {
    match step
    case Begin(a, client, uid, read) => a !in s.attempts && client in s.clients
    case Answer(a, k, granted, replyLost) =>
      a in s.attempts && k < |s.attempts[a].slots| && s.attempts[a].slots[k] == Waiting && k < |s.lockers|
      && (granted ==> CanGrant(s.lockers[k], s.attempts[a].read))
    case Collect(a, k) =>
      a in s.attempts && s.attempts[a].phase == Collecting && k < |s.attempts[a].slots| && s.attempts[a].slots[k].InChannel?
    case Timeout(a) => a in s.attempts && s.attempts[a].phase == Collecting && s.attempts[a].consumed < |s.attempts[a].slots|
    case Finish(a) => a in s.attempts && s.attempts[a].phase == Collecting && s.attempts[a].consumed == |s.attempts[a].slots|
    case ReleaseOne(a, k, lost) =>
      a in s.attempts && s.attempts[a].phase in {Aborting, Unlocking} && k < |s.attempts[a].slots|
      && s.attempts[a].slots[k] == Recorded && k < |s.lockers|
    case Aborted(a) => a in s.attempts && s.attempts[a].phase == Aborting && Recorded !in s.attempts[a].slots
    case Drain(a, k, lost) =>
      a in s.attempts && s.attempts[a].phase in {Won, Lost, Held, Unlocking} && k < |s.attempts[a].slots|
      && s.attempts[a].slots[k].InChannel? && k < |s.lockers|
    case Return(a) => a in s.attempts && s.attempts[a].phase == Won && Waiting !in s.attempts[a].slots && s.attempts[a].client in s.clients
    case Unlock(client) => client in s.clients && s.clients[client].writeLocks.Some? && s.clients[client].writeLocks.value in s.attempts
    case RUnlock(client) =>
      client in s.clients && s.clients[client].readersLocks != [] && s.clients[client].readersLocks[0] in s.attempts
  }

  function SetSlot(at: Attempt, k: nat, slot: Slot): Attempt
    requires k < |at.slots|
  {
    at.(slots := at.slots[k := slot])
  }

  /** The collector receives one answer: a grant is recorded; a refusal too many aborts the call. */
  function Received(at: Attempt, k: nat): Attempt
    requires k < |at.slots| && at.slots[k].InChannel?
  {
    var n := |at.slots|;
    if at.slots[k].granted then SetSlot(at, k, Recorded).(consumed := at.consumed + 1)
    else
      SetSlot(at, k, Gone).(consumed := at.consumed + 1, failed := at.failed + 1,
                            phase := if at.failed + 1 > n - Quorum(n, at.read) then Aborting else Collecting)
  }

  function Next(s: State, step: Step): State
    requires Enabled(s, step)
  {
    match step
    case Begin(a, client, uid, read) =>
      s.(attempts := s.attempts[a := Attempt(client, uid, read, Collecting, 0, 0, seq(|s.lockers|, _ => Waiting))])
    case Answer(a, k, granted, replyLost) =>
      var at := s.attempts[a];
      s.(lockers := if granted then s.lockers[k := Grant(s.lockers[k], at.uid, at.read)] else s.lockers,
         attempts := s.attempts[a := SetSlot(at, k, InChannel(granted && !replyLost))],
         lossless := s.lossless && !(granted && replyLost))
    case Collect(a, k) => s.(attempts := s.attempts[a := Received(s.attempts[a], k)])
    case Timeout(a) =>
      var at := s.attempts[a];
      s.(attempts := s.attempts[a := at.(phase := if QuorumMet(at.slots, at.read) then Won else Aborting)])
    case Finish(a) =>
      var at := s.attempts[a];
      s.(attempts := s.attempts[a := at.(phase := if QuorumMet(at.slots, at.read) then Won else Lost)])
    case ReleaseOne(a, k, lost) => Released(s, a, k, lost, true)
    case Aborted(a) => s.(attempts := s.attempts[a := s.attempts[a].(phase := Lost)])
    case Drain(a, k, lost) => Released(s, a, k, lost, s.attempts[a].slots[k].granted)
    case Return(a) =>
      var at := s.attempts[a];
      var c := s.clients[at.client];
      s.(attempts := s.attempts[a := at.(phase := Held)],
         clients := s.clients[at.client := if at.read then c.(readersLocks := c.readersLocks + [a])
                                           else c.(writeLocks := Some(a))])
    case Unlock(client) =>
      var a := s.clients[client].writeLocks.value;
      s.(attempts := s.attempts[a := s.attempts[a].(phase := Unlocking)],
         clients := s.clients[client := s.clients[client].(writeLocks := None)])
    case RUnlock(client) =>
      var a := s.clients[client].readersLocks[0];
      s.(attempts := s.attempts[a := s.attempts[a].(phase := Unlocking)],
         clients := s.clients[client := s.clients[client].(readersLocks := s.clients[client].readersLocks[1..])])
  }

  /** A slot is given up; if it held a grant, a release is sent, which may get lost. */
  function Released(s: State, a: nat, k: nat, lost: bool, granted: bool): State
    requires a in s.attempts && k < |s.attempts[a].slots| && k < |s.lockers|
  {
    var at := s.attempts[a];
    s.(lockers := if granted && !lost then s.lockers[k := Release(s.lockers[k], at.uid, at.read)] else s.lockers,
       attempts := s.attempts[a := SetSlot(at, k, Gone)],
       lossless := s.lossless && !(granted && lost))
  }

  predicate Init(s: State) {
    && s.attempts == map[] && s.lossless
    && (forall k :: 0 <= k < |s.lockers| ==> s.lockers[k] == Locker(None, multiset{}))
    && (forall c <- s.clients.Keys :: s.clients[c] == Client(None, []))
  }

  // ----- the invariant

  predicate LiveSlot(slot: Slot) {
    slot == Recorded || slot == InChannel(true)
  }

  predicate Live(s: State, a: nat, k: nat) {
    a in s.attempts && k < |s.attempts[a].slots| && LiveSlot(s.attempts[a].slots[k])
  }

  /** The attempts with a read grant of the given uid at locker k. */
  function LiveReads(s: State, k: nat, uid: string): set<nat> {
    set a | a in s.attempts && Live(s, a, k) && s.attempts[a].read && s.attempts[a].uid == uid
  }

  predicate LiveWrite(s: State, a: nat, k: nat) {
    Live(s, a, k) && !s.attempts[a].read
  }

  /** Recorded grants are backed by the lockers. */
  ghost predicate LockerInv(s: State, k: nat)
    requires k < |s.lockers|
  {
    WriteInv(s, k) && ReadInv(s, k) && (s.lockers[k].writer.Some? ==> s.lockers[k].readers == multiset{})
  }

  /** There is at most one live write grant and it is the locker's writer; in a run without lost messages
      every writer has one. */
  ghost predicate WriteInv(s: State, k: nat)
    requires k < |s.lockers|
  {
    var l := s.lockers[k];
    && (forall a, b :: LiveWrite(s, a, k) && LiveWrite(s, b, k) ==> a == b)
    && (forall a :: LiveWrite(s, a, k) ==> l.writer == Some(s.attempts[a].uid))
    && (s.lossless && l.writer.Some? ==> exists a :: LiveWrite(s, a, k))
  }

  /** The live read grants of a uid are among the locker's readers, and without lost messages they are all. */
  ghost predicate ReadInv(s: State, k: nat)
    requires k < |s.lockers|
  {
    && (forall uid :: |LiveReads(s, k, uid)| <= s.lockers[k].readers[uid])
    && (s.lossless ==> forall uid :: |LiveReads(s, k, uid)| == s.lockers[k].readers[uid])
  }

  function ConsumedSet(slots: seq<Slot>): set<nat> {
    set k: nat | k < |slots| && (slots[k] == Recorded || slots[k] == Gone)
  }

  /** The counters of a collector tell what its slots hold. */
  ghost predicate AttemptInv(n: nat, at: Attempt) {
    && |at.slots| == n
    && (at.phase in {Won, Held} ==> QuorumMet(at.slots, at.read))
    && (at.phase == Collecting ==>
          && |ConsumedSet(at.slots)| == at.consumed
          && |RecordedSet(at.slots)| + at.failed == at.consumed
          && (at.failed == 0 || at.failed <= n - Quorum(n, at.read)))
    && (at.phase == Lost && (n != 1 || at.read) ==> Recorded !in at.slots)
  }

  /** The mutexes record exactly the attempts that are held. */
  ghost predicate ClientInv(s: State) {
    && (forall c <- s.clients.Keys :: ClientFits(s.attempts, c, s.clients[c]))
    && (forall a <- s.attempts.Keys :: HeldFits(s.clients, a, s.attempts[a]))
  }

  /** What a mutex records is held by its client, for the right kind of lock and once. */
  ghost predicate ClientFits(attempts: map<nat, Attempt>, c: nat, client: Client) {
    && (client.writeLocks.Some? ==> HeldBy(attempts, client.writeLocks.value, c, false))
    && (forall i :: 0 <= i < |client.readersLocks| ==> HeldBy(attempts, client.readersLocks[i], c, true))
    && (forall i, j :: 0 <= i < j < |client.readersLocks| ==> client.readersLocks[i] != client.readersLocks[j])
  }

  predicate HeldBy(attempts: map<nat, Attempt>, a: nat, c: nat, read: bool) {
    a in attempts && attempts[a].phase == Held && attempts[a].read == read && attempts[a].client == c
  }

  /** A held attempt is recorded. */
  predicate HeldFits(clients: map<nat, Client>, a: nat, at: Attempt) {
    at.phase == Held ==> at.client in clients && Records(clients[at.client], a, at.read)
  }

  predicate Records(client: Client, a: nat, read: bool) {
    if read then a in client.readersLocks else client.writeLocks == Some(a)
  }

  ghost predicate Inv(s: State) {
    && (forall k :: 0 <= k < |s.lockers| ==> LockerInv(s, k))
    && (forall a <- s.attempts.Keys :: AttemptInv(|s.lockers|, s.attempts[a]))
    && ClientInv(s)
  }

  // ----- quorums

  function Range(n: nat): (r: set<nat>)
    ensures |r| == n && forall k: nat :: k in r <==> k < n
  {
    if n == 0 then {} else Range(n - 1) + {n - 1}
  }

  lemma {:induction false} SubsetSize(a: set<nat>, b: set<nat>)
    requires a <= b
    ensures |a| <= |b|
  {
    assert b == a + (b - a);
  }

  /** A write quorum meets every quorum. */
  lemma QuorumsMeet(n: nat, a: set<nat>, b: set<nat>, read: bool) returns (k: nat)
    requires a <= Range(n) && b <= Range(n)
    requires |a| >= WriteQuorum(n) && |b| >= Quorum(n, read)
    ensures k in a && k in b
  {
    SubsetSize(a + b, Range(n));
    assert |a + b| == |a| + |b| - |a * b|;
    assert a * b != {};
    k :| k in a * b;
  }

  /** A locker with a live write grant has that writer and no reader; one with a live read grant has a reader. */
  lemma LiveBacked(s: State, a: nat, k: nat)
    requires k < |s.lockers| && LockerInv(s, k) && Live(s, a, k)
    ensures !s.attempts[a].read ==> s.lockers[k].writer.Some? && s.lockers[k].readers == multiset{}
    ensures s.attempts[a].read ==> s.lockers[k].writer.None? && s.lockers[k].readers != multiset{}
  {
    if s.attempts[a].read {
      assert a in LiveReads(s, k, s.attempts[a].uid);
    } else {
      assert LiveWrite(s, a, k);
    }
  }

  /** Two attempts that meet their quorums are both for reading. */
  lemma WinnersRead(s: State, a: nat, b: nat)
    requires forall k :: 0 <= k < |s.lockers| ==> LockerInv(s, k)
    requires a in s.attempts && b in s.attempts && a != b
    requires |s.attempts[a].slots| == |s.attempts[b].slots| == |s.lockers|
    requires QuorumMet(s.attempts[a].slots, s.attempts[a].read) && QuorumMet(s.attempts[b].slots, s.attempts[b].read)
    ensures s.attempts[a].read
  {
    if !s.attempts[a].read {
      var k := QuorumsMeet(|s.lockers|, RecordedSet(s.attempts[a].slots), RecordedSet(s.attempts[b].slots), s.attempts[b].read);
      LiveBacked(s, a, k);
      LiveBacked(s, b, k);
    }
  }

  /** Two clients never both hold the write lock, and a writer never coexists with a reader. */
  lemma MutualExclusion(s: State, a: nat, b: nat)
    requires Inv(s) && a in s.attempts && b in s.attempts && a != b
    requires s.attempts[a].phase == Held && s.attempts[b].phase == Held
    ensures s.attempts[a].read && s.attempts[b].read
  {
    WinnersRead(s, a, b);
    WinnersRead(s, b, a);
  }

  // ----- every step keeps the invariant: lockers

  /** Nothing changes at locker k but perhaps phases and counters. */
  ghost predicate SameLive(s: State, s': State, k: nat, except: nat) {
    forall b: nat :: b != except ==>
      && (Live(s', b, k) <==> Live(s, b, k))
      && (Live(s, b, k) ==> s'.attempts[b].uid == s.attempts[b].uid && s'.attempts[b].read == s.attempts[b].read)
  }

  /** If live grants and the locker itself are unchanged, so is the invariant. */
  lemma LockerFrame(s: State, s': State, k: nat, a: nat)
    requires k < |s.lockers| && LockerInv(s, k)
    requires |s'.lockers| == |s.lockers| && s'.lockers[k] == s.lockers[k] && (s'.lossless ==> s.lossless)
    requires SameLive(s, s', k, a)
    requires Live(s', a, k) <==> Live(s, a, k)
    requires Live(s, a, k) ==> s'.attempts[a].uid == s.attempts[a].uid && s'.attempts[a].read == s.attempts[a].read
    ensures LockerInv(s', k)
  {
    forall uid
      ensures LiveReads(s', k, uid) == LiveReads(s, k, uid)
    {
    }
    forall b
      ensures LiveWrite(s', b, k) <==> LiveWrite(s, b, k)
    {
    }
  }

  lemma ReadsGrow(s: State, s': State, k: nat, a: nat, uid: string)
    requires a in s.attempts && a in s'.attempts
    requires s'.attempts[a].uid == s.attempts[a].uid && s'.attempts[a].read == s.attempts[a].read
    requires !Live(s, a, k) && SameLive(s, s', k, a)
    ensures var more := Live(s', a, k) && s.attempts[a].read && s.attempts[a].uid == uid;
            && LiveReads(s', k, uid) == LiveReads(s, k, uid) + (if more then {a} else {})
            && |LiveReads(s', k, uid)| == |LiveReads(s, k, uid)| + (if more then 1 else 0)
  {
  }

  lemma ReadsShrink(s: State, s': State, k: nat, a: nat, uid: string)
    requires Live(s, a, k) && !Live(s', a, k) && SameLive(s, s', k, a)
    ensures LiveReads(s', k, uid) == LiveReads(s, k, uid) - {a}
    ensures |LiveReads(s', k, uid)|
         == |LiveReads(s, k, uid)| - (if s.attempts[a].read && s.attempts[a].uid == uid then 1 else 0)
  {
    ReadsWithout(s, s', k, a, uid);
    hide LiveReads, Live, SameLive;
    if a in LiveReads(s, k, uid) {
      assert |LiveReads(s, k, uid) - {a}| == |LiveReads(s, k, uid)| - 1;
    } else {
      assert LiveReads(s, k, uid) - {a} == LiveReads(s, k, uid);
    }
  }

  lemma ReadsWithout(s: State, s': State, k: nat, a: nat, uid: string)
    requires Live(s, a, k) && !Live(s', a, k) && SameLive(s, s', k, a)
    ensures LiveReads(s', k, uid) == LiveReads(s, k, uid) - {a}
    ensures a in LiveReads(s, k, uid) <==> s.attempts[a].read && s.attempts[a].uid == uid
  {
  }

  lemma OtherWrites(s: State, s': State, k: nat, a: nat)
    requires SameLive(s, s', k, a)
    ensures forall b: nat :: b != a ==> (LiveWrite(s', b, k) <==> LiveWrite(s, b, k))
  {
  }

  /** The locker grants: attempt a is live now, unless the reply got lost. */
  lemma LockerGrants(s: State, s': State, k: nat, a: nat)
    requires k < |s.lockers| && LockerInv(s, k) && a in s.attempts && a in s'.attempts
    requires s'.attempts[a].uid == s.attempts[a].uid && s'.attempts[a].read == s.attempts[a].read
    requires CanGrant(s.lockers[k], s.attempts[a].read) && !Live(s, a, k)
    requires |s'.lockers| == |s.lockers| && s'.lockers[k] == Grant(s.lockers[k], s.attempts[a].uid, s.attempts[a].read)
    requires SameLive(s, s', k, a)
    requires (s'.lossless ==> s.lossless) && (Live(s', a, k) || !s'.lossless)
    ensures LockerInv(s', k)
  {
    hide LiveReads, SameLive;
    OtherWrites(s, s', k, a);
    forall uid
      ensures var more := Live(s', a, k) && s.attempts[a].read && s.attempts[a].uid == uid;
              |LiveReads(s', k, uid)| == |LiveReads(s, k, uid)| + (if more then 1 else 0)
    {
      ReadsGrow(s, s', k, a, uid);
    }
    assert WriteInv(s', k) by {
      assert s'.lossless && !s.attempts[a].read ==> LiveWrite(s', a, k);
    }
  }

  /** Attempt a gives its grant up; the locker learns it, unless the release got lost. */
  lemma LockerReleases(s: State, s': State, k: nat, a: nat)
    requires k < |s.lockers| && LockerInv(s, k) && Live(s, a, k) && !Live(s', a, k)
    requires |s'.lockers| == |s.lockers| && SameLive(s, s', k, a) && (s'.lossless ==> s.lossless)
    requires s'.lockers[k] == Release(s.lockers[k], s.attempts[a].uid, s.attempts[a].read)
          || (s'.lockers[k] == s.lockers[k] && !s'.lossless)
    ensures LockerInv(s', k)
  {
    hide LiveReads, SameLive;
    OtherWrites(s, s', k, a);
    forall uid
      ensures |LiveReads(s', k, uid)|
           == |LiveReads(s, k, uid)| - (if s.attempts[a].read && s.attempts[a].uid == uid then 1 else 0)
    {
      ReadsShrink(s, s', k, a, uid);
    }
    LiveBacked(s, a, k);
    if !s.attempts[a].read {
      assert LiveWrite(s, a, k);
      WritersKept(s, s', k, a);
    } else {
      WritersKeptRead(s, s', k, a);
    }
    hide WriteInv, LiveWrite;
    assert ReadInv(s', k);
  }

  lemma WritersKept(s: State, s': State, k: nat, a: nat)
    requires k < |s.lockers| == |s'.lockers| && WriteInv(s, k) && LiveWrite(s, a, k) && !Live(s', a, k)
    requires forall b: nat :: b != a ==> (LiveWrite(s', b, k) <==> LiveWrite(s, b, k))
    requires s'.lockers[k].writer == None || (s'.lockers[k].writer == s.lockers[k].writer && !s'.lossless)
    ensures WriteInv(s', k)
  {
    assert forall b: nat :: !LiveWrite(s', b, k);
  }

  lemma WritersKeptRead(s: State, s': State, k: nat, a: nat)
    requires k < |s.lockers| == |s'.lockers| && WriteInv(s, k) && !Live(s', a, k)
    requires forall b: nat :: b != a ==> (LiveWrite(s', b, k) <==> LiveWrite(s, b, k))
    requires s.lockers[k].writer.None? && s'.lockers[k].writer.None?
    ensures WriteInv(s', k)
  {
    assert forall b: nat :: !LiveWrite(s', b, k);
  }

  lemma UpdateSame(s: State, s': State, a: nat)
    requires forall b: nat :: b != a ==> (b in s'.attempts <==> b in s.attempts)
    requires forall b: nat :: b != a && b in s.attempts ==> s'.attempts[b] == s.attempts[b]
    ensures forall k: nat :: SameLive(s, s', k, a)
  {
  }

  /** A step of attempt a that leaves its live grants alone keeps every locker's invariant. */
  lemma AttemptStep(s: State, s': State, a: nat, at: Attempt)
    requires a in s.attempts && s'.attempts == s.attempts[a := at]
    requires s'.lockers == s.lockers && s'.lossless == s.lossless
    requires at.uid == s.attempts[a].uid && at.read == s.attempts[a].read
    requires forall k: nat :: Live(s', a, k) <==> Live(s, a, k)
    requires forall k :: 0 <= k < |s.lockers| ==> LockerInv(s, k)
    ensures forall k :: 0 <= k < |s'.lockers| ==> LockerInv(s', k)
  {
    UpdateSame(s, s', a);
    forall k | 0 <= k < |s'.lockers|
      ensures LockerInv(s', k)
    {
      LockerFrame(s, s', k, a);
    }
  }

  lemma AnswerLockers(s: State, a: nat, k: nat, granted: bool, replyLost: bool)
    requires Inv(s) && Enabled(s, Answer(a, k, granted, replyLost))
    ensures var s' := Next(s, Answer(a, k, granted, replyLost)); forall j :: 0 <= j < |s'.lockers| ==> LockerInv(s', j)
  {
    hide LockerInv, ReadInv, QuorumMet, SameLive, WriteInv;
    var s' := Next(s, Answer(a, k, granted, replyLost));
    UpdateSame(s, s', a);
    hide Grant, CanGrant;
    forall j | 0 <= j < |s'.lockers|
      ensures LockerInv(s', j)
    {
      assert LockerInv(s, j);
      if j == k && granted {
        LockerGrants(s, s', j, a);
      } else {
        LockerFrame(s, s', j, a);
      }
    }
  }

  lemma ReleasedLockers(s: State, a: nat, k: nat, lost: bool, granted: bool)
    requires Inv(s) && a in s.attempts && k < |s.attempts[a].slots| && k < |s.lockers|
    requires granted <==> LiveSlot(s.attempts[a].slots[k])
    ensures var s' := Released(s, a, k, lost, granted); forall j :: 0 <= j < |s'.lockers| ==> LockerInv(s', j)
  {
    var s' := Released(s, a, k, lost, granted);
    UpdateSame(s, s', a);
    forall j | 0 <= j < |s'.lockers|
      ensures LockerInv(s', j)
    {
      assert LockerInv(s, j);
      if j == k && granted {
        LockerReleases(s, s', j, a);
      } else {
        LockerFrame(s, s', j, a);
      }
    }
  }

  lemma BeginLockers(s: State, a: nat, client: nat, uid: string, read: bool)
    requires Inv(s) && Enabled(s, Begin(a, client, uid, read))
    ensures var s' := Next(s, Begin(a, client, uid, read)); forall j :: 0 <= j < |s'.lockers| ==> LockerInv(s', j)
  {
    var s' := Next(s, Begin(a, client, uid, read));
    UpdateSame(s, s', a);
    forall j | 0 <= j < |s'.lockers|
      ensures LockerInv(s', j)
    {
      LockerFrame(s, s', j, a);
    }
  }

  lemma StepLockers(s: State, step: Step)
    requires Inv(s) && Enabled(s, step)
    ensures var s' := Next(s, step); forall k :: 0 <= k < |s'.lockers| ==> LockerInv(s', k)
  {
    hide LockerInv, AttemptInv, ClientInv, QuorumMet, Next;
    match step
    case Begin(a, client, uid, read) => BeginLockers(s, a, client, uid, read);
    case Answer(a, k, granted, replyLost) => AnswerLockers(s, a, k, granted, replyLost);
    case ReleaseOne(a, k, lost) => ReleaseLockers(s, step);
    case Drain(a, k, lost) => ReleaseLockers(s, step);
    case _ => PhaseLockers(s, step);
  }

  lemma ReleaseLockers(s: State, step: Step)
    requires Inv(s) && Enabled(s, step) && (step.ReleaseOne? || step.Drain?)
    ensures var s' := Next(s, step); forall k :: 0 <= k < |s'.lockers| ==> LockerInv(s', k)
  {
    hide LockerInv, AttemptInv, ClientInv, Released;
    ReleasedLockers(s, step.a, step.k, step.lost, if step.ReleaseOne? then true else s.attempts[step.a].slots[step.k].granted);
  }

  /** The steps that no locker notices. */
  lemma PhaseLockers(s: State, step: Step)
    requires Inv(s) && Enabled(s, step)
    requires !step.Begin? && !step.Answer? && !step.ReleaseOne? && !step.Drain?
    ensures var s' := Next(s, step); forall k :: 0 <= k < |s'.lockers| ==> LockerInv(s', k)
  {
    hide LockerInv, AttemptInv, ClientInv, QuorumMet;
    var s', a := Next(s, step), Moved(s, step);
    AttemptStep(s, s', a, s'.attempts[a]);
  }

  // ----- every step keeps the invariant: attempts

  lemma FreshSlots(n: nat)
    ensures RecordedSet(seq(n, _ => Waiting)) == {} && ConsumedSet(seq(n, _ => Waiting)) == {}
  {
  }

  /** Receiving one answer moves one slot into the consumed ones. */
  lemma ReceivedSets(slots: seq<Slot>, k: nat, slot: Slot)
    requires k < |slots| && slots[k].InChannel? && (slot == Recorded || slot == Gone)
    ensures |ConsumedSet(slots[k := slot])| == |ConsumedSet(slots)| + 1
    ensures |RecordedSet(slots[k := slot])| == |RecordedSet(slots)| + if slot == Recorded then 1 else 0
    ensures slot == Gone ==> RecordedSet(slots[k := slot]) == RecordedSet(slots)
  {
    ReceivedMembers(slots, k, slot);
    hide ConsumedSet, RecordedSet;
    assert |ConsumedSet(slots) + {k}| == |ConsumedSet(slots)| + 1;
    if slot == Recorded {
      assert |RecordedSet(slots) + {k}| == |RecordedSet(slots)| + 1;
    }
  }

  lemma ReceivedMembers(slots: seq<Slot>, k: nat, slot: Slot)
    requires k < |slots| && slots[k].InChannel? && (slot == Recorded || slot == Gone)
    ensures k !in ConsumedSet(slots) && k !in RecordedSet(slots)
    ensures ConsumedSet(slots[k := slot]) == ConsumedSet(slots) + {k}
    ensures RecordedSet(slots[k := slot]) == if slot == Recorded then RecordedSet(slots) + {k} else RecordedSet(slots)
  {
  }

  lemma AnsweredSets(slots: seq<Slot>, k: nat, granted: bool)
    requires k < |slots| && slots[k] == Waiting
    ensures ConsumedSet(slots[k := InChannel(granted)]) == ConsumedSet(slots)
    ensures RecordedSet(slots[k := InChannel(granted)]) == RecordedSet(slots)
  {
  }

  lemma CollectAttempt(n: nat, at: Attempt, k: nat)
    requires AttemptInv(n, at) && at.phase == Collecting && k < |at.slots| && at.slots[k].InChannel?
    ensures AttemptInv(n, Received(at, k))
  {
    ReceivedSets(at.slots, k, if at.slots[k].granted then Recorded else Gone);
  }

  /** A call that has consumed every answer without a quorum has no grant left, except a call for writing
      with one locker. */
  lemma FinishAttempt(n: nat, at: Attempt)
    requires AttemptInv(n, at) && at.phase == Collecting && at.consumed == |at.slots|
    ensures AttemptInv(n, at.(phase := if QuorumMet(at.slots, at.read) then Won else Lost))
  {
    if Recorded in at.slots {
      var k: nat :| k < |at.slots| && at.slots[k] == Recorded;
      assert k in RecordedSet(at.slots);
    }
  }

  lemma AnswerAttempt(n: nat, at: Attempt, k: nat, granted: bool)
    requires AttemptInv(n, at) && k < |at.slots| && at.slots[k] == Waiting
    ensures AttemptInv(n, SetSlot(at, k, InChannel(granted)))
  {
    AnsweredSets(at.slots, k, granted);
    SameQuorum(at.slots, at.slots[k := InChannel(granted)], at.read);
  }

  lemma DrainAttempt(n: nat, at: Attempt, k: nat)
    requires AttemptInv(n, at) && at.phase in {Won, Lost, Held, Unlocking} && k < |at.slots| && at.slots[k].InChannel?
    ensures AttemptInv(n, SetSlot(at, k, Gone))
  {
    ReceivedSets(at.slots, k, Gone);
    SameQuorum(at.slots, at.slots[k := Gone], at.read);
  }

  /** The attempt that a step moves. */
  function Moved(s: State, step: Step): nat
    requires Enabled(s, step)
  {
    match step
    case Begin(a, _, _, _) => a
    case Answer(a, _, _, _) => a
    case Collect(a, _) => a
    case Timeout(a) => a
    case Finish(a) => a
    case ReleaseOne(a, _, _) => a
    case Aborted(a) => a
    case Drain(a, _, _) => a
    case Return(a) => a
    case Unlock(client) => s.clients[client].writeLocks.value
    case RUnlock(client) => s.clients[client].readersLocks[0]
  }

  lemma OthersStay(s: State, step: Step)
    requires Enabled(s, step)
    ensures var s', a := Next(s, step), Moved(s, step);
            && |s'.lockers| == |s.lockers| && a in s'.attempts
            && (forall b <- s'.attempts.Keys :: b != a ==> b in s.attempts && s'.attempts[b] == s.attempts[b])
  {
    hide QuorumMet, Received, Grant;
  }

  lemma MovedAttempt(s: State, step: Step)
    requires Inv(s) && Enabled(s, step)
    ensures Moved(s, step) in Next(s, step).attempts
    ensures AttemptInv(|s.lockers|, Next(s, step).attempts[Moved(s, step)])
  {
    hide LockerInv, ClientInv, QuorumMet, AttemptInv;
    var n := |s.lockers|;
    match step
    case Begin(a, client, uid, read) => BeginAttempt(n, client, uid, read);
    case Answer(a, k, granted, replyLost) => AnswerAttempt(n, s.attempts[a], k, granted && !replyLost);
    case Collect(a, k) => CollectAttempt(n, s.attempts[a], k);
    case Finish(a) => FinishAttempt(n, s.attempts[a]);
    case Drain(a, k, lost) => DrainAttempt(n, s.attempts[a], k);
    case _ => PhaseAttempt(s, step);
  }

  lemma BeginAttempt(n: nat, client: nat, uid: string, read: bool)
    ensures AttemptInv(n, Attempt(client, uid, read, Collecting, 0, 0, seq(n, _ => Waiting)))
  {
    FreshSlots(n);
  }

  /** The steps that change an attempt's phase or give up a slot outside the collector. */
  lemma PhaseAttempt(s: State, step: Step)
    requires Inv(s) && Enabled(s, step)
    requires step.Timeout? || step.ReleaseOne? || step.Aborted? || step.Return? || step.Unlock? || step.RUnlock?
    ensures Moved(s, step) in Next(s, step).attempts
    ensures AttemptInv(|s.lockers|, Next(s, step).attempts[Moved(s, step)])
  {
    hide LockerInv, ClientInv, QuorumMet, RecordedSet, ConsumedSet;
  }

  lemma StepAttempts(s: State, step: Step)
    requires Inv(s) && Enabled(s, step)
    ensures var s' := Next(s, step); forall a <- s'.attempts.Keys :: AttemptInv(|s'.lockers|, s'.attempts[a])
  {
    hide LockerInv, ClientInv, AttemptInv, Next, Enabled;
    OthersStay(s, step);
    MovedAttempt(s, step);
  }

  lemma SameQuorum(slots: seq<Slot>, slots': seq<Slot>, read: bool)
    requires |slots| == |slots'| && RecordedSet(slots) == RecordedSet(slots')
    ensures QuorumMet(slots, read) <==> QuorumMet(slots', read)
  {
  }

  // ----- every step keeps the invariant: clients

  /** Steps that leave the held attempts alone. */
  lemma ClientFrame(s: State, s': State)
    requires ClientInv(s) && s'.clients == s.clients
    requires forall a <- s.attempts.Keys :: a in s'.attempts
    requires forall a <- s'.attempts.Keys :: s'.attempts[a].phase == Held <==> a in s.attempts && s.attempts[a].phase == Held
    requires forall a <- s.attempts.Keys :: s'.attempts[a].read == s.attempts[a].read && s'.attempts[a].client == s.attempts[a].client
    ensures ClientInv(s')
  {
  }

  /** A successful write lock finds no write lock recorded, so nothing is overwritten. */
  lemma NothingOverwritten(s: State, a: nat)
    requires Inv(s) && Enabled(s, Return(a)) && !s.attempts[a].read
    ensures s.clients[s.attempts[a].client].writeLocks.None?
  {
    var c := s.clients[s.attempts[a].client];
    if c.writeLocks.Some? {
      assert s.attempts[c.writeLocks.value].phase == Held;
      WinnersRead(s, a, c.writeLocks.value);
    }
  }

  /** One attempt and the mutex of its client change. */
  lemma OneClientChanges(s: State, s': State, a: nat, at: Attempt, client: Client)
    requires ClientInv(s) && a in s.attempts && s.attempts[a].client in s.clients && at.client == s.attempts[a].client
    requires s'.attempts == s.attempts[a := at] && s'.clients == s.clients[at.client := client]
    requires ClientFits(s'.attempts, at.client, client) && HeldFits(s'.clients, a, at)
    requires forall b: nat, read :: b != a && Records(s.clients[at.client], b, read) ==> Records(client, b, read)
    ensures ClientInv(s')
  {
    hide ClientFits, HeldFits, Records;
    forall c <- s'.clients.Keys
      ensures ClientFits(s'.attempts, c, s'.clients[c])
    {
      if c != at.client {
        OtherClient(s.attempts, s'.attempts, a, c, s.clients[c]);
      }
    }
    forall b <- s'.attempts.Keys
      ensures HeldFits(s'.clients, b, s'.attempts[b])
    {
      if b != a {
        OtherHeld(s.clients, s'.clients, at.client, b, s.attempts[b]);
      }
    }
  }

  lemma OtherClient(attempts: map<nat, Attempt>, attempts': map<nat, Attempt>, a: nat, c: nat, client: Client)
    requires ClientFits(attempts, c, client) && a in attempts && attempts[a].client != c
    requires forall b: nat :: b != a && b in attempts ==> b in attempts' && attempts'[b] == attempts[b]
    ensures ClientFits(attempts', c, client)
  {
  }

  lemma OtherHeld(clients: map<nat, Client>, clients': map<nat, Client>, c: nat, b: nat, at: Attempt)
    requires HeldFits(clients, b, at) && c in clients && c in clients'
    requires forall d :: d != c && d in clients ==> d in clients' && clients'[d] == clients[d]
    requires forall read :: Records(clients[c], b, read) ==> Records(clients'[c], b, read)
    ensures HeldFits(clients', b, at)
  {
  }

  lemma ReturnWriteClients(s: State, a: nat)
    requires Inv(s) && Enabled(s, Return(a)) && !s.attempts[a].read
    ensures ClientInv(Next(s, Return(a)))
  {
    hide AttemptInv, LockerInv;
    NothingOverwritten(s, a);
    var s', at := Next(s, Return(a)), s.attempts[a].(phase := Held);
    var client := s.clients[at.client].(writeLocks := Some(a));
    WriteRecorded(s.attempts, s'.attempts, a, at, s.clients[at.client]);
    hide ClientFits;
    OneClientChanges(s, s', a, at, client);
  }

  lemma WriteRecorded(attempts: map<nat, Attempt>, attempts': map<nat, Attempt>, a: nat, at: Attempt, client: Client)
    requires ClientFits(attempts, at.client, client) && a in attempts && attempts' == attempts[a := at]
    requires attempts[a].phase != Held && at.phase == Held && !at.read
    ensures ClientFits(attempts', at.client, client.(writeLocks := Some(a)))
  {
  }

  lemma ReturnReadClients(s: State, a: nat)
    requires Inv(s) && Enabled(s, Return(a)) && s.attempts[a].read
    ensures ClientInv(Next(s, Return(a)))
  {
    hide LockerInv, AttemptInv, QuorumMet, ClientFits;
    var s', at := Next(s, Return(a)), s.attempts[a].(phase := Held);
    var before := s.clients[at.client];
    var client := before.(readersLocks := before.readersLocks + [a]);
    ReadRecorded(s.attempts, s'.attempts, a, at, before);
    OneClientChanges(s, s', a, at, client);
  }

  lemma ReadRecorded(attempts: map<nat, Attempt>, attempts': map<nat, Attempt>, a: nat, at: Attempt, client: Client)
    requires ClientFits(attempts, at.client, client) && a in attempts && attempts' == attempts[a := at]
    requires attempts[a].phase != Held && at.phase == Held && at.read
    ensures ClientFits(attempts', at.client, client.(readersLocks := client.readersLocks + [a]))
  {
    var before := client.readersLocks;
    assert forall i :: 0 <= i < |before| ==> HeldBy(attempts, before[i], at.client, true) && before[i] != a;
  }

  lemma UnlockClients(s: State, client: nat)
    requires Inv(s) && Enabled(s, Unlock(client))
    ensures ClientInv(Next(s, Unlock(client)))
  {
    hide LockerInv, AttemptInv;
    var before := s.clients[client];
    var a := before.writeLocks.value;
    assert ClientFits(s.attempts, client, before);
    var s', at := Next(s, Unlock(client)), s.attempts[a].(phase := Unlocking);
    WriteForgotten(s.attempts, s'.attempts, a, at, client, before);
    hide ClientFits;
    OneClientChanges(s, s', a, at, before.(writeLocks := None));
  }

  lemma WriteForgotten(attempts: map<nat, Attempt>, attempts': map<nat, Attempt>, a: nat, at: Attempt, c: nat, client: Client)
    requires ClientFits(attempts, c, client) && client.writeLocks == Some(a) && attempts' == attempts[a := at]
    ensures ClientFits(attempts', c, client.(writeLocks := None)) && attempts[a].client == c
  {
    assert forall i :: 0 <= i < |client.readersLocks| ==> client.readersLocks[i] != a;
  }

  lemma RUnlockClients(s: State, client: nat)
    requires Inv(s) && Enabled(s, RUnlock(client))
    ensures ClientInv(Next(s, RUnlock(client)))
  {
    hide LockerInv, AttemptInv, QuorumMet;
    var before := s.clients[client];
    var a := before.readersLocks[0];
    assert ClientFits(s.attempts, client, before);
    var s', at := Next(s, RUnlock(client)), s.attempts[a].(phase := Unlocking);
    FirstDropped(before.readersLocks);
    FirstForgotten(s.attempts, s'.attempts, a, at, client, before);
    hide ClientFits;
    OneClientChanges(s, s', a, at, before.(readersLocks := before.readersLocks[1..]));
  }

  lemma FirstForgotten(attempts: map<nat, Attempt>, attempts': map<nat, Attempt>, a: nat, at: Attempt, c: nat, client: Client)
    requires ClientFits(attempts, c, client) && client.readersLocks != [] && client.readersLocks[0] == a
    requires attempts' == attempts[a := at]
    ensures ClientFits(attempts', c, client.(readersLocks := client.readersLocks[1..])) && attempts[a].client == c
  {
    assert HeldBy(attempts, client.readersLocks[0], c, true);
    assert client.writeLocks.Some? ==> client.writeLocks.value != a;
    var rest := client.readersLocks[1..];
    forall i | 0 <= i < |rest|
      ensures HeldBy(attempts', rest[i], c, true)
    {
      assert HeldBy(attempts, client.readersLocks[i + 1], c, true) && client.readersLocks[i + 1] != client.readersLocks[0];
    }
  }

  lemma FirstDropped(before: seq<nat>)
    requires before != [] && forall i, j :: 0 <= i < j < |before| ==> before[i] != before[j]
    ensures forall b :: b in before[1..] <==> b in before && b != before[0]
    ensures forall i, j :: 0 <= i < j < |before[1..]| ==> before[1..][i] != before[1..][j]
  {
    forall b | b in before && b != before[0]
      ensures b in before[1..]
    {
      var i :| 0 <= i < |before| && before[i] == b;
      assert before[1..][i - 1] == b;
    }
  }

  lemma StepClients(s: State, step: Step)
    requires Inv(s) && Enabled(s, step)
    ensures ClientInv(Next(s, step))
  {
    hide LockerInv, AttemptInv, ClientInv, QuorumMet, Next;
    match step
    case Return(a) =>
      if s.attempts[a].read {
        ReturnReadClients(s, a);
      } else {
        ReturnWriteClients(s, a);
      }
    case Unlock(client) => UnlockClients(s, client);
    case RUnlock(client) => RUnlockClients(s, client);
    case _ => QuietClients(s, step);
  }

  /** The steps that no client notices. */
  lemma QuietClients(s: State, step: Step)
    requires Inv(s) && Enabled(s, step) && !step.Return? && !step.Unlock? && !step.RUnlock?
    ensures ClientInv(Next(s, step))
  {
    hide LockerInv, AttemptInv, ClientInv, QuorumMet;
    ClientFrame(s, Next(s, step));
  }

  // ----- runs

  lemma InitInv(s: State)
    requires Init(s)
    ensures Inv(s)
  {
    forall k | 0 <= k < |s.lockers|
      ensures LockerInv(s, k)
    {
      forall uid
        ensures LiveReads(s, k, uid) == {}
      {
      }
    }
  }

  lemma StepInv(s: State, step: Step)
    requires Inv(s) && Enabled(s, step)
    ensures Inv(Next(s, step)) && |Next(s, step).lockers| == |s.lockers|
  {
    hide AttemptInv, ClientInv, Grant, ReadInv;
    StepLockers(s, step);
    StepAttempts(s, step);
    StepClients(s, step);
    hide LockerInv, AttemptInv, ClientInv;
  }

  /** The state after a run, if every step was possible. */
  function Run(s: State, steps: seq<Step>): Option<State>
    decreases |steps|
  {
    if steps == [] then Some(s)
    else if Enabled(s, steps[0]) then Run(Next(s, steps[0]), steps[1..])
    else None
  }

  lemma {:induction false} RunInv(s: State, steps: seq<Step>)
    requires Inv(s)
    ensures Run(s, steps).Some? ==> Inv(Run(s, steps).value)
    decreases |steps|
  {
    if steps != [] && Enabled(s, steps[0]) {
      StepInv(s, steps[0]);
      RunInv(Next(s, steps[0]), steps[1..]);
    }
  }

  /** Whatever the steps, and whatever messages get lost: two attempts that hold the lock at the same time
      both hold it for reading. */
  lemma LockSafety(s0: State, steps: seq<Step>, a: nat, b: nat)
    requires Init(s0) && Run(s0, steps).Some?
    requires var s := Run(s0, steps).value;
             a in s.attempts && b in s.attempts && a != b && s.attempts[a].phase == Held && s.attempts[b].phase == Held
    ensures var s := Run(s0, steps).value; s.attempts[a].read && s.attempts[b].read
  {
    InitInv(s0);
    RunInv(s0, steps);
    MutualExclusion(Run(s0, steps).value, a, b);
  }

  // ----- conservation

  /** Every call has returned, its channel is drained, and every lock taken has been given back. */
  ghost predicate Settled(s: State) {
    forall a <- s.attempts.Keys ::
      && InChannel(true) !in s.attempts[a].slots
      && (s.attempts[a].phase == Lost || (s.attempts[a].phase == Unlocking && Recorded !in s.attempts[a].slots))
  }

  /** A write lock asked of one single locker whose grant was recorded. */
  predicate Stranded(s: State, a: nat) {
    a in s.attempts && !s.attempts[a].read && s.attempts[a].slots == [Recorded] && s.attempts[a].phase in {Collecting, Lost}
  }

  /** If no message was lost and everything is settled, a locker is free exactly if no grant is stranded. */
  lemma FreeUnlessStranded(s: State, k: nat)
    requires Inv(s) && s.lossless && Settled(s) && k < |s.lockers|
    ensures s.lockers[k] == Locker(None, multiset{}) <==> forall a: nat :: !Stranded(s, a)
    ensures |s.lockers| != 1 ==> forall a: nat :: !Stranded(s, a)
  {
    assert LockerInv(s, k);
    forall a: nat
      ensures Live(s, a, k) ==> Stranded(s, a)
      ensures Stranded(s, a) ==> |s.lockers| == 1 && LiveWrite(s, a, k)
    {
      LiveIsStranded(s, k, a);
    }
    if forall a: nat :: !Stranded(s, a) {
      NobodyLive(s, k);
    }
  }

  lemma LiveIsStranded(s: State, k: nat, a: nat)
    requires Inv(s) && Settled(s) && k < |s.lockers|
    ensures Live(s, a, k) ==> Stranded(s, a)
    ensures Stranded(s, a) ==> |s.lockers| == 1 && LiveWrite(s, a, k)
  {
    hide LockerInv, ClientInv;
    if a in s.attempts {
      assert AttemptInv(|s.lockers|, s.attempts[a]);
      assert forall j :: 0 <= j < |s.attempts[a].slots| ==> s.attempts[a].slots[j] in s.attempts[a].slots;
    }
  }

  /** The collector of a write lock takes a grant out of its channel, which it does before the timeout. */
  predicate TakesWriteGrant(s: State, step: Step) {
    step.Collect? && Enabled(s, step) && s.attempts[step.a].slots[step.k].granted && !s.attempts[step.a].read
  }

  predicate SomeTakesWriteGrant(s: State, steps: seq<Step>)
    decreases |steps|
  {
    steps != [] && Enabled(s, steps[0])
    && (TakesWriteGrant(s, steps[0]) || SomeTakesWriteGrant(Next(s, steps[0]), steps[1..]))
  }

  /** With one locker a grant is stranded by the collector's taking it and by nothing else, and for good. */
  lemma StepStrands(s: State, step: Step, a: nat)
    requires Inv(s) && Enabled(s, step) && |s.lockers| == 1
    ensures Stranded(Next(s, step), a) <==> Stranded(s, a) || (TakesWriteGrant(s, step) && step.a == a)
  {
    hide LockerInv, ClientInv, Next, Enabled;
    OthersStay(s, step);
    if a == Moved(s, step) {
      MovedStrands(s, step);
    } else {
      assert a in Next(s, step).attempts <==> a in s.attempts by {
        AttemptsStay(s, step);
      }
    }
  }

  lemma AttemptsStay(s: State, step: Step)
    requires Enabled(s, step)
    ensures forall b <- s.attempts.Keys :: b in Next(s, step).attempts
    ensures TakesWriteGrant(s, step) ==> Moved(s, step) == step.a
  {
    hide QuorumMet, Received;
  }

  lemma MovedStrands(s: State, step: Step)
    requires Inv(s) && Enabled(s, step) && |s.lockers| == 1
    ensures var a := Moved(s, step);
            Stranded(Next(s, step), a) <==> Stranded(s, a) || (TakesWriteGrant(s, step) && step.a == a)
  {
    hide ClientInv, LockerInv, QuorumMet, Quorum;
    UnlockedIsHeld(s, step);
    hide LockerInv, ClientInv;
    var a := Moved(s, step);
    if a in s.attempts {
      assert AttemptInv(1, s.attempts[a]);
      OneSlot(s.attempts[a]);
      assert s.attempts[a].slots == [Recorded] <==> s.attempts[a].slots[0] == Recorded;
      assert s.attempts[a].slots[0] in s.attempts[a].slots;
    }
    var after := Next(s, step).attempts[a].slots;
    assert after == [Recorded] <==> after[0] == Recorded;
  }

  lemma UnlockedIsHeld(s: State, step: Step)
    requires ClientInv(s) && Enabled(s, step)
    ensures step.Unlock? || step.RUnlock? ==> s.attempts[Moved(s, step)].phase == Held
  {
  }

  /** One slot: when it is recorded the collector has consumed it, and it is no write quorum. */
  lemma OneSlot(at: Attempt)
    requires AttemptInv(1, at)
    ensures !QuorumMet(at.slots, false)
    ensures at.slots == [Recorded] && at.phase == Collecting ==> at.consumed == 1
  {
    OneLockerNeverWrites(at.slots);
    if at.slots == [Recorded] && at.phase == Collecting {
      assert ConsumedSet(at.slots) == {0};
    }
  }

  lemma {:induction false} RunStrands(s: State, steps: seq<Step>)
    requires Inv(s) && |s.lockers| == 1 && Run(s, steps).Some?
    ensures (exists a: nat :: Stranded(Run(s, steps).value, a)) <==>
              (exists a: nat :: Stranded(s, a)) || SomeTakesWriteGrant(s, steps)
    decreases |steps|
  {
    hide Inv, Next, Enabled, Stranded;
    if steps != [] {
      var s' := Next(s, steps[0]);
      StepInv(s, steps[0]);
      RunStrands(s', steps[1..]);
      forall a: nat
        ensures Stranded(s', a) <==> Stranded(s, a) || (TakesWriteGrant(s, steps[0]) && steps[0].a == a)
      {
        StepStrands(s, steps[0], a);
      }
      if TakesWriteGrant(s, steps[0]) {
        assert Stranded(s', steps[0].a);
      }
    }
  }

  /** If no message was lost and everything is settled, a locker is free, unless it is the only one and the
      collector of a write lock took a grant before its timeout. */
  lemma FreeExactly(s0: State, steps: seq<Step>, k: nat)
    requires Init(s0) && Run(s0, steps).Some?
    requires var s := Run(s0, steps).value; s.lossless && Settled(s) && k < |s.lockers|
    ensures Run(s0, steps).value.lockers[k] == Locker(None, multiset{})
            <==> |s0.lockers| != 1 || !SomeTakesWriteGrant(s0, steps)
  {
    hide Inv, Settled, Stranded;
    InitInv(s0);
    RunInv(s0, steps);
    RunSize(s0, steps);
    FreeUnlessStranded(Run(s0, steps).value, k);
    if |s0.lockers| == 1 {
      NothingStranded(s0);
      RunStrands(s0, steps);
    }
  }

  lemma NothingStranded(s0: State)
    requires Init(s0)
    ensures forall a: nat :: !Stranded(s0, a)
  {
  }

  lemma NobodyLive(s: State, k: nat)
    requires k < |s.lockers| && LockerInv(s, k) && s.lossless && forall a: nat :: !Live(s, a, k)
    ensures s.lockers[k] == Locker(None, multiset{})
  {
    forall uid
      ensures s.lockers[k].readers[uid] == 0
    {
      assert LiveReads(s, k, uid) == {};
    }
  }

  /** If no message was lost, then no grant outlives its call: once everything is settled, all lockers are
      free, provided there is not just one of them or only read locks were asked for. */
  lemma NoGrantOutlives(s0: State, steps: seq<Step>, k: nat)
    requires Init(s0) && Run(s0, steps).Some?
    requires var s := Run(s0, steps).value; s.lossless && Settled(s) && k < |s.lockers|
    requires |s0.lockers| != 1 || forall a <- Run(s0, steps).value.attempts.Keys :: Run(s0, steps).value.attempts[a].read
    ensures Run(s0, steps).value.lockers[k] == Locker(None, multiset{})
  {
    hide Inv, Settled;
    InitInv(s0);
    RunInv(s0, steps);
    RunSize(s0, steps);
    FreeUnlessStranded(Run(s0, steps).value, k);
  }

  lemma {:induction false} RunSize(s: State, steps: seq<Step>)
    ensures Run(s, steps).Some? ==> |Run(s, steps).value.lockers| == |s.lockers|
    decreases |steps|
  {
    if steps != [] && Enabled(s, steps[0]) {
      RunSize(Next(s, steps[0]), steps[1..]);
    }
  }

  /** With one locker the write quorum is two and never met. */
  lemma OneLockerNeverWrites(slots: seq<Slot>)
    requires |slots| == 1
    ensures !QuorumMet(slots, false)
  {
    assert RecordedSet(slots) <= {0};
    SubsetSize(RecordedSet(slots), {0});
  }

  lemma RunFirst(s: State, step: Step, rest: seq<Step>)
    ensures Enabled(s, step) ==> Run(s, [step] + rest) == Run(Next(s, step), rest)
    ensures Run(s, []) == Some(s)
  {
    assert ([step] + rest)[1..] == rest;
  }

  /** One locker and one call of a client for writing. */
  function OneCall(client: nat, uid: string, writer: Option<string>, phase: Phase, consumed: nat, slot: Slot): State {
    State([Locker(writer, multiset{})], map[0 := Attempt(client, uid, false, phase, consumed, 0, [slot])],
          map[client := Client(None, [])], true)
  }

  lemma CallBegins(client: nat, uid: string)
    ensures var s0 := State([Locker(None, multiset{})], map[], map[client := Client(None, [])], true);
            var step := Begin(0, client, uid, false);
            Enabled(s0, step) && Next(s0, step) == OneCall(client, uid, None, Collecting, 0, Waiting)
  {
    assert seq(1, _ => Waiting) == [Waiting];
  }

  lemma CallIsAnswered(client: nat, uid: string)
    ensures var s, step := OneCall(client, uid, None, Collecting, 0, Waiting), Answer(0, 0, true, false);
            Enabled(s, step) && Next(s, step) == OneCall(client, uid, Some(uid), Collecting, 0, InChannel(true))
  {
    assert [Waiting][0 := InChannel(true)] == [InChannel(true)];
    assert [Locker(None, multiset{})][0 := Locker(Some(uid), multiset{})] == [Locker(Some(uid), multiset{})];
  }

  lemma CallIsCollected(client: nat, uid: string)
    ensures var s, step := OneCall(client, uid, Some(uid), Collecting, 0, InChannel(true)), Collect(0, 0);
            Enabled(s, step) && Next(s, step) == OneCall(client, uid, Some(uid), Collecting, 1, Recorded)
  {
    assert [InChannel(true)][0 := Recorded] == [Recorded];
  }

  lemma CallFinishes(client: nat, uid: string)
    ensures var s, step := OneCall(client, uid, Some(uid), Collecting, 1, Recorded), Finish(0);
            Enabled(s, step) && Next(s, step) == OneCall(client, uid, Some(uid), Lost, 1, Recorded)
  {
    OneLockerNeverWrites([Recorded]);
  }

  /** There, without any message lost, a call for writing fails and leaves its grant behind. */
  lemma OneLockerLeaks(client: nat, uid: string)
    ensures var s0 := State([Locker(None, multiset{})], map[], map[client := Client(None, [])], true);
            var r := Run(s0, [Begin(0, client, uid, false), Answer(0, 0, true, false), Collect(0, 0), Finish(0)]);
            && Init(s0) && r.Some? && r.value.lossless && Settled(r.value)
            && r.value.lockers == [Locker(Some(uid), multiset{})]
  {
    hide Enabled, Next;
    var s0 := State([Locker(None, multiset{})], map[], map[client := Client(None, [])], true);
    var s4 := OneCall(client, uid, Some(uid), Lost, 1, Recorded);
    assert Init(s0) && Settled(s4) && s4.lossless && s4.lockers == [Locker(Some(uid), multiset{})];
    hide Next, Enabled, Init, Settled, OneCall, Run;
    CallBegins(client, uid);
    CallIsAnswered(client, uid);
    CallIsCollected(client, uid);
    CallFinishes(client, uid);
    RunFirst(OneCall(client, uid, Some(uid), Collecting, 1, Recorded), Finish(0), []);
    RunFirst(s4, Finish(0), []);
    RunFirst(OneCall(client, uid, Some(uid), Collecting, 0, InChannel(true)), Collect(0, 0), [Finish(0)]);
    RunFirst(OneCall(client, uid, None, Collecting, 0, Waiting), Answer(0, 0, true, false), [Collect(0, 0), Finish(0)]);
    RunFirst(s0, Begin(0, client, uid, false), [Answer(0, 0, true, false), Collect(0, 0), Finish(0)]);
    assert [Finish(0)] + [] == [Finish(0)];
  }
}
