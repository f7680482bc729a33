/** dsync the other way round: what makes a call of lock succeed, and a run in which it does. */
module DsyncProgress {
  import opened Basics
  import opened Dsync

  /** A call aborts at a refusal exactly if the lockers that have not refused are not enough any more. */
  lemma AbortsExactly(s: State, a: nat, k: nat)
    requires Enabled(s, Collect(a, k))
    ensures var at, at' := s.attempts[a], Next(s, Collect(a, k)).attempts[a];
            var n := |at.slots|;
            && at'.failed == at.failed + (if at.slots[k].granted then 0 else 1)
            && at'.phase == if !at.slots[k].granted && !Enough(n - at'.failed, n, at.read) then Aborting else Collecting
  {
    var n := |s.attempts[a].slots|;
    EnoughIsQuorum(n - (s.attempts[a].failed + 1), n, s.attempts[a].read);
  }

  /** When all answers are in or the timeout fires, the call has succeeded exactly if enough grants are recorded. */
  lemma WinsExactly(s: State, step: Step)
    requires (step.Finish? || step.Timeout?) && Enabled(s, step)
    ensures var at := s.attempts[step.a];
            Next(s, step).attempts[step.a].phase
            == if Enough(|RecordedSet(at.slots)|, |at.slots|, at.read) then Won else if step.Finish? then Lost else Aborting
  {
    var at := s.attempts[step.a];
    EnoughIsQuorum(|RecordedSet(at.slots)|, |at.slots|, at.read);
  }

  /** No locker holds a write lock and, for a call for writing, none holds a read lock. */
  predicate Uncontended(lockers: seq<Locker>, read: bool) {
    forall k :: 0 <= k < |lockers| ==> lockers[k].writer == None && (read || lockers[k].readers == multiset{})
  }

  /** The call whose first i lockers have answered with a grant, of which the first j are collected. */
  function Slots(n: nat, i: nat, j: nat): (slots: seq<Slot>)
    ensures |slots| == n
  {
    seq(n, k => if k < j then Recorded else if k < i then InChannel(true) else Waiting)
  }

  function Granted(lockers: seq<Locker>, uid: string, read: bool, i: nat): (r: seq<Locker>)
    ensures |r| == |lockers|
  {
    seq(|lockers|, k requires 0 <= k < |lockers| => if k < i then Grant(lockers[k], uid, read) else lockers[k])
  }

  datatype Call = Call(a: nat, client: nat, uid: string, read: bool)

  function Calling(s: State, c: Call, i: nat, j: nat, phase: Phase): State {
    s.(lockers := Granted(s.lockers, c.uid, c.read, i),
       attempts := s.attempts[c.a := Attempt(c.client, c.uid, c.read, phase, j, 0, Slots(|s.lockers|, i, j))])
  }

  /** The call holds the lock, and all other calls are where they were in s. */
  predicate Holds(s: State, c: Call, t: State) {
    && c.a in t.attempts && t.attempts[c.a].phase == Held
    && t.attempts[c.a].client == c.client && t.attempts[c.a].read == c.read
    && t.attempts == s.attempts[c.a := t.attempts[c.a]]
  }

  lemma Begins(s: State, c: Call)
    requires c.a !in s.attempts && c.client in s.clients
    ensures var step := Begin(c.a, c.client, c.uid, c.read);
            Enabled(s, step) && Next(s, step) == Calling(s, c, 0, 0, Collecting)
  {
    assert Granted(s.lockers, c.uid, c.read, 0) == s.lockers;
    assert Slots(|s.lockers|, 0, 0) == seq(|s.lockers|, _ => Waiting);
  }

  lemma Answers(s: State, c: Call, i: nat)
    requires Uncontended(s.lockers, c.read) && i < |s.lockers|
    ensures var t, step := Calling(s, c, i, 0, Collecting), Answer(c.a, i, true, false);
            Enabled(t, step) && Next(t, step) == Calling(s, c, i + 1, 0, Collecting)
  {
    var n := |s.lockers|;
    assert Slots(n, i, 0)[i := InChannel(true)] == Slots(n, i + 1, 0);
    assert Granted(s.lockers, c.uid, c.read, i)[i := Grant(s.lockers[i], c.uid, c.read)]
        == Granted(s.lockers, c.uid, c.read, i + 1);
  }

  lemma Collects(s: State, c: Call, j: nat)
    requires j < |s.lockers|
    ensures var n := |s.lockers|;
            var t, step := Calling(s, c, n, j, Collecting), Collect(c.a, j);
            Enabled(t, step) && Next(t, step) == Calling(s, c, n, j + 1, Collecting)
  {
    var n := |s.lockers|;
    assert Slots(n, n, j)[j := Recorded] == Slots(n, n, j + 1);
  }

  lemma AllRecorded(n: nat)
    ensures |RecordedSet(Slots(n, n, n))| == n
  {
    assert RecordedSet(Slots(n, n, n)) == Range(n);
  }

  lemma Finishes(s: State, c: Call)
    requires Enough(|s.lockers|, |s.lockers|, c.read)
    ensures var n := |s.lockers|;
            var t := Calling(s, c, n, n, Collecting);
            Enabled(t, Finish(c.a)) && Next(t, Finish(c.a)) == Calling(s, c, n, n, Won)
  {
    hide RecordedSet, Quorum, Enough, Slots;
    var n := |s.lockers|;
    AllRecorded(n);
    EnoughIsQuorum(n, n, c.read);
  }

  lemma Returns(s: State, c: Call)
    requires c.client in s.clients
    ensures var n := |s.lockers|;
            var t := Calling(s, c, n, n, Won);
            && Enabled(t, Return(c.a))
            && Holds(s, c, Next(t, Return(c.a)))
  {
  }

  /** From any point of the call on, the run goes on to the lock being held. */
  lemma {:induction false} Continues(s: State, c: Call, i: nat, j: nat) returns (steps: seq<Step>)
    requires Uncontended(s.lockers, c.read) && Enough(|s.lockers|, |s.lockers|, c.read) && c.client in s.clients
    requires j <= i <= |s.lockers| && (i < |s.lockers| ==> j == 0)
    ensures var r := Run(Calling(s, c, i, j, Collecting), steps);
            r.Some? && Holds(s, c, r.value)
    decreases |s.lockers| - i, |s.lockers| - j
  {
    hide Enabled, Next, Run, Calling, Uncontended, Enough, Holds;
    var n := |s.lockers|;
    var t := Calling(s, c, i, j, Collecting);
    if i < n {
      Answers(s, c, i);
      steps := Continues(s, c, i + 1, 0);
      RunFirst(t, Answer(c.a, i, true, false), steps);
      steps := [Answer(c.a, i, true, false)] + steps;
    } else if j < n {
      Collects(s, c, j);
      steps := Continues(s, c, n, j + 1);
      RunFirst(t, Collect(c.a, j), steps);
      steps := [Collect(c.a, j)] + steps;
    } else {
      Finishes(s, c);
      Returns(s, c);
      var won := Calling(s, c, n, n, Won);
      RunFirst(Next(won, Return(c.a)), Return(c.a), []);
      RunFirst(won, Return(c.a), []);
      RunFirst(t, Finish(c.a), [Return(c.a)] + []);
      steps := [Finish(c.a)] + ([Return(c.a)] + []);
    }
  }

  /** Without contention, among any number of lockers whose grants can be enough, whatever other calls are
      under way and whatever read locks are held, a new call can run to the lock being held. */
  lemma LockObtainable(s: State, a: nat, client: nat, uid: string, read: bool) returns (steps: seq<Step>)
    requires a !in s.attempts && client in s.clients && Uncontended(s.lockers, read)
    requires !read ==> |s.lockers| >= 2
    ensures Run(s, steps).Some? && Holds(s, Call(a, client, uid, read), Run(s, steps).value)
  {
    hide Enabled, Next, Run, Calling, Uncontended, Holds;
    var c := Call(a, client, uid, read);
    assert Enough(|s.lockers|, |s.lockers|, read);
    Begins(s, c);
    steps := Continues(s, c, 0, 0);
    RunFirst(s, Begin(a, client, uid, read), steps);
    steps := [Begin(a, client, uid, read)] + steps;
  }

  /** A release takes back one grant of its own identifier and kind, and no other. */
  lemma ReleaseTakesBack(l: Locker, uid: string, read: bool, other: string)
    ensures CanGrant(l, read) ==> Release(Grant(l, uid, read), uid, read) == l
    ensures l.writer != Some(other) ==> Release(l, other, false) == l
    ensures other !in l.readers ==> Release(l, other, true) == l
  {
    assert (l.readers + multiset{uid}) - multiset{uid} == l.readers;
    assert other !in l.readers ==> l.readers - multiset{other} == l.readers;
  }
}
