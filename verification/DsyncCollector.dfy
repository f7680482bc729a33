/** One call of dsync's lock, as its collector executes it: for any order in which the lockers answer and
    any moment at which the timeout fires. */
module DsyncCollector {
  import opened Dsync

  /** An answer on the channel; lockUID is empty when the locker refused. */
  datatype Granted = Granted(index: nat, lockUID: string)

  predicate IsLocked(uid: string) {
    |uid| > 0
  }

  /** The releases sent to the lockers, by locker index. */
  class ReleaseLog {
    var sent: multiset<nat>

    constructor ()
      ensures sent == multiset{}
    {
      sent := multiset{};
    }
  }

  function GrantOf(g: Granted): multiset<nat> {
    if IsLocked(g.lockUID) then multiset{g.index} else multiset{}
  }

  /** The lockers that granted, among the given answers. */
  function Grants(answers: seq<Granted>): multiset<nat> {
    if answers == [] then multiset{}
    else Grants(answers[..|answers| - 1]) + GrantOf(answers[|answers| - 1])
  }

  lemma GrantsSnoc(answers: seq<Granted>, i: nat)
    requires i < |answers|
    ensures Grants(answers[..i + 1]) == Grants(answers[..i]) + GrantOf(answers[i])
  {
    assert answers[..i + 1][..i] == answers[..i];
  }

  /** Two equal sums stay equal when both grow by e, in whichever summand. */
  lemma SumsGrow(a: multiset<nat>, b: multiset<nat>, c: multiset<nat>, d: multiset<nat>, e: multiset<nat>)
    requires a + b == c + d
    ensures (a + e) + b == a + (b + e) == c + (d + e)
  {
    assert (a + e) + b == (a + b) + e == a + (b + e);
    assert c + (d + e) == (c + d) + e;
  }

  lemma {:induction false} GrantsSplit(answers: seq<Granted>, i: nat)
    requires i <= |answers|
    ensures Grants(answers) == Grants(answers[..i]) + Grants(answers[i..])
  {
    hide Grants, GrantOf;
    GrantsNone();
    if i == |answers| {
      assert answers[..i] == answers && answers[i..] == [];
    } else {
      var n := |answers| - 1;
      GrantsSplit(answers[..n], i);
      GrantsSnoc(answers, n);
      GrantsSnoc(answers[i..], n - i);
      LastAnswer(answers, i);
      SumAssoc(Grants(answers[..i]), Grants(answers[..n][i..]), GrantOf(answers[n]));
    }
  }

  lemma LastAnswer(answers: seq<Granted>, i: nat)
    requires i < |answers|
    ensures var n := |answers| - 1;
            && answers[..n][..i] == answers[..i] && answers[..n][i..] == answers[i..][..n - i]
            && answers[..n + 1] == answers && answers[i..][..n - i + 1] == answers[i..] && answers[i..][n - i] == answers[n]
  {
  }

  lemma SumAssoc(a: multiset<nat>, b: multiset<nat>, c: multiset<nat>)
    ensures (a + b) + c == a + (b + c)
  {
  }

  /** The lockers recorded in `locks`. */
  function InLocks(locks: seq<string>): multiset<nat> {
    if locks == [] then multiset{}
    else InLocks(locks[..|locks| - 1]) + (if IsLocked(locks[|locks| - 1]) then multiset{|locks| - 1} else multiset{})
  }

  lemma {:induction false} InLocksBound(locks: seq<string>, k: nat)
    ensures InLocks(locks)[k] == if k < |locks| && IsLocked(locks[k]) then 1 else 0
  {
    if locks != [] {
      InLocksBound(locks[..|locks| - 1], k);
    }
  }

  lemma InLocksUpdate(locks: seq<string>, k: nat, uid: string)
    requires k < |locks|
    ensures !IsLocked(locks[k]) && IsLocked(uid) ==> InLocks(locks[k := uid]) == InLocks(locks) + multiset{k}
    ensures IsLocked(locks[k]) && !IsLocked(uid) ==> InLocks(locks) == InLocks(locks[k := uid]) + multiset{k}
  {
    hide InLocks;
    forall j: nat
      ensures InLocks(locks[k := uid])[j] == if j == k then (if IsLocked(uid) then 1 else 0) else InLocks(locks)[j]
      ensures InLocks(locks)[k] == if IsLocked(locks[k]) then 1 else 0
    {
      InLocksBound(locks[k := uid], j);
      InLocksBound(locks, j);
      InLocksBound(locks, k);
    }
  }

  lemma InLocksNone(locks: seq<string>)
    requires forall k :: 0 <= k < |locks| ==> !IsLocked(locks[k])
    ensures InLocks(locks) == multiset{}
  {
    forall k: nat
      ensures InLocks(locks)[k] == 0
    {
      InLocksBound(locks, k);
    }
  }

  lemma NoneLocked(locks: array<string>)
    requires forall k :: 0 <= k < locks.Length ==> locks[k] == ""
    ensures InLocks(locks[..]) == multiset{} && forall k :: 0 <= k < locks.Length ==> !IsLocked(locks[k])
  {
    InLocksNone(locks[..]);
  }

  method QuorumIsMet(locks: array<string>, isReadLock: bool) returns (met: bool)
    ensures met <==> Enough(|InLocks(locks[..])|, locks.Length, isReadLock)
    ensures met <==> |InLocks(locks[..])| >= Quorum(locks.Length, isReadLock)
  {
    EnoughIsQuorum(|InLocks(locks[..])|, locks.Length, isReadLock);
    var count := 0;
    for k := 0 to locks.Length
      invariant count == |InLocks(locks[..k])|
    {
      assert locks[..k + 1][..k] == locks[..k];
      if IsLocked(locks[k]) {
        count := count + 1;
      }
    }
    assert locks[..locks.Length] == locks[..];
    met := count >= Quorum(locks.Length, isReadLock);
  }

  method ReleaseOne(locks: array<string>, k: nat, log: ReleaseLog)
    requires k < locks.Length && IsLocked(locks[k])
    modifies locks, log
    ensures locks[..] == old(locks[..])[k := ""] && log.sent == old(log.sent) + multiset{k}
    ensures log.sent + InLocks(locks[..]) == old(log.sent + InLocks(locks[..]))
  {
    InLocksUpdate(locks[..], k, "");
    SumAssoc(log.sent, InLocks(locks[..][k := ""]), multiset{k});
    ghost var was := locks[..];
    log.sent := log.sent + multiset{k};
    locks[k] := "";
    assert locks[..] == was[k := ""];
  }

  /** Releases every recorded grant and forgets it. */
  method ReleaseAll(locks: array<string>, log: ReleaseLog)
    modifies locks, log
    ensures InLocks(locks[..]) == multiset{}
    ensures log.sent == old(log.sent) + old(InLocks(locks[..]))
  {
    hide InLocks;
    ghost var total := log.sent + InLocks(locks[..]);
    for k := 0 to locks.Length
      invariant forall j :: 0 <= j < k ==> !IsLocked(locks[j])
      invariant log.sent + InLocks(locks[..]) == total
    {
      if IsLocked(locks[k]) {
        ReleaseOne(locks, k, log);
      }
    }
    InLocksNone(locks[..]);
  }

  /** The timeout fires: without a quorum everything is released. */
  method OnTimeout(locks: array<string>, isReadLock: bool, log: ReleaseLog)
    modifies locks, log
    ensures InLocks(locks[..]) + log.sent == old(InLocks(locks[..]) + log.sent)
    ensures InLocks(locks[..]) == if |old(InLocks(locks[..]))| >= Quorum(locks.Length, isReadLock) then old(InLocks(locks[..])) else multiset{}
  {
    hide InLocks;
    var met := QuorumIsMet(locks, isReadLock);
    if !met {
      ReleaseAll(locks, log);
    }
  }

  /** All lockers make a quorum, unless it is one locker and a write lock. */
  lemma QuorumFits(n: nat, isReadLock: bool)
    ensures Quorum(n, isReadLock) <= n || n == 0 || (n == 1 && !isReadLock)
  {
  }

  lemma {:induction false} GrantsBound(answers: seq<Granted>)
    ensures |Grants(answers)| <= |answers|
  {
    if answers != [] {
      GrantsBound(answers[..|answers| - 1]);
    }
  }

  /** With too many refusals among the first i answers, all together are not enough. */
  lemma TooManyRefused(answers: seq<Granted>, i: nat, q: nat)
    requires i <= |answers| && i - |Grants(answers[..i])| > |answers| - q
    ensures |Grants(answers[..i])| <= |Grants(answers)| < q
  {
    hide Grants;
    GrantsSplit(answers, i);
    GrantsBound(answers[i..]);
  }

  /** What the receiving loop leaves behind: all grants, if the timeout did not fire and they are a quorum; those
      received when it fired, if they were; and else none. With a single locker a write lock has no quorum, and
      what it granted may stay recorded. */
  ghost predicate Settled(answers: seq<Granted>, isReadLock: bool, timedOut: bool, i: nat, locked: multiset<nat>)
    requires i <= |answers|
  {
    var q := Quorum(|answers|, isReadLock);
    && (!timedOut ==> (|locked| >= q <==> |Grants(answers)| >= q) && (|locked| >= q ==> locked == Grants(answers)))
    && (timedOut ==> locked == if |Grants(answers[..i])| >= q then Grants(answers[..i]) else multiset{})
    && (|locked| >= q || locked == multiset{} || (|answers| == 1 && !isReadLock))
  }

  lemma SettledAll(answers: seq<Granted>, isReadLock: bool)
    requires |answers| - |Grants(answers)| == 0 || |answers| - |Grants(answers)| <= |answers| - Quorum(|answers|, isReadLock)
    ensures Settled(answers, isReadLock, false, |answers|, Grants(answers))
  {
    QuorumFits(|answers|, isReadLock);
  }

  lemma SettledNone(answers: seq<Granted>, isReadLock: bool, i: nat)
    requires 0 < i <= |answers| && i - |Grants(answers[..i])| > |answers| - Quorum(|answers|, isReadLock)
    ensures Settled(answers, isReadLock, false, i, multiset{})
  {
    TooManyRefused(answers, i, Quorum(|answers|, isReadLock));
  }

  /** The answers from index i on are of lockers with no grant recorded. */
  predicate Awaited(answers: seq<Granted>, i: nat, locks: seq<string>) {
    forall j :: i <= j < |answers| ==> answers[j].index < |locks| && !IsLocked(locks[answers[j].index])
  }

  lemma NoneAwaited(answers: seq<Granted>, locks: seq<string>)
    requires forall j :: 0 <= j < |answers| ==> answers[j].index < |locks|
    requires forall k :: 0 <= k < |locks| ==> !IsLocked(locks[k])
    ensures Awaited(answers, 0, locks)
  {
  }

  /** Whatever is recorded for the next answer's locker, the others stay awaited. */
  lemma StillAwaited(answers: seq<Granted>, i: nat, locks: seq<string>)
    requires i < |answers| && Awaited(answers, i, locks)
    requires forall i, j :: 0 <= i < j < |answers| ==> answers[i].index != answers[j].index
    ensures answers[i].index < |locks| && !IsLocked(locks[answers[i].index])
    ensures Awaited(answers, i + 1, locks) && Awaited(answers, i + 1, locks[answers[i].index := answers[i].lockUID])
  {
  }

  /** The receiving loop: it ends with all answers consumed, with too many refusals or with the timeout. */
  method Receive(answers: seq<Granted>, isReadLock: bool, log: ReleaseLog) returns (i: nat, locks: array<string>, ghost timedOut: bool)
    requires forall j :: 0 <= j < |answers| ==> answers[j].index < |answers|
    requires forall i, j :: 0 <= i < j < |answers| ==> answers[i].index != answers[j].index
    modifies log
    ensures i <= |answers| && fresh(locks) && locks.Length == |answers|
    ensures InLocks(locks[..]) + log.sent == old(log.sent) + Grants(answers[..i])
    ensures Settled(answers, isReadLock, timedOut, i, InLocks(locks[..]))
  {
    hide InLocks, Grants, GrantOf, IsLocked, Quorum, Settled, Awaited;
    GrantsNone();
    var n := |answers|;
    locks := new string[n](_ => "");
    NoneLocked(locks);
    NoneAwaited(answers, locks[..]);
    var locksFailed, done := 0, false;
    i, timedOut := 0, false;
    while i < n && !done
      invariant 0 <= i <= n
      invariant InLocks(locks[..]) + log.sent == old(log.sent) + Grants(answers[..i])
      invariant !done ==> InLocks(locks[..]) == Grants(answers[..i]) && !timedOut
      invariant !done ==> |Grants(answers[..i])| + locksFailed == i
      invariant !done ==> locksFailed == 0 || locksFailed <= n - Quorum(n, isReadLock)
      invariant done ==> Settled(answers, isReadLock, timedOut, i, InLocks(locks[..]))
      invariant !done ==> Awaited(answers, i, locks[..])
      decreases n - i, !done
    {
      var timeout: bool :| true;
      if timeout {
        done, timedOut := true, true;
        OnTimeout(locks, isReadLock, log);
        SettledTimeout(answers, isReadLock, i);
      } else {
        GrantsSnoc(answers, i);
        SumsGrow(InLocks(locks[..]), log.sent, old(log.sent), Grants(answers[..i]), GrantOf(answers[i]));
        StillAwaited(answers, i, locks[..]);
        var refused := Take(locks, answers[i]);
        i := i + 1;
        if refused {
          locksFailed := locksFailed + 1;
          if locksFailed > n - Quorum(n, isReadLock) {
            done := true;
            ReleaseAll(locks, log);
            SettledNone(answers, isReadLock, i);
          }
        }
      }
    }
    if !done {
      assert answers[..n] == answers;
      SettledAll(answers, isReadLock);
    }
  }

  lemma SettledTimeout(answers: seq<Granted>, isReadLock: bool, i: nat)
    requires i <= |answers|
    ensures var locked := if |Grants(answers[..i])| >= Quorum(|answers|, isReadLock) then Grants(answers[..i]) else multiset{};
            Settled(answers, isReadLock, true, i, locked)
  {
  }

  /** A grant is recorded; a refusal changes nothing. */
  method Take(locks: array<string>, grant: Granted) returns (refused: bool)
    requires grant.index < locks.Length && !IsLocked(locks[grant.index])
    modifies locks
    ensures refused <==> GrantOf(grant) == multiset{}
    ensures |GrantOf(grant)| == if refused then 0 else 1
    ensures InLocks(locks[..]) == old(InLocks(locks[..])) + GrantOf(grant)
    ensures locks[..] == if refused then old(locks[..]) else old(locks[..])[grant.index := grant.lockUID]
  {
    refused := !IsLocked(grant.lockUID);
    if !refused {
      Record(locks, grant);
    }
  }

  /** The collector goroutine. Every grant ends in exactly one place: it is recorded, or it is released once.
      A call whose timeout does not fire succeeds exactly when enough lockers grant, and then records all grants;
      one whose timeout fires when `received` answers are in succeeds exactly when these are enough. A failed call
      records none, unless it asks one single locker for a write lock. */
  method Collect(answers: seq<Granted>, isReadLock: bool, log: ReleaseLog)
    returns (quorum: bool, locks: array<string>, ghost timedOut: bool, ghost received: nat)
    requires forall j :: 0 <= j < |answers| ==> answers[j].index < |answers|
    requires forall i, j :: 0 <= i < j < |answers| ==> answers[i].index != answers[j].index
    modifies log
    ensures fresh(locks) && locks.Length == |answers| && received <= |answers|
    ensures InLocks(locks[..]) + log.sent == old(log.sent) + Grants(answers)
    ensures quorum <==> Enough(|InLocks(locks[..])|, |answers|, isReadLock)
    ensures !timedOut ==> (quorum <==> Enough(|Grants(answers)|, |answers|, isReadLock))
    ensures timedOut ==> (quorum <==> Enough(|Grants(answers[..received])|, |answers|, isReadLock))
    ensures quorum ==> InLocks(locks[..]) == if timedOut then Grants(answers[..received]) else Grants(answers)
    ensures !quorum && (|answers| != 1 || isReadLock) ==> InLocks(locks[..]) == multiset{}
  {
    hide InLocks, Grants, Enough, Settled, Quorum;
    var i;
    i, locks, timedOut := Receive(answers, isReadLock, log);
    quorum := QuorumIsMet(locks, isReadLock);
    received := i;
    SettledQuorum(answers, isReadLock, timedOut, received, InLocks(locks[..]));
    GrantsSplit(answers, i);
    SumsGrow(InLocks(locks[..]), log.sent, old(log.sent), Grants(answers[..i]), Grants(answers[i..]));
    Drain(answers, i, log);
  }

  lemma SettledQuorum(answers: seq<Granted>, isReadLock: bool, timedOut: bool, i: nat, locked: multiset<nat>)
    requires i <= |answers| && Settled(answers, isReadLock, timedOut, i, locked)
    ensures var quorum := Enough(|locked|, |answers|, isReadLock);
            && (!timedOut ==> (quorum <==> Enough(|Grants(answers)|, |answers|, isReadLock)))
            && (timedOut ==> (quorum <==> Enough(|Grants(answers[..i])|, |answers|, isReadLock)))
            && (quorum ==> locked == if timedOut then Grants(answers[..i]) else Grants(answers))
            && (!quorum && (|answers| != 1 || isReadLock) ==> locked == multiset{})
  {
    hide Grants, Enough;
    EnoughIsQuorum(|locked|, |answers|, isReadLock);
    EnoughIsQuorum(|Grants(answers)|, |answers|, isReadLock);
    EnoughIsQuorum(|Grants(answers[..i])|, |answers|, isReadLock);
  }

  /** Answers that come after the decision: their grants are released. */
  method Drain(answers: seq<Granted>, from: nat, log: ReleaseLog)
    requires from <= |answers|
    modifies log
    ensures log.sent == old(log.sent) + Grants(answers[from..])
  {
    hide Grants;
    GrantsSplit(answers[from..], 0);
    assert answers[from..][..0] == [];
    GrantsNone();
    for i := from to |answers|
      invariant log.sent == old(log.sent) + Grants(answers[from..][..i - from])
    {
      GrantsSnoc(answers[from..], i - from);
      if IsLocked(answers[i].lockUID) {
        log.sent := log.sent + multiset{answers[i].index};
      }
    }
    assert answers[from..][..|answers| - from] == answers[from..];
  }

  lemma GrantsNone()
    ensures Grants([]) == multiset{}
  {
  }

  method Record(locks: array<string>, grant: Granted)
    requires grant.index < locks.Length && IsLocked(grant.lockUID) && !IsLocked(locks[grant.index])
    modifies locks
    ensures InLocks(locks[..]) == old(InLocks(locks[..])) + multiset{grant.index}
    ensures locks[..] == old(locks[..])[grant.index := grant.lockUID]
  {
    InLocksUpdate(locks[..], grant.index, grant.lockUID);
    ghost var was := locks[..];
    locks[grant.index] := grant.lockUID;
    assert locks[..] == was[grant.index := grant.lockUID];
  }
}
