/** The recurrent-failure breaker of internal/auth/recurrent.go and the way
    authenticateBasic drives it. Instants are integers (nanoseconds); each ledger
    operation is one atomic step, taken at the instant it reads from the clock. */
module Breaker {
  import opened Text

  const THRESHOLD := 2
  const WINDOW := 4_000_000_000
  const SWEEP_SIZE := 4096
  const SECOND := 1_000_000_000

  // blockedUntil is None while the entry is a pure failure counter.
  datatype Entry = Entry(failures: nat, blockedUntil: Option<int>)

  type Ledger = map<string, Entry>

  predicate Active(e: Entry, now: int) {
    e.blockedUntil.Some? && now < e.blockedUntil.value
  }

  predicate Lapsed(e: Entry, now: int) {
    e.blockedUntil.Some? && e.blockedUntil.value <= now
  }

  // ---- what each operation does to the ledger ------------------------------------

  function Remaining(m: Ledger, user: string, now: int): int {
    if user != "" && user in m && Active(m[user], now) then m[user].blockedUntil.value - now else 0
  }

  function AfterCheck(m: Ledger, user: string, now: int): Ledger {
    if user != "" && user in m && Lapsed(m[user], now) then m - {user} else m
  }

  function AfterSuccess(m: Ledger, user: string, now: int): Ledger {
    if user != "" && user in m && !Active(m[user], now) then m - {user} else m
  }

  function Counted(e: Entry, now: int): Entry {
    if e.failures + 1 >= THRESHOLD then Entry(0, Some(now + WINDOW)) else Entry(e.failures + 1, e.blockedUntil)
  }

  function Recorded(m: Ledger, user: string, now: int): Ledger {
    m[user := Counted(if user in m then m[user] else Entry(0, None), now)]
  }

  // A sweep drops lapsed blocks and evicts pure counters in any order until the ledger
  // is small enough; it never touches an active block and never changes an entry.
  ghost predicate Swept(m: Ledger, now: int, m': Ledger) {
    && m'.Keys <= m.Keys
    && (forall u :: u in m' ==> m'[u] == m[u] && !Lapsed(m[u], now))
    && (forall u :: u in m && Active(m[u], now) ==> u in m')
    && (|m'| < SWEEP_SIZE || forall u :: u in m' ==> Active(m'[u], now))
    && ((exists u :: u in m && u !in m' && m[u].blockedUntil.None?) ==> |m'| >= SWEEP_SIZE - 1)
  }

  ghost predicate AfterFailure(m: Ledger, user: string, now: int, m': Ledger) {
    if user == "" || (user in m && Active(m[user], now)) then m' == m
    else
      var r := Recorded(m, user, now);
      if |r| < SWEEP_SIZE then m' == r else Swept(r, now, m')
  }

  // blockedSeconds: the whole seconds named in the refusal, never fewer than remain.
  function BlockedSeconds(d: int): (n: int)
    ensures d > 0 ==> n >= 1 && (n - 1) * SECOND < d <= n * SECOND
    ensures d <= 0 ==> n == 0
  {
    if d <= 0 then 0 else (d + SECOND - 1) / SECOND
  }

  class RecurrentLimiter {
    var entries: Ledger

    constructor ()
      ensures entries == map[]
    {
      entries := map[];
    }

    method BlockedRemaining(user: string, now: int) returns (d: int)
      modifies this
      ensures d == Remaining(old(entries), user, now)
      ensures entries == AfterCheck(old(entries), user, now)
    {
      if user == "" {
        return 0;
      }
      if user !in entries || entries[user].blockedUntil.None? {
        return 0;
      }
      if entries[user].blockedUntil.value <= now {
        entries := entries - {user};
        return 0;
      }
      return entries[user].blockedUntil.value - now;
    }

    method Failure(user: string, now: int)
      modifies this
      ensures AfterFailure(old(entries), user, now, entries)
      ensures entries != old(entries) ==> |entries| < 4096 || forall u :: u in entries ==> Active(entries[u], now)
    {
      if user == "" {
        return;
      }
      if user in entries && Active(entries[user], now) {
        return;
      }
      var e := if user in entries then entries[user] else Entry(0, None);
      e := e.(failures := e.failures + 1);
      if e.failures >= THRESHOLD {
        e := Entry(0, Some(now + WINDOW));
      }
      entries := entries[user := e];
      if |entries| >= SWEEP_SIZE {
        Sweep(now);
      }
    }

    method Success(user: string, now: int)
      modifies this
      ensures entries == AfterSuccess(old(entries), user, now)
    {
      if user != "" && user in entries &&
         (entries[user].blockedUntil.None? || entries[user].blockedUntil.value <= now) {
        entries := entries - {user};
      }
    }

    // Map iteration order is arbitrary: each loop takes the keys it has not seen yet in
    // any order.
    method Sweep(now: int)
      modifies this
      ensures Swept(old(entries), now, entries)
    {
      var todo := entries.Keys;
      while todo != {}
        invariant todo <= entries.Keys <= old(entries).Keys
        invariant forall u :: u in entries ==> entries[u] == old(entries)[u]
        invariant forall u :: u in entries ==> u in todo || !Lapsed(entries[u], now)
        invariant forall u :: u in old(entries) && !Lapsed(old(entries)[u], now) ==> u in entries
        decreases todo
      {
        var u :| u in todo;
        todo := todo - {u};
        if Lapsed(entries[u], now) {
          entries := entries - {u};
        }
      }
      todo := entries.Keys;
      while todo != {}
        invariant todo <= entries.Keys <= old(entries).Keys
        invariant forall u :: u in entries ==> entries[u] == old(entries)[u] && !Lapsed(entries[u], now)
        invariant forall u :: u in entries ==> u in todo || Active(entries[u], now)
        invariant forall u :: u in old(entries) && Active(old(entries)[u], now) ==> u in entries
        invariant (exists u :: u in old(entries) && u !in entries && old(entries)[u].blockedUntil.None?) ==>
                    |entries| >= SWEEP_SIZE - 1
        decreases todo
      {
        var u :| u in todo;
        todo := todo - {u};
        if |entries| < SWEEP_SIZE {
          return;
        }
        if entries[u].blockedUntil.None? {
          entries := entries - {u};
        }
      }
    }
  }

  // ---- interleaved runs -------------------------------------------------------------

  // The check and the verdict of one request are separate steps; steps of different
  // requests interleave freely.
  datatype Event = Check(user: string, time: int) | Fail(user: string, time: int) | Succeed(user: string, time: int)

  ghost predicate Step(m: Ledger, ev: Event, m': Ledger) {
    match ev
    case Check(u, t) => m' == AfterCheck(m, u, t)
    case Fail(u, t) => AfterFailure(m, u, t, m')
    case Succeed(u, t) => m' == AfterSuccess(m, u, t)
  }

  // A run from the empty ledger under a clock that never goes back.
  ghost predicate IsRun(evs: seq<Event>, ms: seq<Ledger>) {
    && |ms| == |evs| + 1 && ms[0] == map[]
    && (forall i :: 0 <= i < |evs| ==> Step(ms[i], evs[i], ms[i + 1]))
    && (forall i, j :: 0 <= i <= j < |evs| ==> evs[i].time <= evs[j].time)
  }

  predicate NoSuccessBetween(evs: seq<Event>, user: string, i: int, j: int)
    requires 0 <= i && j <= |evs|
  {
    forall x | i < x < j :: !(evs[x].Succeed? && evs[x].user == user)
  }

  predicate FailsAt(evs: seq<Event>, user: string, i: int) {
    0 <= i < |evs| && evs[i].Fail? && evs[i].user == user
  }

  // The block of user was armed by its second of two failures with no success between.
  ghost predicate ArmedBy(evs: seq<Event>, k: int, user: string, until: int) {
    exists i, j :: 0 <= i < j < k <= |evs| && FailsAt(evs, user, i) && FailsAt(evs, user, j) &&
                   NoSuccessBetween(evs, user, i, j) && until == evs[j].time + WINDOW
  }

  // One failure is on the books, with no success since.
  ghost predicate CountedBy(evs: seq<Event>, k: int, user: string) {
    exists i :: 0 <= i < k <= |evs| && FailsAt(evs, user, i) && NoSuccessBetween(evs, user, i, k)
  }

  ghost predicate Justified(evs: seq<Event>, k: int, user: string, e: Entry) {
    && 0 <= k <= |evs|
    && e.failures < THRESHOLD
    && (e.failures == 0 ==> e.blockedUntil.Some?)
    && (e.failures == 1 ==> CountedBy(evs, k, user))
    && (e.blockedUntil.Some? ==> ArmedBy(evs, k, user, e.blockedUntil.value))
    && (e.failures == 1 && e.blockedUntil.Some? ==> forall j :: k <= j < |evs| ==> e.blockedUntil.value <= evs[j].time)
  }

  // An entry that survives a step keeps its justification.
  lemma JustifiedLater(evs: seq<Event>, k: nat, user: string, e: Entry)
    requires k < |evs| && Justified(evs, k, user, e)
    requires e.failures == 1 ==> !(evs[k].Succeed? && evs[k].user == user)
    ensures Justified(evs, k + 1, user, e)
  {
    if e.failures == 1 {
      var i :| 0 <= i < k && FailsAt(evs, user, i) && NoSuccessBetween(evs, user, i, k);
      assert NoSuccessBetween(evs, user, i, k + 1);
    }
    if e.blockedUntil.Some? {
      var i, j :| 0 <= i < j < k && FailsAt(evs, user, i) && FailsAt(evs, user, j) &&
                  NoSuccessBetween(evs, user, i, j) && e.blockedUntil.value == evs[j].time + WINDOW;
      assert ArmedBy(evs, k + 1, user, e.blockedUntil.value);
    }
  }

  // A counted failure is justified by itself and, when it arms, by the one before.
  lemma CountedJustified(evs: seq<Event>, ms: seq<Ledger>, k: nat, e: Entry)
    requires IsRun(evs, ms) && k < |evs| && evs[k].Fail?
    requires e == Entry(0, None) || Justified(evs, k, evs[k].user, e)
    requires !Active(e, evs[k].time)
    ensures Justified(evs, k + 1, evs[k].user, Counted(e, evs[k].time))
  {
    var user := evs[k].user;
    assert FailsAt(evs, user, k);
    if e.failures == 1 {
      var i :| 0 <= i < k && FailsAt(evs, user, i) && NoSuccessBetween(evs, user, i, k);
      assert ArmedBy(evs, k + 1, user, evs[k].time + WINDOW);
    } else {
      assert NoSuccessBetween(evs, user, k, k + 1);
      assert CountedBy(evs, k + 1, user);
      if e.blockedUntil.Some? {
        JustifiedLater(evs, k, user, e);
      }
    }
  }

  // What one step can have done to an entry that is there afterwards.
  lemma StepEntry(m: Ledger, ev: Event, m': Ledger, user: string)
    requires Step(m, ev, m') && user in m' && user != ""
    ensures if ev.Fail? && ev.user == user && !(user in m && Active(m[user], ev.time))
            then m'[user] == Counted(if user in m then m[user] else Entry(0, None), ev.time)
            else user in m && m'[user] == m[user] &&
                 !(ev.Succeed? && ev.user == user && !Active(m[user], ev.time))
  {
  }

  lemma {:induction false} EntriesJustified(evs: seq<Event>, ms: seq<Ledger>, k: nat, user: string)
    requires IsRun(evs, ms) && k <= |evs| && user in ms[k] && user != ""
    ensures Justified(evs, k, user, ms[k][user])
  {
    if k > 0 {
      var m, ev, m' := ms[k - 1], evs[k - 1], ms[k];
      assert Step(m, ev, m');
      StepEntry(m, ev, m', user);
      if user in m {
        EntriesJustified(evs, ms, k - 1, user);
      }
      if ev.Fail? && ev.user == user && !(user in m && Active(m[user], ev.time)) {
        CountedJustified(evs, ms, k - 1, if user in m then m[user] else Entry(0, None));
      } else {
        JustifiedLater(evs, k - 1, user, m[user]);
      }
    }
  }

  /** A user is only ever blocked by two of its own failures with no success between
      them, the second less than the window ago. */
  lemma BlockIsEarned(evs: seq<Event>, ms: seq<Ledger>, k: nat, user: string, now: int)
    requires IsRun(evs, ms) && k <= |evs|
    requires forall i :: 0 <= i < k ==> evs[i].time <= now
    requires Remaining(ms[k], user, now) > 0
    ensures exists i, j :: 0 <= i < j < k && FailsAt(evs, user, i) && FailsAt(evs, user, j) &&
                           NoSuccessBetween(evs, user, i, j) &&
                           evs[j].time <= now < evs[j].time + WINDOW &&
                           Remaining(ms[k], user, now) == evs[j].time + WINDOW - now
  {
    EntriesJustified(evs, ms, k, user);
    assert ArmedBy(evs, k, user, ms[k][user].blockedUntil.value);
  }

  /** An armed deadline is never moved, extended or evicted before it passes. */
  lemma {:induction false} ArmedDeadlineStays(evs: seq<Event>, ms: seq<Ledger>, i: nat, k: nat, user: string)
    requires IsRun(evs, ms) && i <= k <= |evs|
    requires user in ms[i] && user != "" && ms[i][user].blockedUntil.Some?
    requires forall j :: i <= j < k ==> evs[j].time < ms[i][user].blockedUntil.value
    ensures user in ms[k] && ms[k][user] == ms[i][user]
    decreases k - i
  {
    if i < k {
      ArmedDeadlineStays(evs, ms, i, k - 1, user);
      assert Step(ms[k - 1], evs[k - 1], ms[k]);
      assert Active(ms[i][user], evs[k - 1].time);
    }
  }

  // The empty user name is never tracked, and so never blocked.
  lemma {:induction false} EmptyUserUntracked(evs: seq<Event>, ms: seq<Ledger>, k: nat)
    requires IsRun(evs, ms) && k <= |evs|
    ensures "" !in ms[k]
  {
    if k > 0 {
      EmptyUserUntracked(evs, ms, k - 1);
      assert Step(ms[k - 1], evs[k - 1], ms[k]);
    }
  }

  // ---- sequential attempts ------------------------------------------------------------

  datatype Verdict = Accepted | Rejected | Abandoned

  // One call of authenticateBasic: the block check, then the verdict on the credential.
  datatype Attempt = Attempt(user: string, checkedAt: int, verdict: Verdict, at: int)

  predicate Blocked(m: Ledger, a: Attempt) {
    Remaining(m, a.user, a.checkedAt) > 0
  }

  ghost predicate AuthStep(m: Ledger, a: Attempt, m': Ledger) {
    var m1 := AfterCheck(m, a.user, a.checkedAt);
    if Blocked(m, a) then m' == m1
    else
      match a.verdict
      case Accepted => m' == AfterSuccess(m1, a.user, a.at)
      case Rejected => AfterFailure(m1, a.user, a.at, m')
      case Abandoned => m' == m1
  }

  datatype Answer = Refused(seconds: int) | Verdict(verdict: Verdict)

  // verdict and at are what the credential check answers, and when; a blocked user
  // never gets that far.
  method AuthenticateBasic(l: RecurrentLimiter, a: Attempt) returns (answer: Answer)
    modifies l
    ensures AuthStep(old(l.entries), a, l.entries)
    ensures answer == if Blocked(old(l.entries), a)
                      then Refused(BlockedSeconds(Remaining(old(l.entries), a.user, a.checkedAt)))
                      else Verdict(a.verdict)
  {
    var wait := l.BlockedRemaining(a.user, a.checkedAt);
    if wait > 0 {
      return Refused(BlockedSeconds(wait));
    }
    match a.verdict {
      case Accepted => l.Success(a.user, a.at);
      case Rejected => l.Failure(a.user, a.at);
      case Abandoned =>
    }
    return Verdict(a.verdict);
  }

  // Attempts one after the other, from the empty ledger.
  ghost predicate IsSequence(attempts: seq<Attempt>, ms: seq<Ledger>) {
    && |ms| == |attempts| + 1 && ms[0] == map[]
    && (forall i :: 0 <= i < |attempts| ==>
          AuthStep(ms[i], attempts[i], ms[i + 1]) && attempts[i].checkedAt <= attempts[i].at)
    && (forall i, j :: 0 <= i < j < |attempts| ==> attempts[i].at <= attempts[j].checkedAt)
  }

  predicate RejectedAt(attempts: seq<Attempt>, ms: seq<Ledger>, user: string, i: int) {
    0 <= i < |attempts| && i < |ms| &&
    attempts[i].user == user && attempts[i].verdict == Rejected && !Blocked(ms[i], attempts[i])
  }

  // No attempt of user succeeds, and no sweep evicts its counter.
  ghost predicate Undisturbed(attempts: seq<Attempt>, ms: seq<Ledger>, user: string)
    requires |ms| == |attempts| + 1
  {
    forall i :: 0 <= i < |attempts| ==>
      && !(attempts[i].user == user && attempts[i].verdict == Accepted)
      && (user in ms[i] && ms[i][user].blockedUntil.None? ==> user in ms[i + 1])
      && (RejectedAt(attempts, ms, user, i) ==> user in ms[i + 1])
  }

  // No three rejections of user among the first k attempts fit in one window.
  ghost predicate Spaced(attempts: seq<Attempt>, ms: seq<Ledger>, user: string, k: int) {
    forall i, j, l | i < j < l < k &&
                     RejectedAt(attempts, ms, user, i) && RejectedAt(attempts, ms, user, j) &&
                     RejectedAt(attempts, ms, user, l) ::
      attempts[i].at + WINDOW <= attempts[l].at
  }

  // Every rejection of user before attempt b, but r itself, lies a full window before r.
  ghost predicate LoneSince(attempts: seq<Attempt>, ms: seq<Ledger>, user: string, b: int, r: int) {
    && RejectedAt(attempts, ms, user, r) && r < b
    && forall i :: i < b && i != r && RejectedAt(attempts, ms, user, i) ==>
         i < r && attempts[i].at + WINDOW <= attempts[r].at
  }

  // Every rejection of user before attempt b has left the window when attempt j starts.
  ghost predicate AllOld(attempts: seq<Attempt>, ms: seq<Ledger>, user: string, b: int, time: int) {
    forall i :: i < b && RejectedAt(attempts, ms, user, i) ==> attempts[i].at + WINDOW <= time
  }

  // r is the last rejection of user before attempt b.
  ghost predicate LastRejection(attempts: seq<Attempt>, ms: seq<Ledger>, user: string, b: int, r: int) {
    && RejectedAt(attempts, ms, user, r) && r < b
    && forall i :: i < b && RejectedAt(attempts, ms, user, i) ==> i <= r
  }

  // What the entry of user says about its past rejections.
  ghost predicate Phase(attempts: seq<Attempt>, ms: seq<Ledger>, user: string, k: int)
    requires 0 <= k < |ms|
  {
    var m := ms[k];
    if user !in m then
      forall j :: k <= j < |attempts| ==> AllOld(attempts, ms, user, k, attempts[j].checkedAt)
    else if m[user].blockedUntil.None? then
      m[user].failures == 1 && exists r :: LoneSince(attempts, ms, user, k, r)
    else
      m[user].failures == 0 &&
      exists r :: LastRejection(attempts, ms, user, k, r) && m[user].blockedUntil.value == attempts[r].at + WINDOW
  }

  lemma {:induction false} PhaseHolds(attempts: seq<Attempt>, ms: seq<Ledger>, user: string, k: nat)
    requires IsSequence(attempts, ms) && user != "" && Undisturbed(attempts, ms, user) && k <= |attempts|
    ensures Phase(attempts, ms, user, k) && Spaced(attempts, ms, user, k)
  {
    if k > 0 {
      PhaseHolds(attempts, ms, user, k - 1);
      PhaseStep(attempts, ms, user, k - 1, k);
    }
  }

  lemma PhaseStep(attempts: seq<Attempt>, ms: seq<Ledger>, user: string, k: nat, next: nat)
    requires IsSequence(attempts, ms) && user != "" && Undisturbed(attempts, ms, user)
    requires k < |attempts| && next == k + 1
    requires Phase(attempts, ms, user, k) && Spaced(attempts, ms, user, k)
    ensures Phase(attempts, ms, user, next) && Spaced(attempts, ms, user, next)
  {
    if RejectedAt(attempts, ms, user, k) {
      PhaseAfterRejection(attempts, ms, user, k);
    } else {
      PhaseAfterOther(attempts, ms, user, k);
    }
  }

  // What one attempt does to the entry of user, when no success of user intervenes.
  lemma AttemptEntry(m: Ledger, a: Attempt, m': Ledger, user: string)
    requires AuthStep(m, a, m') && user != "" && a.checkedAt <= a.at
    requires !(a.user == user && a.verdict == Accepted)
    ensures var rejected := a.user == user && a.verdict == Rejected && !Blocked(m, a);
            var m1 := AfterCheck(m, a.user, a.checkedAt);
            && (rejected ==> !(user in m1 && m1[user].blockedUntil.Some?))
            && (rejected && user in m' ==> m'[user] == Counted(if user in m1 then m1[user] else Entry(0, None), a.at))
            && (!rejected && user in m' ==> user in m && m'[user] == m[user])
            && (!rejected && user in m && user !in m' ==> m[user].blockedUntil.None? || Lapsed(m[user], a.at))
  {
  }

  // A further attempt keeps the spacing when it is no rejection, or one far enough from
  // all but the last.
  lemma SpacingExtends(attempts: seq<Attempt>, ms: seq<Ledger>, user: string, k: nat)
    requires IsSequence(attempts, ms) && k < |attempts|
    requires Spaced(attempts, ms, user, k)
    requires !RejectedAt(attempts, ms, user, k) ||
             (exists r :: LoneSince(attempts, ms, user, k, r)) || AllOld(attempts, ms, user, k, attempts[k].checkedAt)
    ensures Spaced(attempts, ms, user, k + 1)
  {
    forall i, j, l | i < j < l < k + 1 &&
                     RejectedAt(attempts, ms, user, i) && RejectedAt(attempts, ms, user, j) &&
                     RejectedAt(attempts, ms, user, l)
      ensures attempts[i].at + WINDOW <= attempts[l].at
    {
      if l == k {
        if AllOld(attempts, ms, user, k, attempts[k].checkedAt) {
          assert attempts[i].at + WINDOW <= attempts[k].checkedAt;
        } else {
          var r :| LoneSince(attempts, ms, user, k, r);
          assert attempts[r].at <= attempts[k].checkedAt;
        }
      }
    }
  }

  lemma PhaseAfterRejection(attempts: seq<Attempt>, ms: seq<Ledger>, user: string, k: nat)
    requires IsSequence(attempts, ms) && user != "" && Undisturbed(attempts, ms, user)
    requires RejectedAt(attempts, ms, user, k) && k < |attempts|
    requires Phase(attempts, ms, user, k) && Spaced(attempts, ms, user, k)
    ensures Phase(attempts, ms, user, k + 1) && Spaced(attempts, ms, user, k + 1)
  {
    var a, m := attempts[k], ms[k];
    AttemptEntry(m, a, ms[k + 1], user);
    if user in m && m[user].blockedUntil.None? {
      assert LastRejection(attempts, ms, user, k + 1, k);
    } else {
      assert AllOld(attempts, ms, user, k, a.checkedAt) by {
        if user in m {
          LapsedIsOld(attempts, ms, user, k, a.checkedAt);
        }
      }
      assert LoneSince(attempts, ms, user, k + 1, k);
    }
    SpacingExtends(attempts, ms, user, k);
  }

  // Once the deadline set by the last rejection has passed, every rejection is old.
  lemma LapsedIsOld(attempts: seq<Attempt>, ms: seq<Ledger>, user: string, k: nat, time: int)
    requires IsSequence(attempts, ms) && k < |ms| && user in ms[k] && Lapsed(ms[k][user], time)
    requires Phase(attempts, ms, user, k)
    ensures AllOld(attempts, ms, user, k, time)
  {
    var r :| LastRejection(attempts, ms, user, k, r) && ms[k][user].blockedUntil.value == attempts[r].at + WINDOW;
    forall i | i < k && RejectedAt(attempts, ms, user, i) ensures attempts[i].at + WINDOW <= time {
      assert i < r ==> attempts[i].at <= attempts[r].checkedAt <= attempts[r].at;
    }
  }

  // Without an entry, every rejection is a window old for whoever comes next.
  lemma PhaseForgotten(attempts: seq<Attempt>, ms: seq<Ledger>, user: string, k: nat)
    requires IsSequence(attempts, ms) && user != "" && Undisturbed(attempts, ms, user)
    requires !RejectedAt(attempts, ms, user, k) && k < |attempts| && user !in ms[k + 1]
    requires Phase(attempts, ms, user, k)
    ensures Phase(attempts, ms, user, k + 1)
  {
    var a, m := attempts[k], ms[k];
    AttemptEntry(m, a, ms[k + 1], user);
    if user in m {
      LapsedIsOld(attempts, ms, user, k, a.at);
    }
    forall j | k + 1 <= j < |attempts| ensures AllOld(attempts, ms, user, k + 1, attempts[j].checkedAt) {
      assert user !in m ==> AllOld(attempts, ms, user, k, attempts[j].checkedAt);
      assert a.at <= attempts[j].checkedAt;
    }
  }

  lemma PhaseAfterOther(attempts: seq<Attempt>, ms: seq<Ledger>, user: string, k: nat)
    requires IsSequence(attempts, ms) && user != "" && Undisturbed(attempts, ms, user)
    requires !RejectedAt(attempts, ms, user, k) && k < |attempts|
    requires Phase(attempts, ms, user, k) && Spaced(attempts, ms, user, k)
    ensures Phase(attempts, ms, user, k + 1) && Spaced(attempts, ms, user, k + 1)
  {
    var a, m, m' := attempts[k], ms[k], ms[k + 1];
    AttemptEntry(m, a, m', user);
    SpacingExtends(attempts, ms, user, k);
    if user !in m' {
      PhaseForgotten(attempts, ms, user, k);
    } else if m[user].blockedUntil.None? {
      var r :| LoneSince(attempts, ms, user, k, r);
      assert LoneSince(attempts, ms, user, k + 1, r);
    } else {
      var r :| LastRejection(attempts, ms, user, k, r) && m[user].blockedUntil.value == attempts[r].at + WINDOW;
      assert LastRejection(attempts, ms, user, k + 1, r);
    }
  }

  /** Tried one request at a time, with no success and no eviction, a user cannot draw
      three rejections inside one half-open window: the third comes at least a full
      window after the first. */
  lemma AtMostTwoPerWindow(attempts: seq<Attempt>, ms: seq<Ledger>, user: string, i: nat, j: nat, l: nat)
    requires IsSequence(attempts, ms) && user != "" && Undisturbed(attempts, ms, user)
    requires i < j < l
    requires RejectedAt(attempts, ms, user, i) && RejectedAt(attempts, ms, user, j) && RejectedAt(attempts, ms, user, l)
    ensures attempts[i].at + WINDOW <= attempts[l].at
  {
    PhaseHolds(attempts, ms, user, |attempts|);
  }

  // ---- a sequence is a run ---------------------------------------------------------------------

  predicate AcceptedAt(attempts: seq<Attempt>, ms: seq<Ledger>, user: string, i: int) {
    0 <= i < |attempts| && i < |ms| &&
    attempts[i].user == user && attempts[i].verdict == Accepted && !Blocked(ms[i], attempts[i])
  }

  // The steps of one attempt: its check and, unless it is blocked, its verdict.
  function StepsOf(m: Ledger, a: Attempt): seq<Event> {
    [Check(a.user, a.checkedAt)] +
    if Blocked(m, a) then []
    else
      match a.verdict
      case Accepted => [Succeed(a.user, a.at)]
      case Rejected => [Fail(a.user, a.at)]
      case Abandoned => []
  }

  // The run an attempt sequence makes: the steps of attempt i begin at step starts[i], from
  // the ledger the attempt met.
  ghost predicate Unfolds(attempts: seq<Attempt>, ms: seq<Ledger>, n: nat,
                          evs: seq<Event>, ls: seq<Ledger>, starts: seq<nat>) {
    && n <= |attempts| && n < |ms| && IsRun(evs, ls) && |starts| == n + 1
    && starts[0] == 0 && starts[n] == |evs| && ls[|evs|] == ms[n]
    && (forall i, next :: 0 <= i < n && next == i + 1 ==>
          && starts[next] == starts[i] + |StepsOf(ms[i], attempts[i])| && starts[next] <= |evs|
          && ls[starts[i]] == ms[i] && evs[starts[i]..starts[next]] == StepsOf(ms[i], attempts[i]))
  }

  lemma {:induction false} SequenceUnfolds(attempts: seq<Attempt>, ms: seq<Ledger>, n: nat)
    returns (evs: seq<Event>, ls: seq<Ledger>, starts: seq<nat>)
    requires IsSequence(attempts, ms) && n <= |attempts|
    ensures Unfolds(attempts, ms, n, evs, ls, starts)
    ensures forall e :: 0 <= e < |evs| ==> n > 0 && evs[e].time <= attempts[n - 1].at
  {
    if n == 0 {
      evs, ls, starts := [], [map[]], [0];
    } else {
      var a, m := attempts[n - 1], ms[n - 1];
      evs, ls, starts := SequenceUnfolds(attempts, ms, n - 1);
      evs, ls, starts := OneMoreAttempt(attempts, ms, n - 1, n, evs, ls, starts);
    }
  }

  lemma OneMoreAttempt(attempts: seq<Attempt>, ms: seq<Ledger>, n: nat, next: nat,
                       evs: seq<Event>, ls: seq<Ledger>, starts: seq<nat>)
    returns (evs': seq<Event>, ls': seq<Ledger>, starts': seq<nat>)
    requires IsSequence(attempts, ms) && next == n + 1 <= |attempts| && Unfolds(attempts, ms, n, evs, ls, starts)
    requires forall e :: 0 <= e < |evs| ==> evs[e].time <= attempts[n].checkedAt
    ensures Unfolds(attempts, ms, next, evs', ls', starts')
    ensures forall e :: 0 <= e < |evs'| ==> evs'[e].time <= attempts[n].at
  {
    var a, m := attempts[n], ms[n];
    var steps := StepsOf(m, a);
    var m1 := AfterCheck(m, a.user, a.checkedAt);
    evs' := evs + steps;
    ls' := ls + (if |steps| == 1 then [ms[next]] else [m1, ms[next]]);
    starts' := starts + [|evs'|];
    assert AuthStep(m, a, ms[next]);
    forall i | 0 <= i < |evs'| ensures Step(ls'[i], evs'[i], ls'[i + 1]) {
      if i < |evs| {
        assert Step(ls[i], evs[i], ls[i + 1]);
      }
    }
    forall i, after | 0 <= i < next && after == i + 1
      ensures starts'[after] == starts'[i] + |StepsOf(ms[i], attempts[i])| && starts'[after] <= |evs'|
      ensures ls'[starts'[i]] == ms[i] && evs'[starts'[i]..starts'[after]] == StepsOf(ms[i], attempts[i])
    {
      if i < n {
        assert evs'[starts[i]..starts[after]] == evs[starts[i]..starts[after]];
      }
    }
  }

  // Every step of the run belongs to one attempt.
  lemma {:induction false} StepOwner(attempts: seq<Attempt>, ms: seq<Ledger>, n: nat, evs: seq<Event>,
                                     ls: seq<Ledger>, starts: seq<nat>, e: nat, k: nat) returns (i: nat)
    requires Unfolds(attempts, ms, n, evs, ls, starts) && k <= n && e < starts[k]
    ensures i < k && starts[i] <= e < starts[i + 1] && evs[e] == StepsOf(ms[i], attempts[i])[e - starts[i]]
  {
    if starts[k - 1] <= e {
      i := k - 1;
      assert evs[starts[i]..starts[k]][e - starts[i]] == evs[e];
    } else {
      i := StepOwner(attempts, ms, n, evs, ls, starts, e, k - 1);
    }
  }

  lemma {:induction false} StartsGrow(attempts: seq<Attempt>, ms: seq<Ledger>, n: nat, evs: seq<Event>,
                                      ls: seq<Ledger>, starts: seq<nat>, i: nat, j: nat)
    requires Unfolds(attempts, ms, n, evs, ls, starts) && i < j <= n
    ensures starts[i] + |StepsOf(ms[i], attempts[i])| <= starts[j]
    decreases j
  {
    if i + 1 < j {
      StartsGrow(attempts, ms, n, evs, ls, starts, i, j - 1);
    }
  }

  /** An attempt is answered as blocked only when two attempts of its user were adjudicated
      and rejected before it, none accepted between them, the second of them less than the
      window ago. */
  lemma AttemptBlockIsEarned(attempts: seq<Attempt>, ms: seq<Ledger>, k: nat) returns (i: nat, j: nat)
    requires IsSequence(attempts, ms) && k < |attempts| && Blocked(ms[k], attempts[k])
    ensures i < j < k
    ensures RejectedAt(attempts, ms, attempts[k].user, i) && RejectedAt(attempts, ms, attempts[k].user, j)
    ensures forall x :: i < x < j ==> !AcceptedAt(attempts, ms, attempts[k].user, x)
    ensures attempts[j].at <= attempts[k].checkedAt < attempts[j].at + 4_000_000_000
  {
    var user, now := attempts[k].user, attempts[k].checkedAt;
    var evs, ls, starts := SequenceUnfolds(attempts, ms, k);
    BlockIsEarned(evs, ls, |evs|, user, now);
    var d, e :| 0 <= d < e < |evs| && FailsAt(evs, user, d) && FailsAt(evs, user, e) &&
                NoSuccessBetween(evs, user, d, e) && evs[e].time <= now < evs[e].time + WINDOW;
    i := StepOwner(attempts, ms, k, evs, ls, starts, d, k);
    j := StepOwner(attempts, ms, k, evs, ls, starts, e, k);
    FailOwner(attempts, ms, evs[d], user, i, d - starts[i]);
    FailOwner(attempts, ms, evs[e], user, j, e - starts[j]);
    OwnersInOrder(attempts, ms, k, evs, ls, starts, i, j, d, e);
    forall x | i < x < j ensures !AcceptedAt(attempts, ms, user, x) {
      NoneAcceptedBetween(attempts, ms, k, evs, ls, starts, user, i, j, d, e, x);
    }
  }

  lemma OwnersInOrder(attempts: seq<Attempt>, ms: seq<Ledger>, n: nat, evs: seq<Event>, ls: seq<Ledger>,
                      starts: seq<nat>, i: nat, j: nat, d: nat, e: nat)
    requires Unfolds(attempts, ms, n, evs, ls, starts) && i < n && j < n && d < e
    requires d == starts[i] + 1 < starts[i + 1] && e == starts[j] + 1 < starts[j + 1]
    ensures i < j
  {
    if j < i {
      StartsGrow(attempts, ms, n, evs, ls, starts, j, i);
    }
  }

  lemma NoneAcceptedBetween(attempts: seq<Attempt>, ms: seq<Ledger>, n: nat, evs: seq<Event>, ls: seq<Ledger>,
                            starts: seq<nat>, user: string, i: nat, j: nat, d: nat, e: nat, x: nat)
    requires Unfolds(attempts, ms, n, evs, ls, starts) && i < x < j < n && e < |evs|
    requires d < starts[i + 1] && starts[j] <= e && NoSuccessBetween(evs, user, d, e)
    ensures !AcceptedAt(attempts, ms, user, x)
  {
    StartsGrow(attempts, ms, n, evs, ls, starts, i, x);
    StartsGrow(attempts, ms, n, evs, ls, starts, x, j);
    var steps := StepsOf(ms[x], attempts[x]);
    if |steps| == 2 {
      var g := starts[x] + 1;
      assert evs[starts[x]..starts[x + 1]][1] == evs[g];
      assert evs[g] == steps[1] && d < g < e;
    }
  }

  lemma FailOwner(attempts: seq<Attempt>, ms: seq<Ledger>, ev: Event, user: string, i: nat, offset: nat)
    requires i < |attempts| && i < |ms| && offset < |StepsOf(ms[i], attempts[i])|
    requires ev == StepsOf(ms[i], attempts[i])[offset] && ev.Fail? && ev.user == user
    ensures RejectedAt(attempts, ms, user, i) && attempts[i].at == ev.time && offset == 1
  {
  }

  // ---- the second rejection blocks ---------------------------------------------------------------

  /** Two adjudicated rejections of an undisturbed user inside one window block every
      further attempt of it until a window after the second. */
  lemma SecondRejectionBlocks(attempts: seq<Attempt>, ms: seq<Ledger>, user: string, i: nat, j: nat, k: nat)
    requires IsSequence(attempts, ms) && user != "" && Undisturbed(attempts, ms, user) && i < j < k < |attempts|
    requires RejectedAt(attempts, ms, user, i) && RejectedAt(attempts, ms, user, j)
    requires attempts[j].checkedAt < attempts[i].at + 4_000_000_000
    requires attempts[k].user == user && attempts[k].checkedAt < attempts[j].at + 4_000_000_000
    ensures Blocked(ms[k], attempts[k])
  {
    PhaseHolds(attempts, ms, user, j);
    assert AuthStep(ms[j], attempts[j], ms[j + 1]);
    AttemptEntry(ms[j], attempts[j], ms[j + 1], user);
    assert attempts[i].at <= attempts[j].checkedAt;
    CounterOfOne(attempts, ms, user, i, j);
    assert ms[j + 1][user] == Entry(0, Some(attempts[j].at + WINDOW));
    BlockLasts(attempts, ms, user, j + 1, k);
  }

  // A rejected attempt within a window of an earlier rejection meets a count of one.
  lemma CounterOfOne(attempts: seq<Attempt>, ms: seq<Ledger>, user: string, i: nat, j: nat)
    requires IsSequence(attempts, ms) && user != "" && i < j < |attempts|
    requires RejectedAt(attempts, ms, user, i) && RejectedAt(attempts, ms, user, j)
    requires attempts[j].checkedAt < attempts[i].at + WINDOW && Phase(attempts, ms, user, j)
    ensures user in ms[j] && ms[j][user] == Entry(1, None)
  {
    assert forall r :: i <= r < j ==> attempts[i].at <= attempts[r].at;
  }

  lemma BlockLasts(attempts: seq<Attempt>, ms: seq<Ledger>, user: string, j: nat, k: nat)
    requires IsSequence(attempts, ms) && user != "" && j <= k < |attempts|
    requires user in ms[j] && ms[j][user].blockedUntil.Some?
    requires attempts[k].checkedAt < ms[j][user].blockedUntil.value
    ensures user in ms[k] && ms[k][user] == ms[j][user]
  {
    var e := ms[j][user];
    forall i, next | j <= i < k && next == i + 1 ensures Persists(ms[i], ms[next], user, e) {
      var a := attempts[i];
      assert AuthStep(ms[i], a, ms[next]) && a.checkedAt <= a.at <= attempts[k].checkedAt;
      if user in ms[i] && ms[i][user] == e {
        ActiveStays(ms[i], a, ms[next], user);
      }
    }
    PersistsTo(ms, user, e, j, k);
  }

  ghost predicate Persists(m: Ledger, m': Ledger, user: string, e: Entry) {
    user in m && m[user] == e ==> user in m' && m'[user] == e
  }

  lemma {:induction false} PersistsTo(ms: seq<Ledger>, user: string, e: Entry, j: nat, k: nat)
    requires j <= k < |ms| && user in ms[j] && ms[j][user] == e
    requires forall i, next :: j <= i < k && next == i + 1 ==> Persists(ms[i], ms[next], user, e)
    ensures user in ms[k] && ms[k][user] == e
    decreases k
  {
    if j < k {
      PersistsTo(ms, user, e, j, k - 1);
      assert Persists(ms[k - 1], ms[k], user, e);
    }
  }

  // No attempt touches an active block before its deadline.
  lemma ActiveStays(m: Ledger, a: Attempt, m': Ledger, user: string)
    requires AuthStep(m, a, m') && user != "" && a.checkedAt <= a.at
    requires user in m && m[user].blockedUntil.Some? && a.at < m[user].blockedUntil.value
    ensures user in m' && m'[user] == m[user]
  {
    var m1 := AfterCheck(m, a.user, a.checkedAt);
    assert user in m1 && m1[user] == m[user];
    if !Blocked(m, a) && a.verdict == Rejected {
      FailureKeepsActive(m1, a.user, a.at, m', user);
    }
  }

  lemma FailureKeepsActive(m: Ledger, failing: string, now: int, m': Ledger, user: string)
    requires AfterFailure(m, failing, now, m') && user in m && Active(m[user], now)
    ensures user in m' && m'[user] == m[user]
  {
  }
}
