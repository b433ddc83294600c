/** The LDAP connection pool (internal/auth/ldap.go) under concurrent clients. Taking a
    connection is two steps, the closed check under the pool's lock and the receive without
    it. Returning one is a single step under the lock; closing holds the lock from the
    moment the channel is shut until the last idle connection is drained, one at a time. */
module LdapPool {
  type Conn = int
  type Client = int

  type Stages = map<Client, Stage>

  // What a client is doing.
  datatype Stage = Away | Admitted | Holding(conn: Conn) | HoldingNothing

  // idle is the pool's channel, oldest first; closed lists the closed connections in
  // order; connections below next have been dialed. While draining, a close is under way
  // and holds the lock.
  datatype Pool = Pool(idle: seq<Conn>, shut: bool, draining: bool, next: nat, stages: Stages, closed: seq<Conn>)

  datatype Step =
    | Check(client: Client)
    | Receive(client: Client, dialFails: bool)
    | Put(client: Client)
    | Shut
    | Drain
    | FinishClose

  function StageOf(p: Pool, client: Client): Stage {
    if client in p.stages then p.stages[client] else Away
  }

  function With(p: Pool, client: Client, stage: Stage): Pool {
    p.(stages := p.stages[client := stage])
  }

  predicate Enabled(p: Pool, step: Step) {
    match step
    case Check(client) => !p.draining && StageOf(p, client) == Away
    case Receive(client, _) => StageOf(p, client) == Admitted
    case Put(client) => !p.draining && (StageOf(p, client).Holding? || StageOf(p, client) == HoldingNothing)
    case Shut => !p.draining
    case Drain => p.draining && p.idle != []
    case FinishClose => p.draining && p.idle == []
  }

  /** get's second half: an idle connection if there is one; a closed channel yields the
      nil connection; else a dial, which may fail. */
  function Received(p: Pool, client: Client, dialFails: bool): Pool {
    if p.idle != [] then With(p.(idle := p.idle[1..]), client, Holding(p.idle[0]))
    else if p.shut then With(p, client, HoldingNothing)
    else if dialFails then With(p, client, Away)
    else With(p.(next := p.next + 1), client, Holding(p.next))
  }

  // put: back into the pool if there is room, else closed; nil is ignored.
  function Returned(p: Pool, capacity: nat, client: Client): Pool {
    match StageOf(p, client)
    case Holding(conn) =>
      var p1 := With(p, client, Away);
      if p.shut || |p.idle| >= capacity then p1.(closed := p.closed + [conn])
      else p1.(idle := p.idle + [conn])
    case _ => With(p, client, Away)
  }

  // Close, once it has the lock: a second close does nothing.
  function ShutDown(p: Pool): Pool {
    if p.shut then p else p.(shut := true, draining := true)
  }

  // One round of its loop.
  function Drained(p: Pool): Pool
    requires p.idle != []
  {
    p.(idle := p.idle[1..], closed := p.closed + [p.idle[0]])
  }

  function Apply(p: Pool, capacity: nat, step: Step): Pool
    requires Enabled(p, step)
  {
    match step
    case Check(client) => if p.shut then p else With(p, client, Admitted)
    case Receive(client, dialFails) => Received(p, client, dialFails)
    case Put(client) => Returned(p, capacity, client)
    case Shut => ShutDown(p)
    case Drain => Drained(p)
    case FinishClose => p.(draining := false)
  }

  // ---- the pool as written --------------------------------------------------------------------

  // stages is what the clients are doing, kept here because a client calls get and put.
  class ConnPool {
    const capacity: nat
    var idle: seq<Conn>
    var shut: bool
    var draining: bool
    var next: nat
    var stages: Stages
    var closed: seq<Conn>

    ghost function Now(): Pool
      reads this
    {
      Pool(idle, shut, draining, next, stages, closed)
    }

    constructor (maxSize: int)
      ensures Now() == FRESH && capacity == if maxSize <= 0 then 5 else maxSize
    {
      capacity := if maxSize <= 0 then 5 else maxSize;
      idle, shut, draining, next, stages, closed := [], false, false, 0, map[], [];
    }

    // get, first half
    method CheckOpen(client: Client) returns (open: bool)
      requires Enabled(Now(), Check(client))
      modifies this`stages
      ensures Now() == Apply(old(Now()), capacity, Check(client)) && open == !shut
    {
      if shut {
        return false;
      }
      stages := stages[client := Admitted];
      return true;
    }

    // get, second half
    method ReceiveOrDial(client: Client, dialFails: bool)
      requires Enabled(Now(), Receive(client, dialFails))
      modifies this
      ensures Now() == Apply(old(Now()), capacity, Receive(client, dialFails))
    {
      if idle != [] {
        stages := stages[client := Holding(idle[0])];
        idle := idle[1..];
      } else if shut {
        stages := stages[client := HoldingNothing];
      } else if dialFails {
        stages := stages[client := Away];
      } else {
        stages := stages[client := Holding(next)];
        next := next + 1;
      }
    }

    method PutBack(client: Client)
      requires Enabled(Now(), Put(client))
      modifies this
      ensures Now() == Apply(old(Now()), capacity, Put(client))
    {
      var stage := stages[client];
      stages := stages[client := Away];
      if stage == HoldingNothing {
        return;
      }
      if shut || |idle| >= capacity {
        closed := closed + [stage.conn];
      } else {
        idle := idle + [stage.conn];
      }
    }

    method BeginClose()
      requires Enabled(Now(), Shut)
      modifies this
      ensures Now() == Apply(old(Now()), capacity, Shut)
    {
      if !shut {
        shut, draining := true, true;
      }
    }

    method DrainOne()
      requires Enabled(Now(), Drain)
      modifies this
      ensures Now() == Apply(old(Now()), capacity, Drain)
    {
      closed := closed + [idle[0]];
      idle := idle[1..];
    }

    // Close, when no client receives during its loop.
    method CloseAll()
      requires Enabled(Now(), Shut)
      modifies this
      ensures shut && !draining && next == old(next) && stages == old(stages)
      ensures if old(shut) then idle == old(idle) && closed == old(closed)
              else idle == [] && closed == old(closed) + old(idle)
    {
      if shut {
        return;
      }
      BeginClose();
      while idle != []
        invariant closed + idle == old(closed) + old(idle)
        invariant shut && draining && next == old(next) && stages == old(stages)
        decreases |idle|
      {
        DrainOne();
      }
      assert closed + [] == closed;
      draining := false;
    }
  }

  // ---- conservation -------------------------------------------------------------------------

  // The connections no client holds.
  function Parked(p: Pool): multiset<Conn> {
    multiset(p.idle) + multiset(p.closed)
  }

  predicate Holds(stages: Stages, client: Client, conn: Conn) {
    client in stages && stages[client] == Holding(conn)
  }

  // Every parked or held connection was dialed and is in one place only, once.
  ghost predicate Separate(parked: multiset<Conn>, stages: Stages, next: nat) {
    && (forall conn :: conn in parked ==> 0 <= conn < next && parked[conn] == 1)
    && (forall client, conn :: Holds(stages, client, conn) ==> 0 <= conn < next && conn !in parked)
    && (forall a, b, conn :: Holds(stages, a, conn) && Holds(stages, b, conn) ==> a == b)
  }

  // No dialed connection is lost.
  ghost predicate Accounted(parked: multiset<Conn>, stages: Stages, next: nat) {
    forall conn :: 0 <= conn < next ==> conn in parked || Taken(stages, conn)
  }

  ghost predicate Taken(stages: Stages, conn: Conn) {
    exists client :: Holds(stages, client, conn)
  }

  ghost predicate Conserved(parked: multiset<Conn>, stages: Stages, next: nat) {
    Separate(parked, stages, next) && Accounted(parked, stages, next)
  }

  // The pool never exceeds its capacity, and holds nothing once a close has finished.
  ghost predicate Bounded(p: Pool, capacity: nat) {
    && |p.idle| <= capacity && (p.shut && !p.draining ==> p.idle == []) && (p.draining ==> p.shut)
    && (!p.shut ==> forall client :: client in p.stages ==> p.stages[client] != HoldingNothing)
  }

  // A client that holds nothing changes stage and still holds nothing.
  lemma EmptyHandsConserve(parked: multiset<Conn>, stages: Stages, next: nat, client: Client, stage: Stage)
    requires Conserved(parked, stages, next)
    requires client in stages ==> !stages[client].Holding?
    requires !stage.Holding?
    ensures Conserved(parked, stages[client := stage], next)
  {
    var stages' := stages[client := stage];
    assert forall c, conn :: Holds(stages', c, conn) ==> Holds(stages, c, conn);
    forall conn | Taken(stages, conn) ensures Taken(stages', conn) {
      var c :| Holds(stages, c, conn);
      assert Holds(stages', c, conn);
    }
  }

  // A client that holds nothing takes a parked connection, or one just dialed.
  lemma TakingConserves(parked: multiset<Conn>, stages: Stages, next: nat, client: Client, conn: Conn)
    requires Conserved(parked, stages, next)
    requires client in stages ==> !stages[client].Holding?
    ensures conn in parked ==> Conserved(parked - multiset{conn}, stages[client := Holding(conn)], next)
    ensures conn == next ==> Conserved(parked, stages[client := Holding(conn)], next + 1)
  {
    var stages' := stages[client := Holding(conn)];
    assert forall c, x :: Holds(stages', c, x) ==> Holds(stages, c, x) || (c == client && x == conn);
    assert Holds(stages', client, conn);
    forall x | Taken(stages, x) ensures Taken(stages', x) {
      var c :| Holds(stages, c, x);
      assert Holds(stages', c, x);
    }
  }

  // A client lets go of its connection, which is parked.
  lemma LettingGoConserves(parked: multiset<Conn>, stages: Stages, next: nat, client: Client, conn: Conn)
    requires Conserved(parked, stages, next) && Holds(stages, client, conn)
    ensures Conserved(parked + multiset{conn}, stages[client := Away], next)
  {
    var stages' := stages[client := Away];
    assert forall c, x :: Holds(stages', c, x) ==> Holds(stages, c, x) && c != client;
    forall x | Taken(stages, x) && x != conn ensures Taken(stages', x) {
      var c :| Holds(stages, c, x);
      assert Holds(stages', c, x);
    }
  }

  ghost predicate PoolConserved(p: Pool) {
    Conserved(Parked(p), p.stages, p.next)
  }

  lemma ReceiveConserves(p: Pool, client: Client, dialFails: bool)
    requires PoolConserved(p) && StageOf(p, client) == Admitted
    ensures PoolConserved(Received(p, client, dialFails))
  {
    if p.idle != [] {
      assert p.idle == [p.idle[0]] + p.idle[1..];
      assert Parked(Received(p, client, dialFails)) == Parked(p) - multiset{p.idle[0]};
      TakingConserves(Parked(p), p.stages, p.next, client, p.idle[0]);
    } else if p.shut {
      EmptyHandsConserve(Parked(p), p.stages, p.next, client, HoldingNothing);
    } else if dialFails {
      EmptyHandsConserve(Parked(p), p.stages, p.next, client, Away);
    } else {
      TakingConserves(Parked(p), p.stages, p.next, client, p.next);
    }
  }

  lemma PutConserves(p: Pool, capacity: nat, client: Client)
    requires PoolConserved(p) && Enabled(p, Put(client))
    ensures PoolConserved(Returned(p, capacity, client))
  {
    if StageOf(p, client).Holding? {
      var conn := StageOf(p, client).conn;
      assert Parked(Returned(p, capacity, client)) == Parked(p) + multiset{conn};
      LettingGoConserves(Parked(p), p.stages, p.next, client, conn);
    } else {
      EmptyHandsConserve(Parked(p), p.stages, p.next, client, Away);
    }
  }

  lemma DrainConserves(p: Pool)
    requires PoolConserved(p) && p.idle != []
    ensures PoolConserved(Drained(p))
  {
    assert p.idle == [p.idle[0]] + p.idle[1..];
    assert Parked(Drained(p)) == Parked(p);
  }

  lemma ConservedStays(p: Pool, capacity: nat, step: Step)
    requires PoolConserved(p) && Enabled(p, step)
    ensures PoolConserved(Apply(p, capacity, step))
  {
    match step
    case Check(client) => EmptyHandsConserve(Parked(p), p.stages, p.next, client, Admitted);
    case Shut =>
    case FinishClose =>
    case Drain => DrainConserves(p);
    case Receive(client, dialFails) => ReceiveConserves(p, client, dialFails);
    case Put(client) => PutConserves(p, capacity, client);
  }

  lemma BoundedStays(p: Pool, capacity: nat, step: Step)
    requires Bounded(p, capacity) && Enabled(p, step)
    ensures Bounded(Apply(p, capacity, step), capacity)
  {
  }

  ghost predicate Follows(p: Pool, capacity: nat, step: Step, p': Pool) {
    Enabled(p, step) && p' == Apply(p, capacity, step)
  }

  const FRESH := Pool([], false, false, 0, map[], [])

  ghost predicate IsRun(capacity: nat, steps: seq<Step>, pools: seq<Pool>) {
    && |pools| == |steps| + 1 && pools[0] == FRESH
    && forall i :: 0 <= i < |steps| ==> Follows(pools[i], capacity, steps[i], pools[i + 1])
  }

  /** Over every interleaving each dialed connection is, at every moment, in exactly one
      place — idle, held by one client, or closed once — the pool is within its capacity,
      and once a close has finished it holds nothing. */
  lemma {:induction false} RunConserves(capacity: nat, steps: seq<Step>, pools: seq<Pool>, i: nat)
    requires IsRun(capacity, steps, pools) && i < |pools|
    ensures PoolConserved(pools[i]) && Bounded(pools[i], capacity)
  {
    if i > 0 {
      var p, step := pools[i - 1], steps[i - 1];
      assert Follows(p, capacity, step, pools[i]);
      RunConserves(capacity, steps, pools, i - 1);
      ConservedStays(p, capacity, step);
      BoundedStays(p, capacity, step);
    }
  }

  /** An admitted client comes away with no connection and no error exactly when it
      receives from a pool that is shut and drained; from then on that is what every
      admitted client gets. */
  lemma EmptyHandedExactly(capacity: nat, steps: seq<Step>, pools: seq<Pool>, i: nat)
    requires IsRun(capacity, steps, pools) && i < |steps| && steps[i].Receive?
    ensures var after := StageOf(pools[i + 1], steps[i].client);
            && (after == HoldingNothing <==> pools[i].shut && pools[i].idle == [])
            && (!pools[i].draining ==> (after == HoldingNothing <==> pools[i].shut))
  {
    RunConserves(capacity, steps, pools, i);
    assert Follows(pools[i], capacity, steps[i], pools[i + 1]);
  }

  /** What a client meets: the check lets it in exactly when the pool is open; a receive takes
      the oldest idle connection if there is one, else dials if the pool is open; and what is
      put back is idle again exactly when the pool is open and has room, and closed if not. */
  lemma StepsExactly(p: Pool, capacity: nat, client: Client, dialFails: bool)
    ensures Enabled(p, Check(client)) ==>
              (StageOf(Apply(p, capacity, Check(client)), client) == Admitted <==> !p.shut)
    ensures Enabled(p, Receive(client, dialFails)) ==>
              var p' := Apply(p, capacity, Receive(client, dialFails));
              if p.idle != []
              then StageOf(p', client) == Holding(p.idle[0]) && p'.idle == p.idle[1..] && p'.next == p.next
              else p'.idle == [] && StageOf(p', client) == if p.shut then HoldingNothing
                                                           else if dialFails then Away else Holding(p.next)
    ensures Enabled(p, Put(client)) && StageOf(p, client).Holding? ==>
              var p', conn := Apply(p, capacity, Put(client)), StageOf(p, client).conn;
              && StageOf(p', client) == Away
              && (if !p.shut && |p.idle| < capacity
                  then p'.idle == p.idle + [conn] && p'.closed == p.closed
                  else p'.idle == p.idle && p'.closed == p.closed + [conn])
  {
  }

  // A pool once shut stays shut, and no connection is idle in it again once it is drained.
  lemma {:induction false} ShutStays(capacity: nat, steps: seq<Step>, pools: seq<Pool>, i: nat, j: nat)
    requires IsRun(capacity, steps, pools) && i <= j < |pools| && pools[i].shut
    ensures pools[j].shut && (pools[i].idle == [] ==> pools[j].idle == [])
    decreases j
  {
    if i < j {
      ShutStays(capacity, steps, pools, i, j - 1);
      assert Follows(pools[j - 1], capacity, steps[j - 1], pools[j]);
    }
  }

  // A close between the check and the receive hands the client nothing.
  lemma CloseRace(capacity: nat) returns (steps: seq<Step>, pools: seq<Pool>)
    ensures IsRun(capacity, steps, pools)
    ensures StageOf(pools[|steps|], 0) == HoldingNothing
  {
    var p1 := With(FRESH, 0, Admitted);
    var p2 := p1.(shut := true, draining := true);
    var p3 := With(p2, 0, HoldingNothing);
    assert Follows(FRESH, capacity, Check(0), p1);
    assert Follows(p1, capacity, Shut, p2);
    assert Follows(p2, capacity, Receive(0, false), p3);
    steps, pools := [Check(0), Shut, Receive(0, false)], [FRESH, p1, p2, p3];
  }

  // The receive takes no lock: during the drain it may still win an idle connection.
  lemma ReceiveDuringDrain(capacity: nat) returns (steps: seq<Step>, pools: seq<Pool>)
    requires capacity > 0
    ensures IsRun(capacity, steps, pools)
    ensures pools[|steps|].draining && StageOf(pools[|steps|], 0) == Holding(0)
  {
    var p1 := With(FRESH, 0, Admitted);
    var p2 := With(p1.(next := 1), 0, Holding(0));
    var p3 := With(p2.(idle := [0]), 0, Away);
    var p4 := With(p3, 0, Admitted);
    var p5 := p4.(shut := true, draining := true);
    var p6 := With(p5.(idle := []), 0, Holding(0));
    assert Follows(FRESH, capacity, Check(0), p1) && Follows(p1, capacity, Receive(0, false), p2);
    assert Follows(p2, capacity, Put(0), p3) && Follows(p3, capacity, Check(0), p4);
    assert Follows(p4, capacity, Shut, p5) && Follows(p5, capacity, Receive(0, false), p6);
    steps := [Check(0), Receive(0, false), Put(0), Check(0), Shut, Receive(0, false)];
    pools := [FRESH, p1, p2, p3, p4, p5, p6];
  }
}
