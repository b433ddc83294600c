/** The single-use step-up grants of internal/auth/stepup.go: an in-memory ledger
    keyed by the digest of the grant, burned on first presentation. */
module StepUp {
  import opened Text

  datatype Grant = Grant(username: string, sessionHash: string, expiresAt: int)

  type Ledger = map<string, Grant>

  // Both arguments of an issuance must be present and the lifetime positive.
  predicate Issuable(username: string, sessionHash: string, ttl: int) {
    username != "" && sessionHash != "" && ttl > 0
  }

  function Unexpired(m: Ledger, now: int): Ledger {
    map k | k in m && now <= m[k].expiresAt :: m[k]
  }

  predicate Admits(m: Ledger, key: string, username: string, sessionHash: string, now: int) {
    key in m && now <= m[key].expiresAt && m[key].username == username && m[key].sessionHash == sessionHash
  }

  class StepUpLedger {
    const hash: string -> string
    var grants: Ledger

    constructor (hash: string -> string)
      ensures grants == map[] && this.hash == hash
    {
      this.hash := hash;
      grants := map[];
    }

    // entropy is the random grant value, None when the random source fails.
    method Issue(entropy: Option<string>, username: string, sessionHash: string, ttl: int, now: int)
      returns (grant: Option<string>)
      modifies this
      ensures grant == if username != "" && sessionHash != "" && ttl > 0 then entropy else None
      ensures grants == if grant.None? then old(grants)
                        else After(hash, old(grants), Issued(grant.value, username, sessionHash, ttl, now))
      ensures grant.Some? ==> forall k :: k in grants ==> now <= grants[k].expiresAt
    {
      if username == "" || sessionHash == "" || ttl <= 0 || entropy.None? {
        return None;
      }
      var todo := grants.Keys;
      while todo != {}
        invariant todo <= grants.Keys <= old(grants).Keys
        invariant forall k :: k in grants ==> grants[k] == old(grants)[k]
        invariant forall k :: k in grants ==> k in todo || now <= grants[k].expiresAt
        invariant forall k :: k in old(grants) && now <= old(grants)[k].expiresAt ==> k in grants
        decreases todo
      {
        var k :| k in todo;
        todo := todo - {k};
        if now > grants[k].expiresAt {
          grants := grants - {k};
        }
      }
      assert grants == Unexpired(old(grants), now);
      grants := grants[hash(entropy.value) := Grant(username, sessionHash, now + ttl)];
      return entropy;
    }

    // The grant burns whatever the verdict.
    method Consume(grant: string, username: string, sessionHash: string, now: int) returns (ok: bool)
      modifies this
      ensures ok <==> grant != "" && Admits(old(grants), hash(grant), username, sessionHash, now)
      ensures grants == After(hash, old(grants), Presented(grant, username, sessionHash, now))
    {
      if grant == "" {
        return false;
      }
      var h := hash(grant);
      if h !in grants {
        return false;
      }
      var g := grants[h];
      grants := grants - {h};
      if now > g.expiresAt {
        return false;
      }
      return g.username == username && g.sessionHash == sessionHash;
    }
  }

  // ---- runs ------------------------------------------------------------------------

  datatype Event =
    | Issued(grant: string, username: string, sessionHash: string, ttl: int, time: int)
    | Presented(grant: string, username: string, sessionHash: string, time: int)

  function After(hash: string -> string, m: Ledger, ev: Event): Ledger {
    match ev
    case Issued(g, u, s, ttl, t) =>
      if Issuable(u, s, ttl) then Unexpired(m, t)[hash(g) := Grant(u, s, t + ttl)] else m
    case Presented(g, u, s, t) =>
      if g == "" then m else m - {hash(g)}
  }

  // The ledger after the first k events, in lock order.
  function LedgerAt(hash: string -> string, evs: seq<Event>, k: nat): Ledger
    requires k <= |evs|
  {
    if k == 0 then map[] else After(hash, LedgerAt(hash, evs, k - 1), evs[k - 1])
  }

  predicate Honoured(hash: string -> string, evs: seq<Event>, k: nat)
    requires k < |evs|
  {
    var ev := evs[k];
    ev.Presented? && ev.grant != "" &&
    Admits(LedgerAt(hash, evs, k), hash(ev.grant), ev.username, ev.sessionHash, ev.time)
  }

  // Event ev mints or burns the grant value g.
  predicate Touches(ev: Event, g: string) {
    ev.grant == g && match ev
                     case Issued(_, u, s, ttl, _) => Issuable(u, s, ttl)
                     case Presented(_, _, _, _) => g != ""
  }

  ghost predicate ClockMonotone(evs: seq<Event>) {
    forall i, j :: 0 <= i <= j < |evs| ==> evs[i].time <= evs[j].time
  }

  // Value g was issued at i and neither presented nor issued again before k.
  ghost predicate Outstanding(evs: seq<Event>, i: int, k: int, g: string) {
    && 0 <= i < k <= |evs| && evs[i].Issued? && evs[i].grant == g
    && Issuable(evs[i].username, evs[i].sessionHash, evs[i].ttl)
    && forall j :: i < j < k ==> !Touches(evs[j], g)
  }

  lemma OutstandingExactly(evs: seq<Event>, i: int, k: int, g: string)
    requires g != "" && 0 <= k <= |evs|
    ensures Outstanding(evs, i, k, g) <==>
            && 0 <= i < k && evs[i].Issued? && evs[i].grant == g
            && evs[i].username != "" && evs[i].sessionHash != "" && evs[i].ttl > 0
            && forall j :: i < j < k && evs[j].grant == g ==>
                 evs[j].Issued? && (evs[j].username == "" || evs[j].sessionHash == "" || evs[j].ttl <= 0)
  {
  }

  function GrantOf(ev: Event): Grant
    requires ev.Issued?
  {
    Grant(ev.username, ev.sessionHash, ev.time + ev.ttl)
  }

  // Whatever the ledger holds for g is the outstanding issue of g.
  lemma {:induction false} HeldIsOutstanding(hash: string -> string, evs: seq<Event>, k: nat, g: string)
    requires Injective(hash) && k <= |evs| && hash(g) in LedgerAt(hash, evs, k)
    ensures exists i :: Outstanding(evs, i, k, g) && LedgerAt(hash, evs, k)[hash(g)] == GrantOf(evs[i])
  {
    var m, ev := LedgerAt(hash, evs, k - 1), evs[k - 1];
    if ev.Issued? && ev.grant == g && Touches(ev, g) {
      assert Outstanding(evs, k - 1, k, g);
    } else {
      assert hash(g) in m && LedgerAt(hash, evs, k)[hash(g)] == m[hash(g)];
      HeldIsOutstanding(hash, evs, k - 1, g);
      var i :| Outstanding(evs, i, k - 1, g) && m[hash(g)] == GrantOf(evs[i]);
      assert Outstanding(evs, i, k, g);
    }
  }

  // An outstanding grant that has not expired is never swept away.
  lemma {:induction false} OutstandingIsHeld(hash: string -> string, evs: seq<Event>, i: nat, k: nat, g: string)
    requires Injective(hash) && Outstanding(evs, i, k, g)
    requires forall j :: i < j < k ==> evs[j].time <= evs[i].time + evs[i].ttl
    ensures hash(g) in LedgerAt(hash, evs, k) && LedgerAt(hash, evs, k)[hash(g)] == GrantOf(evs[i])
  {
    if k > i + 1 {
      assert Outstanding(evs, i, k - 1, g);
      OutstandingIsHeld(hash, evs, i, k - 1, g);
      assert !Touches(evs[k - 1], g);
    }
  }

  /** A presentation is honoured exactly when the value was issued earlier to the same
      user and session, has not expired, and was neither presented nor issued again in
      between. */
  lemma HonouredExactlyOnce(hash: string -> string, evs: seq<Event>, k: nat)
    requires Injective(hash) && ClockMonotone(evs) && k < |evs| && evs[k].Presented? && evs[k].grant != ""
    ensures Honoured(hash, evs, k) <==>
              exists i :: 0 <= i < k && evs[i].Issued? && evs[i].grant == evs[k].grant &&
                          evs[i].username != "" && evs[i].sessionHash != "" && evs[i].ttl > 0 &&
                          (forall j :: i < j < k && evs[j].grant == evs[k].grant ==>
                             evs[j].Issued? &&
                             (evs[j].username == "" || evs[j].sessionHash == "" || evs[j].ttl <= 0)) &&
                          evs[i].username == evs[k].username && evs[i].sessionHash == evs[k].sessionHash &&
                          evs[k].time <= evs[i].time + evs[i].ttl
  {
    forall i ensures Outstanding(evs, i, k, evs[k].grant) <==>
                     0 <= i < k && evs[i].Issued? && evs[i].grant == evs[k].grant &&
                     evs[i].username != "" && evs[i].sessionHash != "" && evs[i].ttl > 0 &&
                     (forall j :: i < j < k && evs[j].grant == evs[k].grant ==>
                        evs[j].Issued? && (evs[j].username == "" || evs[j].sessionHash == "" || evs[j].ttl <= 0)) {
      OutstandingExactly(evs, i, k, evs[k].grant);
    }
    var ev := evs[k];
    if Honoured(hash, evs, k) {
      HeldIsOutstanding(hash, evs, k, ev.grant);
    }
    if i :| Outstanding(evs, i, k, ev.grant) && evs[i].username == ev.username &&
            evs[i].sessionHash == ev.sessionHash && ev.time <= evs[i].time + evs[i].ttl {
      OutstandingIsHeld(hash, evs, i, k, ev.grant);
    }
  }

  /** Between two honoured presentations of one value there is always a new issue of it. */
  lemma SingleUse(hash: string -> string, evs: seq<Event>, j: nat, k: nat)
    requires Injective(hash) && ClockMonotone(evs) && j < k < |evs|
    requires Honoured(hash, evs, j) && Honoured(hash, evs, k) && evs[j].grant == evs[k].grant
    ensures exists i :: j < i < k && evs[i].Issued? && evs[i].grant == evs[k].grant
  {
    HeldIsOutstanding(hash, evs, k, evs[k].grant);
    var i :| Outstanding(evs, i, k, evs[k].grant);
    assert Touches(evs[j], evs[k].grant);
  }
}
