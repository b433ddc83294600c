/** The authentication ConfigManager (internal/auth/configmanager.go): section rows, the
    live snapshot, write-only secrets and the drain of replaced LDAP providers. */
module AuthConfig {
  import opened Text

  datatype Section = Ldap | Oidc | Saml

  // Everything of a section except its secret; `encrypted` is SAML's
  // useEncryptedAssertion, `rest` the fields that play no part here.
  datatype Fields = Fields(enabled: bool, encrypted: bool, rest: string)

  datatype Config = Config(fields: Fields, secret: string)

  // A secret field as submitted.
  datatype SecretField = Absent | Null | NotText | Text(value: string)

  // LDAP's `search` object, the parent of its secret field; null reads as an empty object.
  datatype Part = Missing | Malformed | Present

  // A submitted document; fields is None when a field is unknown or of the wrong type.
  datatype Body = NotAnObject | Body(search: Part, secret: SecretField, fields: Option<Fields>)

  // A stored row; doc is None when it cannot be decoded.
  datatype Row = Row(doc: Option<Config>, updatedAt: string, updatedBy: string)

  type Rows = map<Section, Row>

  // The reserved row of the SAML service-provider key pair.
  datatype SpKey = NoRow | Garbled | SpDoc(certificate: string, sealed: string)

  // A constructed LDAP provider: an identity and the section it serves.
  datatype Provider = Provider(id: nat, config: Config)

  datatype Snapshot = Snapshot(sections: map<Section, Config>, ldapProv: Option<Provider>, oidcProv: Option<Config>)

  // closing lists the ids of the LDAP providers whose close was scheduled, in order.
  datatype State = State(rows: Rows, spKey: SpKey, snap: Snapshot, nextId: nat, closing: seq<nat>)

  datatype Cipher = Cipher(encrypt: (string, int) -> string, decrypt: string -> Option<string>)

  // The manager's fixed surroundings: the master key's cipher when there is one, section
  // validation, the seed test and certificate parsing.
  datatype Env = Env(cipher: Option<Cipher>, valid: (Section, Config) -> bool,
                     configured: (Section, Body) -> bool, certificateParses: string -> bool)

  // One call's surroundings: store faults, the nonce drawn (None when the source of
  // randomness fails), the clock, the actor, and what building a provider answers.
  datatype World = World(readFault: bool, rereadFault: bool, putFault: bool, spReadFault: bool, spPutFault: bool,
                         nonce: Option<int>, now: string, actor: string,
                         ldapBuilds: bool, discovery: bool, spPair: Option<(string, string)>)

  datatype Refusal = StoreFault | BadBody | MaskRefused | NoMasterKey | CipherFault |
                     InvalidSection | Unreadable | ProviderFault

  const MASK := "********************"

  const SECTIONS := [Ldap, Oidc, Saml]

  function Rank(s: Section): (r: nat)
    ensures r < |SECTIONS| && SECTIONS[r] == s
  {
    match s
    case Ldap => 0
    case Oidc => 1
    case Saml => 2
  }

  // ---- secrets ------------------------------------------------------------------------------

  // Sealing x under nonce n gives a non-empty text that opens to x.
  predicate OpensAgain(c: Cipher, x: string, n: int) {
    c.encrypt(x, n) != "" && c.decrypt(c.encrypt(x, n)) == Some(x)
  }

  ghost predicate Lawful(env: Env) {
    env.cipher.Some? ==> forall x, n :: OpensAgain(env.cipher.value, x, n)
  }

  function Seal(env: Env, plain: string, w: World): Result<string, Refusal> {
    if env.cipher.None? then Err(NoMasterKey)
    else if w.nonce.None? then Err(CipherFault)
    else Ok(env.cipher.value.encrypt(plain, w.nonce.value))
  }

  // The sealed secret to store for a submitted field over the sealed one stored now.
  function Effective(env: Env, stored: string, field: SecretField, w: World): Result<string, Refusal> {
    match field
    case Absent => Ok(stored)
    case Null => Ok(stored)
    case NotText => Err(BadBody)
    case Text(plain) =>
      if plain == MASK then Err(MaskRefused)
      else if plain == "" then Ok("")
      else Seal(env, plain, w)
  }

  function StoredSecret(rows: Rows, s: Section): string {
    if s in rows && rows[s].doc.Some? then rows[s].doc.value.secret else ""
  }

  function WithSecret(body: Body, secret: string): Option<Config> {
    if body.NotAnObject? || body.fields.None? then None else Some(Config(body.fields.value, secret))
  }

  // The candidate document; None when it does not decode.
  function MergeSecrets(env: Env, rows: Rows, s: Section, body: Body, w: World): Result<Option<Config>, Refusal> {
    if s == Saml then Ok(WithSecret(body, ""))
    else if body.NotAnObject? then Err(BadBody)
    else if s == Ldap && body.search == Missing then Ok(WithSecret(body, ""))
    else if s == Ldap && body.search == Malformed then Err(BadBody)
    else if w.rereadFault then Err(StoreFault)
    else
      match Effective(env, StoredSecret(rows, s), body.secret, w)
      case Err(e) => Err(e)
      case Ok(secret) => Ok(WithSecret(body, secret))
  }

  // A stored document with its secret unsealed.
  function Opened(env: Env, s: Section, c: Config): Option<Config> {
    if s == Saml || c.secret == "" then Some(c)
    else if env.cipher.None? then None
    else
      match env.cipher.value.decrypt(c.secret)
      case None => None
      case Some(plain) => Some(c.(secret := plain))
  }

  function OpenedRow(env: Env, s: Section, row: Row): Option<Config> {
    if row.doc.None? then None else Opened(env, s, row.doc.value)
  }

  // ---- snapshots ------------------------------------------------------------------------------

  predicate On(sections: map<Section, Config>, s: Section) {
    s in sections && sections[s].fields.enabled
  }

  function LdapProviderFor(sections: map<Section, Config>, id: nat): Option<Provider> {
    if On(sections, Ldap) then Some(Provider(id, sections[Ldap])) else None
  }

  function OidcProviderFor(sections: map<Section, Config>): Option<Config> {
    if On(sections, Oidc) then Some(sections[Oidc]) else None
  }

  predicate AllOpen(env: Env, rows: Rows) {
    forall s :: s in rows ==> OpenedRow(env, s, rows[s]).Some?
  }

  function OpenedSections(env: Env, rows: Rows): map<Section, Config>
    requires AllOpen(env, rows)
  {
    map s | s in rows :: OpenedRow(env, s, rows[s]).value
  }

  // The snapshot rebuilt from every stored row, its LDAP provider numbered id.
  function Rebuilt(env: Env, rows: Rows, w: World, id: nat): Result<Snapshot, Refusal> {
    if w.readFault then Err(StoreFault)
    else if !AllOpen(env, rows) then Err(Unreadable)
    else
      var sections := OpenedSections(env, rows);
      if On(sections, Ldap) && !w.ldapBuilds then Err(ProviderFault)
      else if On(sections, Oidc) && !w.discovery then Err(ProviderFault)
      else Ok(Snapshot(sections, LdapProviderFor(sections, id), OidcProviderFor(sections)))
  }

  function Installed(snap: Snapshot): seq<nat> {
    if snap.ldapProv.Some? then [snap.ldapProv.value.id] else []
  }

  // swapSnapshot: the replaced LDAP provider is scheduled for close unless it stays.
  function Swapped(st: State, next: Snapshot): State {
    st.(snap := next,
        closing := if Installed(st.snap) == Installed(next) then st.closing else st.closing + Installed(st.snap))
  }

  // ---- PUT ------------------------------------------------------------------------------------

  // The key pair an encrypted-assertion save needs: reused when complete, else minted.
  function EnsureSpKey(env: Env, key: SpKey, w: World): Result<SpKey, Refusal> {
    if w.spReadFault then Err(StoreFault)
    else if key.Garbled? then Err(Unreadable)
    else if key.SpDoc? && key.certificate != "" && key.sealed != "" then Ok(key)
    else if w.spPair.None? then Err(CipherFault)
    else
      match Seal(env, w.spPair.value.0, w)
      case Err(e) => Err(e)
      case Ok(sealed) => if w.spPutFault then Err(StoreFault) else Ok(SpDoc(w.spPair.value.1, sealed))
  }

  // The verified candidate: the state before the row lands, and the snapshot to install.
  function Candidate(env: Env, st: State, s: Section, open: Config, w: World): Result<(State, Snapshot), Refusal> {
    var sections := st.snap.sections[s := open];
    match s
    case Ldap =>
      if open.fields.enabled && !w.ldapBuilds then Err(ProviderFault)
      else Ok((st.(nextId := st.nextId + 1),
               st.snap.(sections := sections, ldapProv := LdapProviderFor(sections, st.nextId))))
    case Oidc =>
      if open.fields.enabled && !w.discovery then Err(ProviderFault)
      else Ok((st, st.snap.(sections := sections, oidcProv := OidcProviderFor(sections))))
    case Saml =>
      if open.fields.encrypted then
        match EnsureSpKey(env, st.spKey, w)
        case Err(e) => Err(e)
        case Ok(key) => Ok((st.(spKey := key), st.snap.(sections := sections)))
      else Ok((st, st.snap.(sections := sections)))
  }

  // The stored and unsealed forms of an acceptable submission.
  function Verified(env: Env, rows: Rows, s: Section, body: Body, w: World): Result<(Config, Config), Refusal> {
    match MergeSecrets(env, rows, s, body, w)
    case Err(e) => Err(e)
    case Ok(merged) =>
      if merged.None? || !env.valid(s, merged.value) then Err(InvalidSection)
      else if Opened(env, s, merged.value).None? then Err(Unreadable)
      else Ok((merged.value, Opened(env, s, merged.value).value))
  }

  // Persist the row, then install the snapshot.
  function Landed(st: State, s: Section, stored: Config, next: Snapshot, w: World): (State, Option<Refusal>) {
    if w.putFault then (st, Some(StoreFault))
    else (Swapped(st.(rows := st.rows[s := Row(Some(stored), w.now, w.actor)]), next), None)
  }

  function PutStep(env: Env, st: State, s: Section, body: Body, w: World): (State, Option<Refusal>) {
    if w.readFault then (st, Some(StoreFault))
    else
      match Verified(env, st.rows, s, body, w)
      case Err(e) => (st, Some(e))
      case Ok((stored, open)) =>
        match Candidate(env, st, s, open, w)
        case Err(e) => (st, Some(e))
        case Ok((st1, next)) => Landed(st1, s, stored, next, w)
  }

  // ---- boot -----------------------------------------------------------------------------------

  function SeedRow(env: Env, rows: Rows, s: Section, body: Body, w: World): Result<Row, Refusal> {
    match MergeSecrets(env, rows, s, body, w)
    case Err(e) => Err(e)
    case Ok(merged) =>
      if merged.None? || !env.valid(s, merged.value) then Err(InvalidSection)
      else if w.putFault then Err(StoreFault)
      else Ok(Row(merged, w.now, "system-seed"))
  }

  predicate NeedsSeed(env: Env, rows: Rows, s: Section, seeds: map<Section, Body>) {
    s !in rows && s in seeds && env.configured(s, seeds[s])
  }

  // First-boot seeding of the given sections, in order, up to the first refusal.
  function Seeded(env: Env, rows: Rows, sections: seq<Section>, seeds: map<Section, Body>, ws: Section -> World)
    : (Rows, Option<Refusal>)
    decreases |sections|
  {
    if sections == [] then (rows, None)
    else
      var s := sections[0];
      if !NeedsSeed(env, rows, s, seeds) then Seeded(env, rows, sections[1..], seeds, ws)
      else
        match SeedRow(env, rows, s, seeds[s], ws(s))
        case Err(e) => (rows, Some(e))
        case Ok(row) => Seeded(env, rows[s := row], sections[1..], seeds, ws)
  }

  // verifySAMLSPKeyAtBoot
  function SpKeyAtBoot(env: Env, key: SpKey, w: World): Option<Refusal> {
    if w.spReadFault then Some(StoreFault)
    else
      match key
      case NoRow => None
      case Garbled => Some(Unreadable)
      case SpDoc(certificate, sealed) =>
        if certificate == "" && sealed == "" then None
        else if !env.certificateParses(certificate) || env.cipher.None? || env.cipher.value.decrypt(sealed).None?
        then Some(Unreadable)
        else None
  }

  // The boot once seeding has given its rows and verdict.
  function BootStep(env: Env, st: State, seeded: (Rows, Option<Refusal>), w: World): (State, Option<Refusal>) {
    var st1 := st.(rows := seeded.0);
    if seeded.1.Some? then (st1, seeded.1)
    else if SpKeyAtBoot(env, st.spKey, w).Some? then (st1, SpKeyAtBoot(env, st.spKey, w))
    else
      match Rebuilt(env, seeded.0, w, st.nextId)
      case Err(e) => (st1, Some(e))
      case Ok(snap) => (Swapped(st1.(nextId := st.nextId + 1), snap), None)
  }

  // ws gives the surroundings of each section's read and seed, w those of the rebuild.
  function LoadStep(env: Env, st: State, seeds: map<Section, Body>, ws: Section -> World, w: World)
    : (State, Option<Refusal>) {
    if ws(Ldap).readFault || ws(Oidc).readFault || ws(Saml).readFault then (st, Some(StoreFault))
    else BootStep(env, st, Seeded(env, st.rows, SECTIONS, seeds, ws), w)
  }

  class ConfigManager {
    const env: Env
    var rows: Rows
    var spKey: SpKey
    var snap: Snapshot
    var nextId: nat
    var closing: seq<nat>

    ghost function Now(): State
      reads this
    {
      State(rows, spKey, snap, nextId, closing)
    }

    constructor (env: Env, rows: Rows, spKey: SpKey)
      ensures this.env == env
      ensures Now() == State(rows, spKey, Snapshot(map[], None, None), 0, [])
    {
      this.env, this.rows, this.spKey := env, rows, spKey;
      snap, nextId, closing := Snapshot(map[], None, None), 0, [];
    }

    method SwapSnapshot(next: Snapshot)
      modifies this`snap, this`closing
      ensures Now() == Swapped(old(Now()), next)
    {
      var previous := snap;
      snap := next;
      if previous.ldapProv.None? {
        return;
      }
      if next.ldapProv.Some? && previous.ldapProv.value.id == next.ldapProv.value.id {
        return;
      }
      closing := closing + [previous.ldapProv.value.id];
    }

    method RebuildSnapshot(w: World) returns (result: Result<Snapshot, Refusal>)
      modifies this`nextId
      ensures result == Rebuilt(env, rows, w, old(nextId)) && nextId == old(nextId) + 1
    {
      var id := nextId;
      nextId := nextId + 1;
      if w.readFault {
        return Err(StoreFault);
      }
      var sections: map<Section, Config> := map[];
      for i := 0 to |SECTIONS|
        invariant forall s :: s in sections <==> s in rows && Rank(s) < i
        invariant forall s :: s in sections ==> OpenedRow(env, s, rows[s]) == Some(sections[s])
      {
        var s := SECTIONS[i];
        if s in rows {
          var open := OpenedRow(env, s, rows[s]);
          if open.None? {
            return Err(Unreadable);
          }
          sections := sections[s := open.value];
        }
      }
      assert sections == OpenedSections(env, rows);
      var ldapProv, oidcProv := None, None;
      if Ldap in sections && sections[Ldap].fields.enabled {
        if !w.ldapBuilds {
          return Err(ProviderFault);
        }
        ldapProv := Some(Provider(id, sections[Ldap]));
      }
      if Oidc in sections && sections[Oidc].fields.enabled {
        if !w.discovery {
          return Err(ProviderFault);
        }
        oidcProv := Some(sections[Oidc]);
      }
      return Ok(Snapshot(sections, ldapProv, oidcProv));
    }

    method PutAuthSection(s: Section, body: Body, w: World) returns (refusal: Option<Refusal>)
      modifies this
      ensures (Now(), refusal) == PutStep(env, old(Now()), s, body, w)
    {
      if w.readFault {
        return Some(StoreFault);
      }
      var verified := Verified(env, rows, s, body, w);
      if verified.Err? {
        return Some(verified.error);
      }
      var stored, open := verified.value.0, verified.value.1;
      var next := snap.(sections := snap.sections[s := open]);
      match s {
        case Ldap =>
          next := next.(ldapProv := None);
          if open.fields.enabled {
            if !w.ldapBuilds {
              return Some(ProviderFault);
            }
            next := next.(ldapProv := Some(Provider(nextId, open)));
          }
          nextId := nextId + 1;
        case Oidc =>
          next := next.(oidcProv := None);
          if open.fields.enabled {
            if !w.discovery {
              return Some(ProviderFault);
            }
            next := next.(oidcProv := Some(open));
          }
        case Saml =>
          if open.fields.encrypted {
            var key := EnsureSpKey(env, spKey, w);
            if key.Err? {
              return Some(key.error);
            }
            spKey := key.value;
          }
      }
      if w.putFault {
        return Some(StoreFault);
      }
      rows := rows[s := Row(Some(stored), w.now, w.actor)];
      SwapSnapshot(next);
      return None;
    }

    method Load(seeds: map<Section, Body>, ws: Section -> World, w: World) returns (refusal: Option<Refusal>)
      modifies this
      ensures refusal == LoadStep(env, old(Now()), seeds, ws, w).1
      ensures refusal.None? ==> Now() == LoadStep(env, old(Now()), seeds, ws, w).0
      ensures refusal.Some? ==> rows == LoadStep(env, old(Now()), seeds, ws, w).0.rows
      ensures refusal.Some? ==> snap == old(snap) && closing == old(closing) && spKey == old(spKey)
    {
      for i := 0 to |SECTIONS|
        invariant forall j :: 0 <= j < i ==> !ws(SECTIONS[j]).readFault
      {
        if ws(SECTIONS[i]).readFault {
          return Some(StoreFault);
        }
      }
      assert !ws(SECTIONS[0]).readFault && !ws(SECTIONS[1]).readFault && !ws(SECTIONS[2]).readFault;
      for i := 0 to |SECTIONS|
        invariant Seeded(env, rows, SECTIONS[i..], seeds, ws) == Seeded(env, old(rows), SECTIONS, seeds, ws)
        invariant spKey == old(spKey) && snap == old(snap) && nextId == old(nextId) && closing == old(closing)
      {
        var s := SECTIONS[i];
        DropDrop(SECTIONS, i, 1);
        if NeedsSeed(env, rows, s, seeds) {
          var row := SeedRow(env, rows, s, seeds[s], ws(s));
          if row.Err? {
            return Some(row.error);
          }
          rows := rows[s := row.value];
        }
      }
      var spRefusal := SpKeyAtBoot(env, spKey, w);
      if spRefusal.Some? {
        return spRefusal;
      }
      var next := RebuildSnapshot(w);
      if next.Err? {
        return Some(next.error);
      }
      SwapSnapshot(next.value);
      return None;
    }
  }

  // ---- the snapshot is the rebuild ----------------------------------------------------------------

  // The live snapshot agrees with the stored rows, and its providers with its sections.
  ghost predicate Live(env: Env, st: State) {
    && AllOpen(env, st.rows) && st.snap.sections == OpenedSections(env, st.rows)
    && st.snap.ldapProv ==
       LdapProviderFor(st.snap.sections, if st.snap.ldapProv.Some? then st.snap.ldapProv.value.id else 0)
    && st.snap.oidcProv == OidcProviderFor(st.snap.sections)
  }

  // Snapshots that differ at most in which LDAP provider object serves the section.
  ghost predicate Alike(a: Snapshot, b: Snapshot) {
    && a.sections == b.sections && a.oidcProv == b.oidcProv && a.ldapProv.Some? == b.ldapProv.Some?
    && (a.ldapProv.Some? ==> a.ldapProv.value.config == b.ldapProv.value.config)
  }

  /** A state is live exactly when rebuilding from its rows, with providers that build,
      gives its snapshot. */
  lemma LiveIsRebuilt(env: Env, st: State, w: World, id: nat)
    requires !w.readFault && w.ldapBuilds && w.discovery
    ensures Live(env, st) <==> Rebuilt(env, st.rows, w, id).Ok? && Alike(Rebuilt(env, st.rows, w, id).value, st.snap)
  {
  }

  // Writing one row replaces one section of the rebuild.
  lemma RowReplacesSection(env: Env, rows: Rows, s: Section, row: Row, open: Config)
    requires AllOpen(env, rows) && OpenedRow(env, s, row) == Some(open)
    ensures AllOpen(env, rows[s := row])
    ensures OpenedSections(env, rows[s := row]) == OpenedSections(env, rows)[s := open]
  {
  }

  // A verified candidate is a live snapshot of the rows it is about to join.
  lemma CandidateFits(env: Env, st: State, s: Section, open: Config, w: World)
    requires Live(env, st) && Candidate(env, st, s, open, w).Ok?
    ensures var (st1, next) := Candidate(env, st, s, open, w).value;
            && st1.rows == st.rows && next.sections == st.snap.sections[s := open]
            && next.ldapProv ==
               LdapProviderFor(next.sections, if next.ldapProv.Some? then next.ldapProv.value.id else 0)
            && next.oidcProv == OidcProviderFor(next.sections)
  {
  }

  lemma PutKeepsLive(env: Env, st: State, s: Section, body: Body, w: World)
    requires Live(env, st)
    ensures Live(env, PutStep(env, st, s, body, w).0)
  {
    if PutStep(env, st, s, body, w).1.None? {
      var (stored, open) := Verified(env, st.rows, s, body, w).value;
      CandidateFits(env, st, s, open, w);
      RowReplacesSection(env, st.rows, s, Row(Some(stored), w.now, w.actor), open);
    } else {
      RefusedPutChangesNothing(env, st, s, body, w);
    }
  }

  /** A refused PUT leaves every section row, the snapshot and the close list as they
      were; only the service-provider key pair may have been minted, and only when the
      section row itself could not be written. */
  lemma RefusedPutChangesNothing(env: Env, st: State, s: Section, body: Body, w: World)
    requires PutStep(env, st, s, body, w).1.Some?
    ensures var st' := PutStep(env, st, s, body, w).0;
            && st'.rows == st.rows && st'.snap == st.snap && st'.closing == st.closing
            && (st'.spKey != st.spKey ==> s == Saml && w.putFault && PutStep(env, st, s, body, w).1 == Some(StoreFault))
  {
  }

  // An accepted PUT stored a valid section that opens, under a provider that builds, and
  // that section is what is live from then on; the other sections keep their rows.
  lemma AcceptedPutWasVerified(env: Env, st: State, s: Section, body: Body, w: World)
    requires PutStep(env, st, s, body, w).1.None?
    ensures var st' := PutStep(env, st, s, body, w).0;
            && s in st'.rows && st'.rows[s].doc.Some? && env.valid(s, st'.rows[s].doc.value)
            && s in st'.snap.sections && Opened(env, s, st'.rows[s].doc.value) == Some(st'.snap.sections[s])
            && body.Body? && body.fields == Some(st'.snap.sections[s].fields)
            && (On(st'.snap.sections, s) ==> (s == Ldap ==> w.ldapBuilds) && (s == Oidc ==> w.discovery))
            && (forall other :: other != s ==> (other in st'.rows <==> other in st.rows))
            && (forall other :: other != s && other in st.rows ==> st'.rows[other] == st.rows[other])
  {
  }

  lemma {:induction false} SeedingKeepsRows(env: Env, rows: Rows, sections: seq<Section>,
                                           seeds: map<Section, Body>, ws: Section -> World)
    ensures var rows' := Seeded(env, rows, sections, seeds, ws).0;
            && (forall s :: s in rows ==> s in rows' && rows'[s] == rows[s])
            && (forall s :: s in rows' && s !in rows ==> s in seeds && env.configured(s, seeds[s]))
    decreases |sections|
  {
    if sections != [] {
      var s := sections[0];
      if !NeedsSeed(env, rows, s, seeds) {
        SeedingKeepsRows(env, rows, sections[1..], seeds, ws);
      } else if SeedRow(env, rows, s, seeds[s], ws(s)).Ok? {
        SeedingKeepsRows(env, rows[s := SeedRow(env, rows, s, seeds[s], ws(s)).value], sections[1..], seeds, ws);
      }
    }
  }

  lemma BootGoesLive(env: Env, st: State, seeded: (Rows, Option<Refusal>), w: World)
    ensures var (st', refusal) := BootStep(env, st, seeded, w);
            && st'.rows == seeded.0
            && (refusal.Some? ==> st'.snap == st.snap && st'.closing == st.closing)
            && (refusal.None? ==> Live(env, st'))
  {
  }

  /** A boot never touches a stored row, seeds only configured sections that had none, and
      when it succeeds leaves the live snapshot rebuilt from the rows. */
  lemma LoadGoesLive(env: Env, st: State, seeds: map<Section, Body>, ws: Section -> World, w: World)
    ensures var (st', refusal) := LoadStep(env, st, seeds, ws, w);
            && (forall s :: s in st.rows ==> s in st'.rows && st'.rows[s] == st.rows[s])
            && (forall s :: s in st'.rows && s !in st.rows ==> s in seeds && env.configured(s, seeds[s]))
            && (refusal.Some? ==> st'.snap == st.snap && st'.closing == st.closing)
            && (refusal.None? ==> Live(env, st'))
  {
    var seeded := Seeded(env, st.rows, SECTIONS, seeds, ws);
    SeedingKeepsRows(env, st.rows, SECTIONS, seeds, ws);
    BootGoesLive(env, st, seeded, w);
  }

  // ---- which providers are closed -----------------------------------------------------------------

  // Every provider id was minted, none is scheduled twice, and the installed one not at all.
  ghost predicate Disciplined(st: State) {
    && (forall i :: 0 <= i < |st.closing| ==> st.closing[i] < st.nextId)
    && (forall i, j :: 0 <= i < j < |st.closing| ==> st.closing[i] != st.closing[j])
    && (st.snap.ldapProv.Some? ==> st.snap.ldapProv.value.id < st.nextId && st.snap.ldapProv.value.id !in st.closing)
  }

  lemma SwapDisciplined(st: State, next: Snapshot)
    requires Disciplined(st)
    requires next.ldapProv.Some? ==> next.ldapProv.value.id < st.nextId && next.ldapProv.value.id !in st.closing
    ensures Disciplined(Swapped(st, next))
  {
  }

  // What a step does to the close list: nothing, or one entry for the provider it replaced.
  ghost predicate ClosesReplaced(st: State, st': State) {
    st'.closing == if Installed(st.snap) == Installed(st'.snap) then st.closing else st.closing + Installed(st.snap)
  }

  lemma PutDisciplined(env: Env, st: State, s: Section, body: Body, w: World)
    requires Disciplined(st)
    ensures var st' := PutStep(env, st, s, body, w).0; Disciplined(st') && ClosesReplaced(st, st')
  {
    if PutStep(env, st, s, body, w).1.None? {
      var (stored, open) := Verified(env, st.rows, s, body, w).value;
      var (st1, next) := Candidate(env, st, s, open, w).value;
      var st2 := st1.(rows := st1.rows[s := Row(Some(stored), w.now, w.actor)]);
      assert Disciplined(st2);
      SwapDisciplined(st2, next);
    } else {
      RefusedPutChangesNothing(env, st, s, body, w);
    }
  }

  lemma BootDisciplined(env: Env, st: State, seeded: (Rows, Option<Refusal>), w: World)
    requires Disciplined(st)
    ensures var st' := BootStep(env, st, seeded, w).0; Disciplined(st') && ClosesReplaced(st, st')
  {
    if BootStep(env, st, seeded, w).1.None? {
      var st1 := st.(rows := seeded.0, nextId := st.nextId + 1);
      SwapDisciplined(st1, Rebuilt(env, seeded.0, w, st.nextId).value);
    }
  }

  // ---- runs ---------------------------------------------------------------------------------------

  datatype Put = Put(section: Section, body: Body, w: World)

  // A boot from any rows that succeeds, then PUTs served one after the other.
  ghost predicate IsRun(env: Env, puts: seq<Put>, states: seq<State>) {
    && |states| == |puts| + 1
    && (exists rows, spKey, seeds, ws, w ::
          LoadStep(env, State(rows, spKey, Snapshot(map[], None, None), 0, []), seeds, ws, w) == (states[0], None))
    && forall i :: 0 <= i < |puts| ==>
         states[i + 1] == PutStep(env, states[i], puts[i].section, puts[i].body, puts[i].w).0
  }

  /** In every state of every run the live snapshot is the rebuild of the stored rows and
      the close discipline holds. */
  lemma {:induction false} RunIsLive(env: Env, puts: seq<Put>, states: seq<State>, i: nat)
    requires IsRun(env, puts, states) && i < |states|
    ensures Live(env, states[i]) && Disciplined(states[i])
  {
    if i == 0 {
      var rows, spKey, seeds, ws, w :|
        LoadStep(env, State(rows, spKey, Snapshot(map[], None, None), 0, []), seeds, ws, w) == (states[0], None);
      var boot := State(rows, spKey, Snapshot(map[], None, None), 0, []);
      LoadGoesLive(env, boot, seeds, ws, w);
      BootDisciplined(env, boot, Seeded(env, rows, SECTIONS, seeds, ws), w);
    } else {
      RunIsLive(env, puts, states, i - 1);
      PutKeepsLive(env, states[i - 1], puts[i - 1].section, puts[i - 1].body, puts[i - 1].w);
      PutDisciplined(env, states[i - 1], puts[i - 1].section, puts[i - 1].body, puts[i - 1].w);
    }
  }

  function Count(s: seq<nat>, id: nat): nat {
    multiset(s)[id]
  }

  ghost predicate Drains(states: seq<State>) {
    && (forall i :: 0 <= i < |states| ==> Disciplined(states[i]))
    && (forall i, next :: 0 <= i && next == i + 1 < |states| ==> ClosesReplaced(states[i], states[next]))
  }

  lemma RunDrains(env: Env, puts: seq<Put>, states: seq<State>)
    requires IsRun(env, puts, states)
    ensures Drains(states)
  {
    forall i | 0 <= i < |states| ensures Disciplined(states[i]) {
      RunIsLive(env, puts, states, i);
    }
    forall i, next | 0 <= i && next == i + 1 < |states| ensures ClosesReplaced(states[i], states[next]) {
      PutDisciplined(env, states[i], puts[i].section, puts[i].body, puts[i].w);
    }
  }

  // id is installed and not scheduled, or scheduled once.
  ghost predicate Accounted(st: State, id: nat) {
    && (Installed(st.snap) == [id] || id in st.closing)
    && Count(st.closing, id) == if Installed(st.snap) == [id] then 0 else 1
  }

  lemma {:induction false} DrainsOnce(states: seq<State>, i: nat, j: nat, id: nat)
    requires Drains(states) && i <= j < |states| && Installed(states[i].snap) == [id]
    ensures Accounted(states[j], id)
    decreases j
  {
    if i < j {
      DrainsOnce(states, i, j - 1, id);
      StaysAccounted(states[j - 1], states[j], id);
    }
  }

  lemma StaysAccounted(st: State, st': State, id: nat)
    requires Disciplined(st) && Disciplined(st') && ClosesReplaced(st, st') && Accounted(st, id)
    ensures Accounted(st', id)
  {
    if Installed(st.snap) != Installed(st'.snap) {
      assert Count(st'.closing, id) == Count(st.closing, id) + Count(Installed(st.snap), id);
    }
  }

  /** A provider installed at some moment is, at every later one, either still installed
      and not scheduled for close, or scheduled exactly once. */
  lemma ClosedExactlyOnce(env: Env, puts: seq<Put>, states: seq<State>, i: nat, j: nat)
    requires IsRun(env, puts, states) && i <= j < |states| && states[i].snap.ldapProv.Some?
    ensures Accounted(states[j], states[i].snap.ldapProv.value.id)
  {
    RunDrains(env, puts, states);
    DrainsOnce(states, i, j, states[i].snap.ldapProv.value.id);
  }

  // ---- secrets over runs ---------------------------------------------------------------------------

  function LiveSecret(st: State, s: Section): string {
    if s in st.snap.sections then st.snap.sections[s].secret else ""
  }

  // What a submitted field means for a secret.
  function Submitted(field: SecretField, current: string): string {
    match field
    case Absent => current
    case Null => current
    case NotText => current
    case Text(plain) => plain
  }

  // The field the merge looks at: LDAP's is gone with its search object.
  function EffectiveField(s: Section, body: Body): SecretField {
    if body.NotAnObject? || (s == Ldap && body.search != Present) then Text("") else body.secret
  }

  lemma OpenedSecret(env: Env, rows: Rows, s: Section, body: Body, w: World, current: string)
    requires Lawful(env) && s != Saml && Verified(env, rows, s, body, w).Ok?
    requires var stored := StoredSecret(rows, s);
             if stored == "" then current == ""
             else env.cipher.Some? && env.cipher.value.decrypt(stored) == Some(current)
    ensures var field := EffectiveField(s, body);
            && Verified(env, rows, s, body, w).value.1.secret == Submitted(field, current)
            && field != Text(MASK) && field != NotText
  {
    if s == Ldap && body.search == Missing {
      return;
    }
    if body.secret.Text? && body.secret.value != "" {
      assert OpensAgain(env.cipher.value, body.secret.value, w.nonce.value);
    }
  }

  /** After an accepted PUT the unsealed secret in force is what the submission says of
      the one before: absent or null keeps it, the empty string clears it, any other value
      replaces it; the mask placeholder is never accepted. */
  lemma AcceptedPutFoldsSecret(env: Env, st: State, s: Section, body: Body, w: World)
    requires Lawful(env) && Live(env, st) && s != Saml && PutStep(env, st, s, body, w).1.None?
    ensures var st' := PutStep(env, st, s, body, w).0;
            && LiveSecret(st', s) == Submitted(EffectiveField(s, body), LiveSecret(st, s))
            && EffectiveField(s, body) != Text(MASK)
  {
    OpenedSecret(env, st.rows, s, body, w, LiveSecret(st, s));
  }

  /** "Leaving the secret out keeps it" is an OIDC law; for LDAP it holds of an accepted
      PUT exactly when the search object is there to leave it out of, or there was no
      secret to keep. */
  lemma LdapKeepsSecretExactly(env: Env, st: State, body: Body, w: World)
    requires Lawful(env) && Live(env, st) && PutStep(env, st, Ldap, body, w).1.None?
    requires body.Body? && (body.secret.Absent? || body.secret.Null?)
    ensures LiveSecret(PutStep(env, st, Ldap, body, w).0, Ldap) == LiveSecret(st, Ldap) <==>
            body.search == Present || LiveSecret(st, Ldap) == ""
  {
    AcceptedPutFoldsSecret(env, st, Ldap, body, w);
  }

  // A stored, live LDAP section with secret plain, sealed under nonce n.
  function StoredLdap(c: Cipher, fields: Fields, plain: string, n: int): State {
    var live := map[Ldap := Config(fields, plain)];
    State(map[Ldap := Row(Some(Config(fields, c.encrypt(plain, n))), "", "")], NoRow,
          Snapshot(live, LdapProviderFor(live, 0), None), 1, [])
  }

  const QUIET := World(false, false, false, false, false, None, "", "", true, true, None)

  /** Writing the very same fields again, without a search object, is accepted and clears
      the secret. */
  lemma LdapSecretLost(env: Env, fields: Fields, plain: string, n: int)
    requires env.cipher.Some? && OpensAgain(env.cipher.value, plain, n) && plain != ""
    requires env.valid(Ldap, Config(fields, ""))
    ensures var st, body := StoredLdap(env.cipher.value, fields, plain, n), Body(Missing, Absent, Some(fields));
            && Live(env, st) && LiveSecret(st, Ldap) == plain
            && PutStep(env, st, Ldap, body, QUIET).1.None?
            && LiveSecret(PutStep(env, st, Ldap, body, QUIET).0, Ldap) == ""
  {
    var st := StoredLdap(env.cipher.value, fields, plain, n);
    assert OpenedSections(env, st.rows) == st.snap.sections;
  }

  // What one PUT says of the secret of section s; nothing unless it was accepted for s.
  function AcceptedField(env: Env, st: State, put: Put, s: Section): SecretField {
    if put.section == s && PutStep(env, st, s, put.body, put.w).1.None? then EffectiveField(s, put.body) else Absent
  }

  function AcceptedFields(env: Env, puts: seq<Put>, states: seq<State>, s: Section): seq<SecretField>
    requires |states| == |puts| + 1
  {
    seq(|puts|, i requires 0 <= i < |puts| => AcceptedField(env, states[i], puts[i], s))
  }

  // A secret after the given submissions, oldest first.
  function Folded(secret: string, fields: seq<SecretField>): string {
    if fields == [] then secret else Submitted(fields[|fields| - 1], Folded(secret, fields[..|fields| - 1]))
  }

  lemma PutFoldsSecret(env: Env, st: State, s: Section, put: Put)
    requires Lawful(env) && Live(env, st) && s != Saml
    ensures LiveSecret(PutStep(env, st, put.section, put.body, put.w).0, s) ==
            Submitted(AcceptedField(env, st, put, s), LiveSecret(st, s))
    ensures AcceptedField(env, st, put, s) != Text(MASK)
  {
    if put.section == s && PutStep(env, st, s, put.body, put.w).1.None? {
      AcceptedPutFoldsSecret(env, st, s, put.body, put.w);
    } else if PutStep(env, st, put.section, put.body, put.w).1.Some? {
      RefusedPutChangesNothing(env, st, put.section, put.body, put.w);
    }
  }

  // Secrets that each follow from the one before are the folds of the first.
  lemma {:induction false} FoldOfSteps(secrets: seq<string>, fields: seq<SecretField>, n: nat, mask: string)
    requires n <= |fields| && |secrets| == |fields| + 1
    requires forall i, next :: 0 <= i < |fields| && next == i + 1 ==> secrets[next] == Submitted(fields[i], secrets[i])
    requires forall i :: 0 <= i < |fields| ==> fields[i] != Text(mask)
    ensures secrets[n] == Folded(secrets[0], fields[..n])
    ensures secrets[n] == mask ==> secrets[0] == mask
  {
    if n > 0 {
      FoldOfSteps(secrets, fields, n - 1, mask);
      assert fields[..n][..n - 1] == fields[..n - 1];
    }
  }

  /** Over every run, whatever else was written in between, the live secret of a section
      is the fold of its accepted submissions over the secret it booted with; it is the
      mask placeholder only if it booted as that. */
  lemma SecretIsFold(env: Env, puts: seq<Put>, states: seq<State>, s: Section, n: nat)
    requires Lawful(env) && IsRun(env, puts, states) && s != Saml && n <= |puts|
    ensures LiveSecret(states[n], s) == Folded(LiveSecret(states[0], s), AcceptedFields(env, puts, states, s)[..n])
    ensures LiveSecret(states[n], s) == MASK ==> LiveSecret(states[0], s) == MASK
  {
    var fields := AcceptedFields(env, puts, states, s);
    var secrets := seq(|states|, i requires 0 <= i < |states| => LiveSecret(states[i], s));
    forall i, next | 0 <= i < |fields| && next == i + 1
      ensures secrets[next] == Submitted(fields[i], secrets[i]) && fields[i] != Text(MASK)
    {
      RunIsLive(env, puts, states, i);
      PutFoldsSecret(env, states[i], s, puts[i]);
    }
    forall i | 0 <= i < |fields| ensures fields[i] != Text(MASK) {
      assert secrets[i + 1] == Submitted(fields[i], secrets[i]);
    }
    FoldOfSteps(secrets, fields, n, MASK);
  }

  // ---- when a PUT is accepted, and what it leaves -------------------------------------------------

  // The twenty stars a reader is shown in place of a secret.
  predicate IsMask(s: string) {
    |s| == 20 && forall i :: 0 <= i < |s| ==> s[i] == '*'
  }

  // The sealed text a submission calls for: what is stored, for a field left out or null;
  // nothing, for SAML, for LDAP without its search object, or for the empty string; the
  // sealed form of any other text but the mask.
  ghost predicate SealedFor(env: Env, rows: Rows, s: Section, body: Body, w: World, sealed: string)
    requires body.Body?
  {
    if s == Saml || (s == Ldap && body.search == Missing) then sealed == ""
    else
      && (s == Ldap ==> body.search == Present) && !w.rereadFault
      && match body.secret
         case Absent => sealed == if s in rows && rows[s].doc.Some? then rows[s].doc.value.secret else ""
         case Null => sealed == if s in rows && rows[s].doc.Some? then rows[s].doc.value.secret else ""
         case NotText => false
         case Text(p) =>
           && !IsMask(p)
           && if p == "" then sealed == ""
              else env.cipher.Some? && w.nonce.Some? && sealed == env.cipher.value.encrypt(p, w.nonce.value)
  }

  // live is what the sealed text of a section opens to.
  ghost predicate OpensTo(env: Env, s: Section, sealed: string, live: string) {
    if s == Saml || sealed == "" then live == sealed
    else env.cipher.Some? && env.cipher.value.decrypt(sealed) == Some(live)
  }

  // The key pair is complete, or can be minted, sealed and stored.
  ghost predicate PairReady(env: Env, key: SpKey, w: World) {
    && !w.spReadFault && !key.Garbled?
    && (Complete(key) || (w.spPair.Some? && env.cipher.Some? && w.nonce.Some? && !w.spPutFault))
  }

  predicate Complete(key: SpKey) {
    key.SpDoc? && key.certificate != "" && key.sealed != ""
  }

  lemma MaskExactly(p: string)
    ensures p == MASK <==> IsMask(p)
  {
    assert forall i :: 0 <= i < |MASK| ==> MASK[i] == '*';
  }

  lemma MergeExactly(env: Env, rows: Rows, s: Section, body: Body, w: World, c: Config)
    ensures MergeSecrets(env, rows, s, body, w) == Ok(Some(c)) <==>
            body.Body? && body.fields == Some(c.fields) && SealedFor(env, rows, s, body, w, c.secret)
  {
    if body.Body? && body.secret.Text? {
      MaskExactly(body.secret.value);
    }
  }

  lemma OpenExactly(env: Env, s: Section, c: Config, live: Config)
    ensures Opened(env, s, c) == Some(live) <==> live.fields == c.fields && OpensTo(env, s, c.secret, live.secret)
  {
  }

  lemma PairExactly(env: Env, key: SpKey, w: World)
    ensures EnsureSpKey(env, key, w).Ok? <==> PairReady(env, key, w)
    ensures EnsureSpKey(env, key, w).Ok? ==>
              EnsureSpKey(env, key, w).value ==
              if Complete(key) then key
              else SpDoc(w.spPair.value.1, env.cipher.value.encrypt(w.spPair.value.0, w.nonce.value))
  {
  }

  // What the candidate needs beside its document.
  ghost predicate Serviceable(env: Env, st: State, s: Section, fields: Fields, w: World) {
    && (s == Ldap && fields.enabled ==> w.ldapBuilds)
    && (s == Oidc && fields.enabled ==> w.discovery)
    && (s == Saml && fields.encrypted ==> PairReady(env, st.spKey, w))
  }

  lemma CandidateExactly(env: Env, st: State, s: Section, open: Config, w: World)
    ensures Candidate(env, st, s, open, w).Ok? <==> Serviceable(env, st, s, open.fields, w)
  {
    PairExactly(env, st.spKey, w);
  }

  /** A PUT is accepted exactly when the reads succeed; the body is an object with known
      fields; its secret is one that can be stored; the section so composed is valid and
      opens; its provider builds, or its key pair is ready, where it needs one; and the row
      can be written. */
  lemma PutAcceptedExactly(env: Env, st: State, s: Section, body: Body, w: World)
    ensures PutStep(env, st, s, body, w).1.None? <==>
            && !w.readFault && !w.putFault && body.Body? && body.fields.Some?
            && (exists sealed, live ::
                  && SealedFor(env, st.rows, s, body, w, sealed) && OpensTo(env, s, sealed, live)
                  && env.valid(s, Config(body.fields.value, sealed)))
            && Serviceable(env, st, s, body.fields.value, w)
  {
    if Verified(env, st.rows, s, body, w).Ok? {
      var (stored, open) := Verified(env, st.rows, s, body, w).value;
      MergeExactly(env, st.rows, s, body, w, stored);
      OpenExactly(env, s, stored, open);
      CandidateExactly(env, st, s, open, w);
    }
    if body.Body? && body.fields.Some? {
      if sealed, live :| SealedFor(env, st.rows, s, body, w, sealed) && OpensTo(env, s, sealed, live) &&
                         env.valid(s, Config(body.fields.value, sealed)) {
        var stored, open := Config(body.fields.value, sealed), Config(body.fields.value, live);
        MergeExactly(env, st.rows, s, body, w, stored);
        OpenExactly(env, s, stored, open);
        CandidateExactly(env, st, s, open, w);
      }
    }
  }

  /** What an accepted PUT leaves: one row, with the submitted fields and the sealed text
      called for; one live section, with the same fields and what that opens to; an LDAP
      provider for it exactly when it is LDAP and enabled, an OIDC one likewise, the others
      untouched; and the key pair, minted only where SAML encrypts and had none. */
  lemma PutLeaves(env: Env, st: State, s: Section, body: Body, w: World, sealed: string, live: string)
    requires PutStep(env, st, s, body, w).1.None?
    requires body.Body? && body.fields.Some? && SealedFor(env, st.rows, s, body, w, sealed)
    requires OpensTo(env, s, sealed, live)
    ensures var st' := PutStep(env, st, s, body, w).0;
            var section := Config(body.fields.value, live);
            && st'.rows == st.rows[s := Row(Some(Config(body.fields.value, sealed)), w.now, w.actor)]
            && st'.snap.sections == st.snap.sections[s := section]
            && st'.snap.ldapProv ==
               (if s != Ldap then st.snap.ldapProv
                else if section.fields.enabled then Some(Provider(st.nextId, section)) else None)
            && st'.snap.oidcProv ==
               (if s != Oidc then st.snap.oidcProv else if section.fields.enabled then Some(section) else None)
            && st'.spKey ==
               (if s == Saml && section.fields.encrypted && !Complete(st.spKey)
                then SpDoc(w.spPair.value.1, env.cipher.value.encrypt(w.spPair.value.0, w.nonce.value))
                else st.spKey)
  {
    var stored, open := Config(body.fields.value, sealed), Config(body.fields.value, live);
    MergeExactly(env, st.rows, s, body, w, stored);
    OpenExactly(env, s, stored, open);
    PairExactly(env, st.spKey, w);
  }

  /** A new secret takes effect: with a cipher and a nonce, any text but the mask and the
      empty one, on a section that is valid and serviceable, is live after the PUT. */
  lemma NewSecretIsLive(env: Env, st: State, s: Section, body: Body, w: World, p: string)
    requires Lawful(env) && env.cipher.Some? && w.nonce.Some? && s != Saml
    requires !w.readFault && !w.rereadFault && !w.putFault
    requires body.Body? && body.fields.Some? && body.secret == Text(p) && p != "" && !IsMask(p)
    requires s == Ldap ==> body.search == Present
    requires env.valid(s, Config(body.fields.value, env.cipher.value.encrypt(p, w.nonce.value)))
    requires Serviceable(env, st, s, body.fields.value, w)
    ensures PutStep(env, st, s, body, w).1.None? && LiveSecret(PutStep(env, st, s, body, w).0, s) == p
  {
    var sealed := env.cipher.value.encrypt(p, w.nonce.value);
    assert OpensAgain(env.cipher.value, p, w.nonce.value);
    assert SealedFor(env, st.rows, s, body, w, sealed) && OpensTo(env, s, sealed, p);
    PutAcceptedExactly(env, st, s, body, w);
    PutLeaves(env, st, s, body, w, sealed, p);
  }

  /** An accepted SAML PUT that encrypts keeps a complete key pair, and otherwise stores the
      minted certificate beside a sealed half that opens to the minted private key. */
  lemma KeyPairStored(env: Env, st: State, body: Body, w: World)
    requires Lawful(env) && PutStep(env, st, Saml, body, w).1.None?
    requires body.Body? && body.fields.Some? && body.fields.value.encrypted
    ensures var key := PutStep(env, st, Saml, body, w).0.spKey;
            if Complete(st.spKey) then key == st.spKey
            else
              && w.spPair.Some? && env.cipher.Some? && key.SpDoc?
              && key.certificate == w.spPair.value.1
              && env.cipher.value.decrypt(key.sealed) == Some(w.spPair.value.0)
  {
    PutAcceptedExactly(env, st, Saml, body, w);
    PutLeaves(env, st, Saml, body, w, "", "");
    if !Complete(st.spKey) {
      assert OpensAgain(env.cipher.value, w.spPair.value.0, w.nonce.value);
    }
  }

  // ---- what live means ---------------------------------------------------------------------------

  /** A state is live exactly when stored rows and live sections are the same sections, each
      row decodes and its section has its fields and what its secret opens to, and the LDAP
      and the OIDC provider are there exactly when their section is enabled, and serve it. */
  lemma LiveExactly(env: Env, st: State)
    ensures Live(env, st) <==>
            && (forall s :: s in st.rows <==> s in st.snap.sections)
            && (forall s :: s in st.rows && s in st.snap.sections ==>
                  && st.rows[s].doc.Some? && st.snap.sections[s].fields == st.rows[s].doc.value.fields
                  && OpensTo(env, s, st.rows[s].doc.value.secret, st.snap.sections[s].secret))
            && (st.snap.ldapProv.Some? <==> Ldap in st.snap.sections && st.snap.sections[Ldap].fields.enabled)
            && (st.snap.ldapProv.Some? && Ldap in st.snap.sections ==>
                  st.snap.ldapProv.value.config == st.snap.sections[Ldap])
            && st.snap.oidcProv ==
               (if Oidc in st.snap.sections && st.snap.sections[Oidc].fields.enabled
                then Some(st.snap.sections[Oidc]) else None)
  {
    SectionsExactly(env, st.rows, st.snap.sections);
  }

  lemma SectionsExactly(env: Env, rows: Rows, sections: map<Section, Config>)
    ensures AllOpen(env, rows) && sections == OpenedSections(env, rows) <==>
            && (forall s :: s in rows <==> s in sections)
            && (forall s :: s in rows && s in sections ==>
                  && rows[s].doc.Some? && sections[s].fields == rows[s].doc.value.fields
                  && OpensTo(env, s, rows[s].doc.value.secret, sections[s].secret))
  {
    forall s | s in rows && s in sections && rows[s].doc.Some?
      ensures OpenedRow(env, s, rows[s]) == Some(sections[s]) <==>
              sections[s].fields == rows[s].doc.value.fields &&
              OpensTo(env, s, rows[s].doc.value.secret, sections[s].secret)
    {
      OpenExactly(env, s, rows[s].doc.value, sections[s]);
    }
  }

  // ---- when a boot succeeds ------------------------------------------------------------------------

  // A configured section of the file that has no stored row.
  ghost predicate Unstored(env: Env, rows: Rows, s: Section, seeds: map<Section, Body>) {
    s !in rows && s in seeds && env.configured(s, seeds[s])
  }

  // The seed can be stored: an object with known fields, a secret that can be sealed, a
  // valid section, and a store that takes it.
  ghost predicate Storable(env: Env, s: Section, body: Body, w: World) {
    && body.Body? && body.fields.Some? && !w.putFault
    && exists sealed :: SealedFor(env, map[], s, body, w, sealed) && env.valid(s, Config(body.fields.value, sealed))
  }

  ghost predicate SeededAs(env: Env, s: Section, body: Body, w: World, row: Row) {
    && body.Body? && body.fields.Some? && row.doc.Some? && row.doc.value.fields == body.fields.value
    && SealedFor(env, map[], s, body, w, row.doc.value.secret)
    && row.updatedAt == w.now && row.updatedBy == "system-seed"
  }

  lemma SeedRowExactly(env: Env, rows: Rows, s: Section, body: Body, w: World)
    requires s !in rows
    ensures SeedRow(env, rows, s, body, w).Ok? <==> Storable(env, s, body, w)
    ensures SeedRow(env, rows, s, body, w).Ok? ==> SeededAs(env, s, body, w, SeedRow(env, rows, s, body, w).value)
  {
    if body.Body? && body.fields.Some? {
      forall sealed ensures SealedFor(env, map[], s, body, w, sealed) <==> SealedFor(env, rows, s, body, w, sealed) {
      }
      if sealed :| SealedFor(env, map[], s, body, w, sealed) && env.valid(s, Config(body.fields.value, sealed)) {
        MergeExactly(env, rows, s, body, w, Config(body.fields.value, sealed));
      }
    }
    var merged := MergeSecrets(env, rows, s, body, w);
    if merged.Ok? && merged.value.Some? {
      MergeExactly(env, rows, s, body, w, merged.value.value);
    }
  }

  // The rows after seeding: the old ones, and a fresh one for every section in need.
  ghost predicate SeededRows(env: Env, rows: Rows, sections: seq<Section>, seeds: map<Section, Body>,
                             ws: Section -> World, rows': Rows) {
    && (forall s :: s in rows ==> s in rows' && rows'[s] == rows[s])
    && (forall s :: s in rows' && s !in rows ==>
          s in sections && Unstored(env, rows, s, seeds) && SeededAs(env, s, seeds[s], ws(s), rows'[s]))
    && (forall s :: s in sections && Unstored(env, rows, s, seeds) ==> s in rows')
  }

  lemma {:induction false} SeedingExactly(env: Env, rows: Rows, sections: seq<Section>, seeds: map<Section, Body>,
                                          ws: Section -> World)
    requires forall i, j :: 0 <= i < j < |sections| ==> sections[i] != sections[j]
    ensures Seeded(env, rows, sections, seeds, ws).1.None? <==>
            forall s :: s in sections && Unstored(env, rows, s, seeds) ==> Storable(env, s, seeds[s], ws(s))
    ensures Seeded(env, rows, sections, seeds, ws).1.None? ==>
              SeededRows(env, rows, sections, seeds, ws, Seeded(env, rows, sections, seeds, ws).0)
    decreases |sections|
  {
    if sections != [] {
      var s, tail := sections[0], sections[1..];
      assert sections == [s] + tail && s !in tail;
      if !NeedsSeed(env, rows, s, seeds) {
        SeedingExactly(env, rows, tail, seeds, ws);
      } else {
        SeedRowExactly(env, rows, s, seeds[s], ws(s));
        if SeedRow(env, rows, s, seeds[s], ws(s)).Ok? {
          var rows1 := rows[s := SeedRow(env, rows, s, seeds[s], ws(s)).value];
          SeedingExactly(env, rows1, tail, seeds, ws);
          forall x | x in tail ensures Unstored(env, rows1, x, seeds) <==> Unstored(env, rows, x, seeds) {
          }
        }
      }
    }
  }

  // The reserved key pair does not stand in the way of a boot.
  ghost predicate PairBoots(env: Env, key: SpKey, w: World) {
    && !w.spReadFault
    && (key.NoRow? ||
        (key.SpDoc? && key.certificate == "" && key.sealed == "") ||
        (key.SpDoc? && env.certificateParses(key.certificate) &&
         env.cipher.Some? && env.cipher.value.decrypt(key.sealed).Some?))
  }

  // The row decodes, its secret opens, and its provider builds if it is enabled.
  ghost predicate RowBoots(env: Env, s: Section, row: Row, w: World) {
    && row.doc.Some? && (exists live :: OpensTo(env, s, row.doc.value.secret, live))
    && (s == Ldap && row.doc.value.fields.enabled ==> w.ldapBuilds)
    && (s == Oidc && row.doc.value.fields.enabled ==> w.discovery)
  }

  lemma RebuildExactly(env: Env, rows: Rows, w: World, id: nat)
    ensures Rebuilt(env, rows, w, id).Ok? <==> !w.readFault && forall s :: s in rows ==> RowBoots(env, s, rows[s], w)
  {
    forall s | s in rows
      ensures OpenedRow(env, s, rows[s]).Some? <==>
              rows[s].doc.Some? && exists live :: OpensTo(env, s, rows[s].doc.value.secret, live)
      ensures OpenedRow(env, s, rows[s]).Some? ==> OpenedRow(env, s, rows[s]).value.fields == rows[s].doc.value.fields
    {
      RowOpens(env, s, rows[s]);
    }
  }

  lemma RowOpens(env: Env, s: Section, row: Row)
    ensures OpenedRow(env, s, row).Some? <==>
            row.doc.Some? && exists live :: OpensTo(env, s, row.doc.value.secret, live)
    ensures OpenedRow(env, s, row).Some? ==> OpenedRow(env, s, row).value.fields == row.doc.value.fields
  {
    if row.doc.Some? {
      var c := row.doc.value;
      if live :| OpensTo(env, s, c.secret, live) {
        OpenExactly(env, s, c, Config(c.fields, live));
      }
      if Opened(env, s, c).Some? {
        OpenExactly(env, s, c, Opened(env, s, c).value);
      }
    }
  }

  /** A boot succeeds exactly when the reads do, every configured section without a row can
      be stored, the key pair does not stand in the way, and every row, stored or seeded,
      boots. The rows are then the old ones and one for each section seeded. */
  lemma LoadExactly(env: Env, st: State, seeds: map<Section, Body>, ws: Section -> World, w: World)
    ensures var (st', refusal) := LoadStep(env, st, seeds, ws, w);
            && (refusal.None? <==>
                && !ws(Ldap).readFault && !ws(Oidc).readFault && !ws(Saml).readFault
                && (forall s :: Unstored(env, st.rows, s, seeds) ==> Storable(env, s, seeds[s], ws(s)))
                && PairBoots(env, st.spKey, w) && !w.readFault
                && forall s :: s in st'.rows ==> RowBoots(env, s, st'.rows[s], w))
            && (refusal.None? ==> SeededRows(env, st.rows, [Ldap, Oidc, Saml], seeds, ws, st'.rows))
  {
    forall s: Section ensures s in SECTIONS {
      var r := Rank(s);
      assert SECTIONS[r] == s;
    }
    SeedingExactly(env, st.rows, SECTIONS, seeds, ws);
    var seeded := Seeded(env, st.rows, SECTIONS, seeds, ws);
    RebuildExactly(env, seeded.0, w, st.nextId);
    BootExactly(env, st, seeded, w);
  }

  lemma BootExactly(env: Env, st: State, seeded: (Rows, Option<Refusal>), w: World)
    ensures BootStep(env, st, seeded, w).0.rows == seeded.0
    ensures BootStep(env, st, seeded, w).1.None? <==>
            seeded.1.None? && PairBoots(env, st.spKey, w) && Rebuilt(env, seeded.0, w, st.nextId).Ok?
  {
  }
}
