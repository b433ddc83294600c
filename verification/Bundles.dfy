/** The release-bundle service: create, resume and conflict over frozen snapshots
    (internal/bundle/service.go), with the store it writes
    (internal/metadata/substores_bundles.go). */
module Bundles {
  import opened Text
  import opened Ordering
  import opened Manifest
  import Permissions

  datatype State = Complete | InProgress

  // One snapshot row; an empty sha256 marks it pending.
  datatype BundleItem = BundleItem(repo: string, path: string, sha256: string,
                                   size: int, addedAt: string, addedBy: string)

  datatype Bundle = Bundle(state: State, signature: string, createdBy: string, createdAt: string,
                           updatedBy: string, updatedAt: string, items: seq<BundleItem>)

  datatype Key = Key(name: string, version: string)

  type Store = map<Key, Bundle>

  datatype Request = Request(name: string, version: string, items: seq<ManifestItem>)

  // What a node lookup answers when it does not answer "not found".
  datatype Lookup = Node(sha256: string, size: int) | LookupFault

  // The node table; a missing key is "not found".
  datatype Nodes = Unwired | Wired(at: map<Pair, Lookup>)

  // Everything a call meets outside the store: the gates, the clock, the node table while
  // snapshotting and while resuming, and which store calls fail.
  datatype World = World(featureOn: bool, canWrite: bool, actor: string, now: string, nodes: Nodes, later: Nodes,
                         insertFault: bool, getFault: bool, listFault: bool, replaceFault: bool)

  datatype Refusal = FeatureOff | Invalid | Forbidden | Fault | Conflict | Inconsistent

  datatype Outcome =
    | Created(state: State, digest: string, pending: nat)
    | Resumed(state: State, digest: string, pending: nat)
    | Refused(why: Refusal)

  // ---- rows --------------------------------------------------------------------------------

  function RowPairs(rows: seq<BundleItem>): seq<Pair> {
    seq(|rows|, i requires 0 <= i < |rows| => Pair(rows[i].repo, rows[i].path))
  }

  function Pending(rows: seq<BundleItem>): nat {
    if rows == [] then 0 else (if rows[0].sha256 == "" then 1 else 0) + Pending(rows[1..])
  }

  function StateFor(rows: seq<BundleItem>): State {
    if Pending(rows) > 0 then InProgress else Complete
  }

  method StateOf(rows: seq<BundleItem>) returns (state: State, pending: nat)
    ensures state == StateFor(rows) && pending == Pending(rows)
  {
    pending := 0;
    for i := 0 to |rows|
      invariant pending + Pending(rows[i..]) == Pending(rows)
    {
      DropDrop(rows, i, 1);
      if rows[i].sha256 == "" {
        pending := pending + 1;
      }
    }
    state := if pending > 0 then InProgress else Complete;
  }

  // The row minted for a manifest item.
  function SnapshotRow(it: ManifestItem, w: World, equalFold: (string, string) -> bool): Result<BundleItem, Refusal>
    requires it.Item?
  {
    var bare := BundleItem(it.repo, it.path, "", 0, w.now, w.actor);
    var pair := Pair(it.repo, it.path);
    if w.nodes.Unwired? || pair !in w.nodes.at then Ok(bare)
    else
      match w.nodes.at[pair]
      case LookupFault => Err(Fault)
      case Node(sha, size) =>
        if it.sha256 != "" && sha != "" && !equalFold(it.sha256, sha) then Err(Invalid)
        else Ok(bare.(sha256 := sha, size := size))
  }

  // All rows, or the refusal of the first item that has one.
  function SnapshotRows(items: seq<ManifestItem>, w: World, equalFold: (string, string) -> bool)
    : Result<seq<BundleItem>, Refusal>
    requires forall i :: 0 <= i < |items| ==> items[i].Item?
  {
    if items == [] then Ok([])
    else
      match SnapshotRows(items[..|items| - 1], w, equalFold)
      case Err(e) => Err(e)
      case Ok(rows) =>
        match SnapshotRow(items[|items| - 1], w, equalFold)
        case Err(e) => Err(e)
        case Ok(row) => Ok(rows + [row])
  }

  method Snapshot(items: seq<ManifestItem>, w: World, equalFold: (string, string) -> bool)
    returns (result: Result<seq<BundleItem>, Refusal>)
    requires forall i :: 0 <= i < |items| ==> items[i].Item?
    ensures result == SnapshotRows(items, w, equalFold)
  {
    var rows: seq<BundleItem> := [];
    for k := 0 to |items|
      invariant SnapshotRows(items[..k], w, equalFold) == Ok(rows)
    {
      var it := items[k];
      ghost var done := items[..k + 1];
      assert done[..k] == items[..k];
      if SnapshotRow(it, w, equalFold).Err? {
        FirstRefusal(items, k + 1, w, equalFold);
        return Err(SnapshotRow(it, w, equalFold).error);
      }
      rows := rows + [SnapshotRow(it, w, equalFold).value];
    }
    assert items[..|items|] == items;
    return Ok(rows);
  }

  lemma {:induction false} FirstRefusal(items: seq<ManifestItem>, k: nat, w: World, equalFold: (string, string) -> bool)
    requires k <= |items| && forall i :: 0 <= i < |items| ==> items[i].Item?
    requires SnapshotRows(items[..k], w, equalFold).Err?
    ensures SnapshotRows(items, w, equalFold) == SnapshotRows(items[..k], w, equalFold)
  {
    if k < |items| {
      var init := items[..|items| - 1];
      assert init[..k] == items[..k];
      FirstRefusal(init, k, w, equalFold);
    } else {
      assert items[..k] == items;
    }
  }

  // ---- resuming ------------------------------------------------------------------------------

  // A pending row whose artifact has landed takes its snapshot; any other row stays.
  function Refreshed(row: BundleItem, w: World): BundleItem {
    var pair := Pair(row.repo, row.path);
    if row.sha256 != "" || w.later.Unwired? || pair !in w.later.at then row
    else
      match w.later.at[pair]
      case LookupFault => row
      case Node(sha, size) => if sha == "" then row else BundleItem(row.repo, row.path, sha, size, w.now, w.actor)
  }

  function RefreshedRows(rows: seq<BundleItem>, w: World): seq<BundleItem> {
    seq(|rows|, i requires 0 <= i < |rows| => Refreshed(rows[i], w))
  }

  function RowId(row: BundleItem): string {
    Identity(row.repo, row.path)
  }

  // The rows that have landed, by identity.
  method SnapshotPending(stored: seq<BundleItem>, w: World) returns (landed: map<string, BundleItem>)
    ensures forall id :: id in landed ==>
              exists i :: 0 <= i < |stored| && id == RowId(stored[i]) && stored[i].sha256 == "" &&
                          landed[id] == Refreshed(stored[i], w)
    ensures forall i :: 0 <= i < |stored| && Refreshed(stored[i], w) != stored[i] ==> RowId(stored[i]) in landed
  {
    landed := map[];
    if w.later.Unwired? {
      return;
    }
    for k := 0 to |stored|
      invariant forall id :: id in landed ==>
                  exists i :: 0 <= i < k && id == RowId(stored[i]) && stored[i].sha256 == "" &&
                              landed[id] == Refreshed(stored[i], w)
      invariant forall i :: 0 <= i < k && Refreshed(stored[i], w) != stored[i] ==> RowId(stored[i]) in landed
    {
      var row := stored[k];
      if row.sha256 != "" {
        continue;
      }
      var pair := Pair(row.repo, row.path);
      if pair !in w.later.at || w.later.at[pair].LookupFault? || w.later.at[pair].sha256 == "" {
        continue;
      }
      var node := w.later.at[pair];
      landed := landed[RowId(row) := BundleItem(row.repo, row.path, node.sha256, node.size, w.now, w.actor)];
    }
  }

  method MergeSnapshots(stored: seq<BundleItem>, landed: map<string, BundleItem>) returns (out: seq<BundleItem>)
    ensures |out| == |stored|
    ensures forall i :: 0 <= i < |stored| ==>
              out[i] == if RowId(stored[i]) in landed then landed[RowId(stored[i])] else stored[i]
  {
    out := [];
    for k := 0 to |stored|
      invariant |out| == k
      invariant forall i :: 0 <= i < k ==>
                  out[i] == if RowId(stored[i]) in landed then landed[RowId(stored[i])] else stored[i]
    {
      var row := stored[k];
      out := out + [if RowId(row) in landed then landed[RowId(row)] else row];
    }
  }

  // The two loops together refresh row by row, because no identity occurs twice.
  method Resume(stored: seq<BundleItem>, w: World) returns (merged: seq<BundleItem>)
    requires Listing(RowPairs(stored))
    ensures merged == RefreshedRows(stored, w)
  {
    var landed := SnapshotPending(stored, w);
    merged := MergeSnapshots(stored, landed);
    forall i | 0 <= i < |stored| ensures merged[i] == Refreshed(stored[i], w) {
      if RowId(stored[i]) in landed {
        var j :| 0 <= j < |stored| && RowId(stored[i]) == RowId(stored[j]) &&
                 landed[RowId(stored[i])] == Refreshed(stored[j], w);
        SameRow(stored, i, j);
      }
    }
  }

  lemma SameRow(rows: seq<BundleItem>, i: nat, j: nat)
    requires i < |rows| && j < |rows| && RowId(rows[i]) == RowId(rows[j]) && Listing(RowPairs(rows))
    ensures i == j
  {
    var pairs := RowPairs(rows);
    assert ValidRow(pairs[i].repo, pairs[i].path) && ValidRow(pairs[j].repo, pairs[j].path);
    IdentityInjective(pairs[i], pairs[j]);
  }

  // ---- one Create ----------------------------------------------------------------------------

  predicate Admissible(req: Request) {
    ValidName(req.name) && ValidVersion(req.version) && ValidManifest(req.items)
  }

  // ListItems: the segment ordered by (repository, path)
  predicate ByIdentity(a: BundleItem, b: BundleItem) {
    Less(a.repo, b.repo) || (a.repo == b.repo && Less(a.path, b.path))
  }

  function Listed(b: Bundle): seq<BundleItem> {
    Sort(b.items, ByIdentity)
  }

  function ResumedBundle(b: Bundle, w: World): Bundle {
    var merged := RefreshedRows(Listed(b), w);
    b.(state := StateFor(merged), items := merged, updatedBy := w.actor, updatedAt := w.now)
  }

  function NewBundle(rows: seq<BundleItem>, digest: string, w: World): Bundle {
    Bundle(StateFor(rows), digest, w.actor, w.now, w.actor, w.now, rows)
  }

  // The arm for a pair that is already taken.
  function TakenStep(hash: string -> string, b: Bundle, digest: string, w: World): (Bundle, Outcome) {
    if w.getFault then (b, Refused(Fault))
    else if b.signature != digest || b.state == Complete then (b, Refused(Conflict))
    else if w.listFault then (b, Refused(Fault))
    else if Digest(hash, RowPairs(Listed(b))) != digest then (b, Refused(Inconsistent))
    else if w.replaceFault then (b, Refused(Fault))
    else
      var b' := ResumedBundle(b, w);
      (b', Resumed(b'.state, digest, Pending(b'.items)))
  }

  // The store call for snapshotted rows.
  function InsertStep(hash: string -> string, store: Store, key: Key, digest: string, rows: seq<BundleItem>, w: World)
    : (Store, Outcome)
  {
    if w.insertFault then (store, Refused(Fault))
    else if key !in store then
      (store[key := NewBundle(rows, digest, w)], Created(StateFor(rows), digest, Pending(rows)))
    else
      var (b', outcome) := TakenStep(hash, store[key], digest, w);
      (store[key := b'], outcome)
  }

  function CreateStep(hash: string -> string, equalFold: (string, string) -> bool, store: Store, req: Request, w: World)
    : (Store, Outcome)
  {
    if !w.featureOn then (store, Refused(FeatureOff))
    else if !Admissible(req) then (store, Refused(Invalid))
    else if !w.canWrite then (store, Refused(Forbidden))
    else
      var key, digest := Key(req.name, req.version), Digest(hash, PairsOf(req.items));
      match SnapshotRows(req.items, w, equalFold)
      case Err(e) => (store, Refused(e))
      case Ok(rows) => InsertStep(hash, store, key, digest, rows, w)
  }

  class Service {
    const hash: string -> string
    const equalFold: (string, string) -> bool
    var store: Store

    ghost predicate Valid()
      reads this
    {
      StoreSound(hash, store)
    }

    constructor (hash: string -> string, equalFold: (string, string) -> bool)
      ensures Valid() && store == map[] && this.hash == hash && this.equalFold == equalFold
    {
      this.hash := hash;
      this.equalFold := equalFold;
      store := map[];
    }

    method Create(req: Request, w: World) returns (outcome: Outcome)
      requires Valid()
      modifies this
      ensures Valid()
      ensures (store, outcome) == CreateStep(hash, equalFold, old(store), req, w)
    {
      CreateKeeps(hash, equalFold, store, req, w);
      if !w.featureOn {
        return Refused(FeatureOff);
      }
      var ok := CheckManifest(req.items);
      if !ValidName(req.name) || !ValidVersion(req.version) || !ok {
        return Refused(Invalid);
      }
      if !w.canWrite {
        return Refused(Forbidden);
      }
      var digest := ManifestDigest(hash, PairsOf(req.items));
      var snapshot := Snapshot(req.items, w, equalFold);
      if snapshot.Err? {
        return Refused(snapshot.error);
      }
      var rows := snapshot.value;
      var state, pending := StateOf(rows);
      var key := Key(req.name, req.version);
      if w.insertFault {
        return Refused(Fault);
      }
      if key !in store {
        store := store[key := Bundle(state, digest, w.actor, w.now, w.actor, w.now, rows)];
        return Created(state, digest, pending);
      }
      outcome := Evaluate(key, digest, w);
    }

    // The conflict evaluation under the create lock.
    method Evaluate(key: Key, digest: string, w: World) returns (outcome: Outcome)
      requires Valid() && key in store
      modifies this
      ensures store == old(store)[key := TakenStep(hash, old(store[key]), digest, w).0]
      ensures outcome == TakenStep(hash, old(store[key]), digest, w).1
    {
      var existing := store[key];
      assert store == store[key := existing];
      if w.getFault {
        return Refused(Fault);
      }
      if existing.signature != digest || existing.state == Complete {
        return Refused(Conflict);
      }
      if w.listFault {
        return Refused(Fault);
      }
      var stored := Listed(existing);
      ListedSound(hash, existing);
      var got := ManifestDigest(hash, RowPairs(stored));
      if got != digest {
        return Refused(Inconsistent);
      }
      var merged := Resume(stored, w);
      var state, pending := StateOf(merged);
      if w.replaceFault {
        return Refused(Fault);
      }
      store := store[key := existing.(state := state, items := merged, updatedBy := w.actor, updatedAt := w.now)];
      return Resumed(state, digest, pending);
    }
  }

  // ---- what every stored bundle keeps ------------------------------------------------------------

  ghost predicate Sound(hash: string -> string, b: Bundle) {
    && Listing(RowPairs(b.items))
    && b.signature == Digest(hash, RowPairs(b.items))
    && (b.state == Complete <==> forall row :: row in b.items ==> row.sha256 != "")
  }

  ghost predicate StoreSound(hash: string -> string, store: Store) {
    forall k :: k in store ==> Sound(hash, store[k])
  }

  ghost predicate SameIdentities(a: seq<BundleItem>, b: seq<BundleItem>) {
    multiset(RowPairs(a)) == multiset(RowPairs(b))
  }

  // b' is a later form of b.
  ghost predicate Evolves(b: Bundle, b': Bundle) {
    && b'.signature == b.signature && b'.createdBy == b.createdBy && b'.createdAt == b.createdAt
    && SameIdentities(b.items, b'.items)
    && (forall row :: row in b.items && row.sha256 != "" ==> row in b'.items)
    && Pending(b'.items) <= Pending(b.items)
    && (b.state == Complete ==> b' == b)
  }

  lemma EvolvesTransitive(a: Bundle, b: Bundle, c: Bundle)
    requires Evolves(a, b) && Evolves(b, c)
    ensures Evolves(a, c)
  {
  }

  lemma {:induction false} PendingZero(rows: seq<BundleItem>)
    ensures Pending(rows) == 0 <==> forall row :: row in rows ==> row.sha256 != ""
  {
    if rows != [] {
      PendingZero(rows[1..]);
      assert rows[0] in rows;
      assert forall row :: row in rows <==> row == rows[0] || row in rows[1..];
    }
  }

  lemma PairsOfCons(row: BundleItem, rows: seq<BundleItem>)
    ensures RowPairs([row] + rows) == [Pair(row.repo, row.path)] + RowPairs(rows)
  {
  }

  lemma {:induction false} InsertPairs(row: BundleItem, rows: seq<BundleItem>)
    ensures var out := Insert(row, rows, ByIdentity);
            multiset(RowPairs(out)) == multiset{Pair(row.repo, row.path)} + multiset(RowPairs(rows)) &&
            Pending(out) == (if row.sha256 == "" then 1 else 0) + Pending(rows)
  {
    var out := Insert(row, rows, ByIdentity);
    PairsOfCons(row, rows);
    if rows != [] && ByIdentity(rows[0], row) {
      InsertPairs(row, rows[1..]);
      PairsOfCons(rows[0], Insert(row, rows[1..], ByIdentity));
      PairsOfCons(rows[0], rows[1..]);
      assert rows == [rows[0]] + rows[1..];
      assert out[1..] == Insert(row, rows[1..], ByIdentity);
    } else {
      assert out[1..] == rows;
    }
  }

  lemma {:induction false} SortPairs(rows: seq<BundleItem>)
    ensures SameIdentities(Sort(rows, ByIdentity), rows)
    ensures Pending(Sort(rows, ByIdentity)) == Pending(rows)
  {
    if rows != [] {
      SortPairs(rows[1..]);
      InsertPairs(rows[0], Sort(rows[1..], ByIdentity));
      PairsOfCons(rows[0], rows[1..]);
      assert rows == [rows[0]] + rows[1..];
    }
  }

  lemma ListingPermutes(a: seq<Pair>, b: seq<Pair>)
    requires Listing(a) && multiset(a) == multiset(b)
    ensures Listing(b)
  {
    SameMembers(a, b);
    DistinctPermutes(a, b);
    forall i | 0 <= i < |b| ensures ValidRow(b[i].repo, b[i].path) {
      assert b[i] in a;
      var j :| 0 <= j < |a| && a[j] == b[i];
    }
  }

  // Reading a segment back in order changes neither its identities nor its digest.
  lemma ListedSound(hash: string -> string, b: Bundle)
    requires Sound(hash, b)
    ensures Listing(RowPairs(Listed(b))) && Digest(hash, RowPairs(Listed(b))) == b.signature
    ensures SameIdentities(Listed(b), b.items) && Pending(Listed(b)) == Pending(b.items)
  {
    var a, c := RowPairs(b.items), RowPairs(Listed(b));
    SortPairs(b.items);
    ListingPermutes(a, c);
    SameMembers(a, c);
    DigestNamesIdentities(hash, a, c);
  }

  lemma {:induction false} RefreshedPending(rows: seq<BundleItem>, w: World)
    ensures Pending(RefreshedRows(rows, w)) <= Pending(rows)
  {
    if rows != [] {
      RefreshedPending(rows[1..], w);
      assert RefreshedRows(rows, w)[1..] == RefreshedRows(rows[1..], w);
    }
  }

  lemma ResumeEvolves(hash: string -> string, b: Bundle, w: World)
    requires Sound(hash, b) && b.state != Complete
    ensures Sound(hash, ResumedBundle(b, w)) && Evolves(b, ResumedBundle(b, w))
  {
    var stored, b' := Listed(b), ResumedBundle(b, w);
    ListedSound(hash, b);
    RefreshedPending(stored, w);
    PendingZero(b'.items);
    assert RowPairs(b'.items) == RowPairs(stored);
    SortKeeps(b.items, ByIdentity);
    forall row | row in b.items && row.sha256 != "" ensures row in b'.items {
      var i :| 0 <= i < |stored| && stored[i] == row;
      assert b'.items[i] == row;
    }
  }

  lemma {:induction false} SnapshotShape(items: seq<ManifestItem>, w: World, equalFold: (string, string) -> bool)
    requires forall i :: 0 <= i < |items| ==> items[i].Item?
    ensures SnapshotRows(items, w, equalFold).Ok? ==>
              RowPairs(SnapshotRows(items, w, equalFold).value) == PairsOf(items)
    ensures SnapshotRows(items, w, equalFold).Err? ==> SnapshotRows(items, w, equalFold).error in {Fault, Invalid}
  {
    if items != [] {
      var init, last := items[..|items| - 1], items[|items| - 1];
      SnapshotShape(init, w, equalFold);
      if SnapshotRows(items, w, equalFold).Err? {
        return;
      }
      var rows, row := SnapshotRows(init, w, equalFold).value, SnapshotRow(last, w, equalFold).value;
      assert RowPairs(rows + [row]) == RowPairs(rows) + [Pair(last.repo, last.path)];
      assert PairsOf(items) == PairsOf(init) + [Pair(last.repo, last.path)];
    }
  }

  lemma NewBundleSound(hash: string -> string, rows: seq<BundleItem>, pairs: seq<Pair>, w: World)
    requires Listing(pairs) && RowPairs(rows) == pairs
    ensures Sound(hash, NewBundle(rows, Digest(hash, pairs), w))
  {
    PendingZero(rows);
  }

  lemma TakenStepKeeps(hash: string -> string, b: Bundle, digest: string, w: World)
    requires Sound(hash, b)
    ensures var (b', outcome) := TakenStep(hash, b, digest, w);
            && Sound(hash, b') && Evolves(b, b')
            && (outcome.Refused? ==> b' == b)
            && outcome != Refused(Inconsistent)
  {
    ListedSound(hash, b);
    if b.state != Complete {
      ResumeEvolves(hash, b, w);
    }
  }

  ghost predicate StoreEvolves(store: Store, store': Store) {
    forall k :: k in store ==> k in store' && Evolves(store[k], store'[k])
  }

  /** One Create keeps every bundle sound, lets bundles only evolve, and changes nothing
      when it refuses; the stored manifest never disagrees with its signature. */
  lemma CreateKeeps(hash: string -> string, equalFold: (string, string) -> bool, store: Store, req: Request, w: World)
    requires StoreSound(hash, store)
    ensures var (store', outcome) := CreateStep(hash, equalFold, store, req, w);
            && StoreSound(hash, store') && StoreEvolves(store, store')
            && (outcome.Refused? ==> store' == store)
            && outcome != Refused(Inconsistent)
  {
    if w.featureOn && Admissible(req) && w.canWrite {
      var key, digest := Key(req.name, req.version), Digest(hash, PairsOf(req.items));
      SnapshotShape(req.items, w, equalFold);
      ValidManifestLists(req.items);
      match SnapshotRows(req.items, w, equalFold)
      case Err(_) => StoreUnchanged(store);
      case Ok(rows) => InsertStepKeeps(hash, store, key, PairsOf(req.items), rows, w);
    } else {
      StoreUnchanged(store);
    }
  }

  lemma StoreUnchanged(store: Store)
    ensures StoreEvolves(store, store)
  {
  }

  lemma PutKeeps(hash: string -> string, store: Store, key: Key, b: Bundle)
    requires StoreSound(hash, store) && Sound(hash, b)
    requires key in store ==> Evolves(store[key], b)
    ensures StoreSound(hash, store[key := b]) && StoreEvolves(store, store[key := b])
  {
    StoreUnchanged(store);
  }

  lemma InsertStepKeeps(hash: string -> string, store: Store, key: Key, pairs: seq<Pair>,
                        rows: seq<BundleItem>, w: World)
    requires StoreSound(hash, store) && Listing(pairs) && RowPairs(rows) == pairs
    ensures var (store', outcome) := InsertStep(hash, store, key, Digest(hash, pairs), rows, w);
            && StoreSound(hash, store') && StoreEvolves(store, store')
            && (outcome.Refused? ==> store' == store)
            && outcome != Refused(Inconsistent)
  {
    if w.insertFault {
      StoreUnchanged(store);
    } else if key !in store {
      NewBundleSound(hash, rows, pairs, w);
      PutKeeps(hash, store, key, NewBundle(rows, Digest(hash, pairs), w));
    } else {
      TakenPutKeeps(hash, store, key, Digest(hash, pairs), w);
    }
  }

  lemma TakenPutKeeps(hash: string -> string, store: Store, key: Key, digest: string, w: World)
    requires StoreSound(hash, store) && key in store
    ensures var taken := TakenStep(hash, store[key], digest, w);
            && StoreSound(hash, store[key := taken.0]) && StoreEvolves(store, store[key := taken.0])
            && (taken.1.Refused? ==> store[key := taken.0] == store)
            && taken.1 != Refused(Inconsistent)
  {
    assert Sound(hash, store[key]);
    TakenStepKeeps(hash, store[key], digest, w);
    PutTaken(hash, store, key, TakenStep(hash, store[key], digest, w));
  }

  lemma PutTaken(hash: string -> string, store: Store, key: Key, taken: (Bundle, Outcome))
    requires StoreSound(hash, store) && key in store
    requires Sound(hash, taken.0) && Evolves(store[key], taken.0)
    requires taken.1.Refused? ==> taken.0 == store[key]
    ensures StoreSound(hash, store[key := taken.0]) && StoreEvolves(store, store[key := taken.0])
    ensures taken.1.Refused? ==> store[key := taken.0] == store
  {
    PutKeeps(hash, store, key, taken.0);
  }

  // ---- runs ------------------------------------------------------------------------------------

  datatype Call = Call(req: Request, w: World)

  // The stores met while the calls are served one after the other under the create lock.
  ghost predicate IsRun(hash: string -> string, equalFold: (string, string) -> bool,
                        calls: seq<Call>, stores: seq<Store>) {
    && |stores| == |calls| + 1 && stores[0] == map[]
    && forall i :: 0 <= i < |calls| ==>
         stores[i + 1] == CreateStep(hash, equalFold, stores[i], calls[i].req, calls[i].w).0
  }

  lemma {:induction false} RunSound(hash: string -> string, equalFold: (string, string) -> bool,
                                    calls: seq<Call>, stores: seq<Store>, i: nat)
    requires IsRun(hash, equalFold, calls, stores) && i < |stores|
    ensures StoreSound(hash, stores[i])
  {
    if i > 0 {
      RunSound(hash, equalFold, calls, stores, i - 1);
      CreateKeeps(hash, equalFold, stores[i - 1], calls[i - 1].req, calls[i - 1].w);
    }
  }

  /** Over every run, each bundle stored at some moment is still stored at every later
      one, with the same signature and identities, every resolved row untouched, no more
      rows pending, and nothing at all changed once it was COMPLETE. */
  lemma {:induction false} RunEvolves(hash: string -> string, equalFold: (string, string) -> bool,
                                      calls: seq<Call>, stores: seq<Store>, i: nat, j: nat)
    requires IsRun(hash, equalFold, calls, stores) && i <= j < |stores|
    ensures StoreSound(hash, stores[j]) && StoreEvolves(stores[i], stores[j])
    decreases j
  {
    RunSound(hash, equalFold, calls, stores, j);
    if i < j {
      RunEvolves(hash, equalFold, calls, stores, i, j - 1);
      CreateKeeps(hash, equalFold, stores[j - 1], calls[j - 1].req, calls[j - 1].w);
      forall k | k in stores[i] ensures k in stores[j] && Evolves(stores[i][k], stores[j][k]) {
        EvolvesTransitive(stores[i][k], stores[j - 1][k], stores[j][k]);
      }
    }
  }

  // ---- where checksums come from ----------------------------------------------------------------

  // The row is what a call froze: that call's node table held this checksum and size for
  // its identity, at that call's time.
  ghost predicate FrozenBy(row: BundleItem, w: World) {
    row.addedAt == w.now && row.addedBy == w.actor && (InTable(row, w.nodes) || InTable(row, w.later))
  }

  predicate InTable(row: BundleItem, nodes: Nodes) {
    nodes.Wired? && Pair(row.repo, row.path) in nodes.at &&
    nodes.at[Pair(row.repo, row.path)] == Node(row.sha256, row.size)
  }

  lemma {:induction false} SnapshotFreezes(items: seq<ManifestItem>, w: World, equalFold: (string, string) -> bool)
    requires forall i :: 0 <= i < |items| ==> items[i].Item?
    requires SnapshotRows(items, w, equalFold).Ok?
    ensures var rows := SnapshotRows(items, w, equalFold).value;
            && |rows| == |items|
            && (forall i :: 0 <= i < |rows| && rows[i].sha256 != "" ==> FrozenBy(rows[i], w))
            && (forall i :: 0 <= i < |rows| && rows[i].sha256 != "" && items[i].sha256 != "" ==>
                  equalFold(items[i].sha256, rows[i].sha256))
  {
    if items != [] {
      SnapshotFreezes(items[..|items| - 1], w, equalFold);
    }
  }

  lemma ResumeFreezes(b: Bundle, w: World)
    ensures forall row :: row in ResumedBundle(b, w).items && row.sha256 != "" ==> row in b.items || FrozenBy(row, w)
  {
    var stored, merged := Listed(b), ResumedBundle(b, w).items;
    SortKeeps(b.items, ByIdentity);
    forall row | row in merged && row.sha256 != "" ensures row in b.items || FrozenBy(row, w) {
      var i :| 0 <= i < |merged| && merged[i] == row;
      assert stored[i] in b.items;
    }
  }

  // One Create adds no resolved row but those it froze itself, and honours every pin.
  lemma CreateFreezes(hash: string -> string, equalFold: (string, string) -> bool, store: Store,
                      req: Request, w: World, k: Key)
    requires k in CreateStep(hash, equalFold, store, req, w).0
    ensures var store' := CreateStep(hash, equalFold, store, req, w).0;
            forall row :: row in store'[k].items && row.sha256 != "" ==>
              (k in store && row in store[k].items) || FrozenBy(row, w)
  {
    var store' := CreateStep(hash, equalFold, store, req, w).0;
    if k !in store || store'[k] != store[k] {
      SnapshotFreezes(req.items, w, equalFold);
      if k in store {
        ResumeFreezes(store[k], w);
      }
    }
  }

  // A created bundle carries, for every pinned item, a checksum equal to the pin up to
  // case, or none.
  lemma CreatedHonoursPins(hash: string -> string, equalFold: (string, string) -> bool, store: Store,
                           req: Request, w: World, i: nat)
    requires CreateStep(hash, equalFold, store, req, w).1.Created? && i < |req.items| && req.items[i].sha256 != ""
    ensures var items := CreateStep(hash, equalFold, store, req, w).0[Key(req.name, req.version)].items;
            && |items| == |req.items| && items[i].repo == req.items[i].repo && items[i].path == req.items[i].path
            && (items[i].sha256 != "" ==> equalFold(req.items[i].sha256, items[i].sha256))
  {
    SnapshotFreezes(req.items, w, equalFold);
    SnapshotShape(req.items, w, equalFold);
    var rows := SnapshotRows(req.items, w, equalFold).value;
    assert RowPairs(rows)[i] == PairsOf(req.items)[i];
  }

  // The rows agree with the item's pin: its identity is pending, or its checksum is the pin
  // up to case.
  ghost predicate PinHeld(it: ManifestItem, rows: seq<BundleItem>, equalFold: (string, string) -> bool)
    requires it.Item?
  {
    forall row :: row in rows && row.repo == it.repo && row.path == it.path && row.sha256 != "" ==>
      equalFold(it.sha256, row.sha256)
  }

  // The same of the rows a resume is about to write: a resolved row stays, a pending one
  // takes what the node table holds by then.
  ghost predicate PinWillHold(it: ManifestItem, rows: seq<BundleItem>, later: Nodes,
                              equalFold: (string, string) -> bool)
    requires it.Item?
  {
    forall row :: row in rows && row.repo == it.repo && row.path == it.path ==>
      && (row.sha256 != "" ==> equalFold(it.sha256, row.sha256))
      && (row.sha256 == "" && LaterChecksum(row, later) != "" ==> equalFold(it.sha256, LaterChecksum(row, later)))
  }

  function LaterChecksum(row: BundleItem, later: Nodes): string {
    var pair := Pair(row.repo, row.path);
    if later.Wired? && pair in later.at && later.at[pair].Node? then later.at[pair].sha256 else ""
  }

  lemma RefreshedChecksum(row: BundleItem, w: World)
    ensures var r := Refreshed(row, w);
            && r.repo == row.repo && r.path == row.path
            && r.sha256 == if row.sha256 != "" then row.sha256 else LaterChecksum(row, w.later)
  {
  }

  /** An accepted resume leaves a pinned item with the pinned checksum, or pending, exactly
      when its stored row, if resolved, has it and, if pending, meets it in the node table
      of the resume. The pin was checked against another table, the one of the snapshot. */
  lemma ResumeHonoursPinExactly(b: Bundle, w: World, it: ManifestItem, equalFold: (string, string) -> bool)
    requires it.Item?
    ensures PinHeld(it, ResumedBundle(b, w).items, equalFold) <==> PinWillHold(it, b.items, w.later, equalFold)
  {
    if PinHeld(it, ResumedBundle(b, w).items, equalFold) {
      PinHeldBefore(b, w, it, equalFold);
    }
    if PinWillHold(it, b.items, w.later, equalFold) {
      PinHeldAfter(b, w, it, equalFold);
    }
  }

  lemma PinHeldBefore(b: Bundle, w: World, it: ManifestItem, equalFold: (string, string) -> bool)
    requires it.Item? && PinHeld(it, ResumedBundle(b, w).items, equalFold)
    ensures PinWillHold(it, b.items, w.later, equalFold)
  {
    var stored, merged := Listed(b), ResumedBundle(b, w).items;
    SortKeeps(b.items, ByIdentity);
    forall row | row in b.items && row.repo == it.repo && row.path == it.path
      ensures row.sha256 != "" ==> equalFold(it.sha256, row.sha256)
      ensures row.sha256 == "" && LaterChecksum(row, w.later) != "" ==>
                equalFold(it.sha256, LaterChecksum(row, w.later))
    {
      var i :| 0 <= i < |stored| && stored[i] == row;
      assert merged[i] == Refreshed(row, w) && merged[i] in merged;
      RefreshedChecksum(row, w);
    }
  }

  lemma PinHeldAfter(b: Bundle, w: World, it: ManifestItem, equalFold: (string, string) -> bool)
    requires it.Item? && PinWillHold(it, b.items, w.later, equalFold)
    ensures PinHeld(it, ResumedBundle(b, w).items, equalFold)
  {
    var stored, merged := Listed(b), ResumedBundle(b, w).items;
    SortKeeps(b.items, ByIdentity);
    forall row | row in merged && row.repo == it.repo && row.path == it.path && row.sha256 != ""
      ensures equalFold(it.sha256, row.sha256)
    {
      var i :| 0 <= i < |merged| && merged[i] == row;
      assert stored[i] in b.items;
      RefreshedChecksum(stored[i], w);
    }
  }

  // Every pin of an accepted request, whichever arm answered: the one statement for both.
  lemma AcceptedHonoursPinExactly(hash: string -> string, equalFold: (string, string) -> bool, store: Store,
                                  req: Request, w: World, i: nat)
    requires StoreSound(hash, store) && !CreateStep(hash, equalFold, store, req, w).1.Refused?
    requires i < |req.items| && req.items[i].sha256 != ""
    ensures var key := Key(req.name, req.version);
            var (store', outcome) := CreateStep(hash, equalFold, store, req, w);
            PinHeld(req.items[i], store'[key].items, equalFold) <==>
            outcome.Created? || PinWillHold(req.items[i], store[key].items, w.later, equalFold)
  {
    var key := Key(req.name, req.version);
    var (store', outcome) := CreateStep(hash, equalFold, store, req, w);
    if outcome.Created? {
      CreatedHoldsPin(req.items, w, equalFold, i);
    } else {
      ResumeHonoursPinExactly(store[key], w, req.items[i], equalFold);
    }
  }

  lemma CreatedHoldsPin(items: seq<ManifestItem>, w: World, equalFold: (string, string) -> bool, i: nat)
    requires ValidManifest(items) && SnapshotRows(items, w, equalFold).Ok? && i < |items| && items[i].sha256 != ""
    ensures PinHeld(items[i], SnapshotRows(items, w, equalFold).value, equalFold)
  {
    var rows := SnapshotRows(items, w, equalFold).value;
    SnapshotFreezes(items, w, equalFold);
    SnapshotShape(items, w, equalFold);
    ValidManifestLists(items);
    RowHoldsPin(items[i], rows, equalFold, i);
  }

  lemma RowHoldsPin(it: ManifestItem, rows: seq<BundleItem>, equalFold: (string, string) -> bool, i: nat)
    requires it.Item? && Distinct(RowPairs(rows)) && i < |rows| && RowPairs(rows)[i] == Pair(it.repo, it.path)
    requires rows[i].sha256 != "" ==> equalFold(it.sha256, rows[i].sha256)
    ensures PinHeld(it, rows, equalFold)
  {
    forall row | row in rows && row.repo == it.repo && row.path == it.path && row.sha256 != ""
      ensures equalFold(it.sha256, row.sha256)
    {
      var j :| 0 <= j < |rows| && rows[j] == row;
      assert RowPairs(rows)[j] == RowPairs(rows)[i];
    }
  }

  /** Over every run, each resolved row carries the checksum and size that the node table
      held for its identity in the call that froze it. */
  lemma {:induction false} ChecksumsAreTrue(hash: string -> string, equalFold: (string, string) -> bool,
                                            calls: seq<Call>, stores: seq<Store>, n: nat, k: Key, row: BundleItem)
    requires IsRun(hash, equalFold, calls, stores) && n < |stores|
    requires k in stores[n] && row in stores[n][k].items && row.sha256 != ""
    ensures exists i :: 0 <= i < n && FrozenBy(row, calls[i].w)
  {
    assert n > 0;
    var call := calls[n - 1];
    CreateFreezes(hash, equalFold, stores[n - 1], call.req, call.w, k);
    if !FrozenBy(row, call.w) {
      ChecksumsAreTrue(hash, equalFold, calls, stores, n - 1, k, row);
    }
  }

  // ---- what a snapshot freezes ------------------------------------------------------------------

  // The lookup of the item faults, or finds a checksum that its pin disagrees with.
  ghost predicate Troubled(it: ManifestItem, nodes: Nodes, equalFold: (string, string) -> bool)
    requires it.Item?
  {
    nodes.Wired? && Pair(it.repo, it.path) in nodes.at &&
    match nodes.at[Pair(it.repo, it.path)]
    case LookupFault => true
    case Node(sha, _) => it.sha256 != "" && sha != "" && !equalFold(it.sha256, sha)
  }

  // The row of the item as the node table has it, pending without a node.
  ghost predicate FrozenRow(it: ManifestItem, row: BundleItem, w: World)
    requires it.Item?
  {
    && row.repo == it.repo && row.path == it.path && row.addedAt == w.now && row.addedBy == w.actor
    && if w.nodes.Wired? && Pair(it.repo, it.path) in w.nodes.at && w.nodes.at[Pair(it.repo, it.path)].Node?
       then Node(row.sha256, row.size) == w.nodes.at[Pair(it.repo, it.path)]
       else row.sha256 == "" && row.size == 0
  }

  // The first item in trouble, and what the snapshot answers for it.
  ghost predicate FirstTrouble(items: seq<ManifestItem>, nodes: Nodes, equalFold: (string, string) -> bool,
                               i: int, why: Refusal)
    requires forall k :: 0 <= k < |items| ==> items[k].Item?
  {
    && 0 <= i < |items| && Troubled(items[i], nodes, equalFold)
    && (forall j :: 0 <= j < i ==> !Troubled(items[j], nodes, equalFold))
    && why == if nodes.at[Pair(items[i].repo, items[i].path)].LookupFault? then Fault else Invalid
  }

  lemma RowFrozen(it: ManifestItem, w: World, equalFold: (string, string) -> bool)
    requires it.Item?
    ensures SnapshotRow(it, w, equalFold).Err? <==> Troubled(it, w.nodes, equalFold)
    ensures SnapshotRow(it, w, equalFold).Err? ==>
              SnapshotRow(it, w, equalFold).error ==
              if w.nodes.at[Pair(it.repo, it.path)].LookupFault? then Fault else Invalid
    ensures SnapshotRow(it, w, equalFold).Ok? ==> FrozenRow(it, SnapshotRow(it, w, equalFold).value, w)
  {
  }

  /** A snapshot is refused exactly when some item is in trouble; else its row i is item i
      with the checksum and size of its node, or pending where there is none. */
  lemma {:induction false} SnapshotExactly(items: seq<ManifestItem>, w: World, equalFold: (string, string) -> bool)
    requires forall i :: 0 <= i < |items| ==> items[i].Item?
    ensures SnapshotRows(items, w, equalFold).Err? <==>
            exists i :: 0 <= i < |items| && Troubled(items[i], w.nodes, equalFold)
    ensures SnapshotRows(items, w, equalFold).Ok? ==>
              var rows := SnapshotRows(items, w, equalFold).value;
              |rows| == |items| && forall i :: 0 <= i < |items| ==> FrozenRow(items[i], rows[i], w)
    ensures SnapshotRows(items, w, equalFold).Err? ==>
              exists i :: FirstTrouble(items, w.nodes, equalFold, i, SnapshotRows(items, w, equalFold).error)
  {
    if items != [] {
      var n := |items| - 1;
      var init := items[..n];
      SnapshotExactly(init, w, equalFold);
      RowFrozen(items[n], w, equalFold);
      if i :| 0 <= i < |items| && Troubled(items[i], w.nodes, equalFold) {
        assert i < n ==> init[i] == items[i];
      }
      if i :| 0 <= i < |init| && Troubled(init[i], w.nodes, equalFold) {
        assert items[i] == init[i];
      }
      if SnapshotRows(init, w, equalFold).Err? {
        var why := SnapshotRows(init, w, equalFold).error;
        var i :| FirstTrouble(init, w.nodes, equalFold, i, why);
        assert FirstTrouble(items, w.nodes, equalFold, i, why);
      } else if SnapshotRows(items, w, equalFold).Err? {
        assert forall j :: 0 <= j < n ==> init[j] == items[j];
        assert FirstTrouble(items, w.nodes, equalFold, n, SnapshotRows(items, w, equalFold).error);
      }
    }
  }

  // Every item of the request has a node with a checksum.
  ghost predicate AllPresent(items: seq<ManifestItem>, nodes: Nodes) {
    forall i :: 0 <= i < |items| && items[i].Item? ==>
      && nodes.Wired? && Pair(items[i].repo, items[i].path) in nodes.at
      && nodes.at[Pair(items[i].repo, items[i].path)].Node? && nodes.at[Pair(items[i].repo, items[i].path)].sha256 != ""
  }

  lemma SnapshotState(items: seq<ManifestItem>, rows: seq<BundleItem>, w: World)
    requires |rows| == |items| && forall i :: 0 <= i < |items| ==> items[i].Item? && FrozenRow(items[i], rows[i], w)
    ensures StateFor(rows) == Complete <==> AllPresent(items, w.nodes)
  {
    PendingZero(rows);
    if StateFor(rows) == Complete {
      forall i | 0 <= i < |items| ensures rows[i].sha256 != "" {
        assert rows[i] in rows;
      }
    }
  }

  // A request the service may act on: every rule of name, version and manifest obeyed.
  ghost predicate LegalRequest(req: Request) {
    && LegalName(req.name) && LegalVersion(req.version) && 0 < |req.items| <= 10000
    && (forall i :: 0 <= i < |req.items| ==>
          req.items[i].Item? && LegalRow(req.items[i].repo, req.items[i].path) && NoControls(req.items[i].sha256))
    && (forall i, j :: 0 <= i < j < |req.items| ==>
          (req.items[i].Item? && req.items[j].Item? ==>
             req.items[i].repo != req.items[j].repo || req.items[i].path != req.items[j].path))
  }

  lemma AdmissibleExactly(req: Request)
    ensures Admissible(req) <==> LegalRequest(req)
  {
    ManifestExactly(req.items);
    ControlExactly(req.version);
  }

  /** The gates, in their order: the feature, the rules of the request, the right to write,
      trouble in the snapshot, a fault of the insert. Past all of them a free pair is
      created. */
  lemma GatesExactly(hash: string -> string, equalFold: (string, string) -> bool, store: Store, req: Request, w: World)
    ensures var outcome := CreateStep(hash, equalFold, store, req, w).1;
            if !w.featureOn then outcome == Refused(FeatureOff)
            else if !LegalRequest(req) then outcome == Refused(Invalid)
            else if !w.canWrite then outcome == Refused(Forbidden)
            else if exists i :: 0 <= i < |req.items| && Troubled(req.items[i], w.nodes, equalFold)
            then outcome.Refused? && exists i :: FirstTrouble(req.items, w.nodes, equalFold, i, outcome.why)
            else if w.insertFault then outcome == Refused(Fault)
            else Key(req.name, req.version) !in store <==> outcome.Created?
  {
    AdmissibleExactly(req);
    if w.featureOn && Admissible(req) && w.canWrite {
      SnapshotExactly(req.items, w, equalFold);
      SnapshotShape(req.items, w, equalFold);
    }
  }

  /** A created bundle: its items are the request's, in order, each with the checksum and
      size of its node or pending; it is COMPLETE exactly when every listed pair has a node
      with a checksum; and its header names the digest, the actor and the time. */
  lemma CreatedExactly(hash: string -> string, equalFold: (string, string) -> bool, store: Store,
                       req: Request, w: World)
    requires CreateStep(hash, equalFold, store, req, w).1.Created?
    ensures var (store', outcome) := CreateStep(hash, equalFold, store, req, w);
            var key := Key(req.name, req.version);
            && key in store' && store' - {key} == store - {key}
            && var b := store'[key];
               && |b.items| == |req.items|
               && (forall i :: 0 <= i < |b.items| ==> req.items[i].Item? && FrozenRow(req.items[i], b.items[i], w))
               && (b.state == Complete <==> AllPresent(req.items, w.nodes)) && outcome.state == b.state
               && b.createdBy == w.actor && b.createdAt == w.now && b.updatedBy == w.actor && b.updatedAt == w.now
               && b.signature == outcome.digest
  {
    var rows := SnapshotRows(req.items, w, equalFold).value;
    SnapshotExactly(req.items, w, equalFold);
    SnapshotState(req.items, rows, w);
    OnlyKeyChanges(store, Key(req.name, req.version), NewBundle(rows, Digest(hash, PairsOf(req.items)), w));
  }

  lemma OnlyKeyChanges(store: Store, key: Key, b: Bundle)
    ensures store[key := b] - {key} == store - {key}
  {
  }

  /** A taken pair, past the gates: a fault of the lookup, a conflict when the digest differs
      or the bundle is complete, a fault of the listing, a fault of the write, else a
      resume that leaves the time and the actor of the update. */
  lemma TakenExactly(hash: string -> string, equalFold: (string, string) -> bool, store: Store, req: Request, w: World)
    requires StoreSound(hash, store) && Key(req.name, req.version) in store
    requires w.featureOn && LegalRequest(req) && w.canWrite && !w.insertFault
    requires forall i :: 0 <= i < |req.items| ==> !Troubled(req.items[i], w.nodes, equalFold)
    ensures var key := Key(req.name, req.version);
            var (store', outcome) := CreateStep(hash, equalFold, store, req, w);
            if w.getFault then outcome == Refused(Fault)
            else if store[key].signature != Digest(hash, PairsOf(req.items)) || store[key].state == Complete
            then outcome == Refused(Conflict)
            else if w.listFault || w.replaceFault then outcome == Refused(Fault)
            else
              && outcome.Resumed? && store' - {key} == store - {key}
              && store'[key].updatedBy == w.actor && store'[key].updatedAt == w.now
  {
    AdmissibleExactly(req);
    SnapshotExactly(req.items, w, equalFold);
    var key := Key(req.name, req.version);
    ListedSound(hash, store[key]);
    OnlyKeyChanges(store, key, ResumedBundle(store[key], w));
  }

  // ---- which arm answers ---------------------------------------------------------------------

  // Every gate is open and no store call fails.
  predicate Willing(w: World) {
    w.featureOn && w.canWrite && !w.insertFault && !w.getFault && !w.listFault && !w.replaceFault
  }

  /** The tri-state: a free pair is created; a taken one is resumed exactly when the
      request lists the stored identities and some row is still pending, and is a conflict
      otherwise. */
  lemma ArmsExact(hash: string -> string, equalFold: (string, string) -> bool, store: Store, req: Request, w: World)
    requires StoreSound(hash, store) && Injective(hash)
    requires Willing(w) && Admissible(req) && SnapshotRows(req.items, w, equalFold).Ok?
    ensures var outcome := CreateStep(hash, equalFold, store, req, w).1;
            var key := Key(req.name, req.version);
            if key !in store then outcome.Created?
            else if (forall p :: p in PairsOf(req.items) <==> p in RowPairs(store[key].items)) &&
                    (exists row :: row in store[key].items && row.sha256 == "")
            then outcome.Resumed?
            else outcome == Refused(Conflict)
  {
    var key := Key(req.name, req.version);
    if key in store {
      ValidManifestLists(req.items);
      DigestNamesIdentities(hash, PairsOf(req.items), RowPairs(store[key].items));
      ListedSound(hash, store[key]);
    }
  }

  // The answer reports the stored state and pending count.
  lemma AnswerMatchesStore(hash: string -> string, equalFold: (string, string) -> bool, store: Store,
                           req: Request, w: World)
    requires StoreSound(hash, store)
    ensures var (store', outcome) := CreateStep(hash, equalFold, store, req, w);
            var key := Key(req.name, req.version);
            !outcome.Refused? ==>
              && key in store' && outcome.state == store'[key].state && outcome.digest == store'[key].signature
              && outcome.pending == Pending(store'[key].items)
              && (outcome.state == Complete <==> outcome.pending == 0)
  {
  }

  /** A resume completes the bundle exactly when the node table holds a checksum for every
      row still pending. */
  lemma ResumeCompletes(hash: string -> string, b: Bundle, w: World)
    requires Sound(hash, b) && b.state != Complete
    ensures ResumedBundle(b, w).state == Complete <==>
            (forall row :: row in b.items && row.sha256 == "" ==>
               && w.later.Wired? && Pair(row.repo, row.path) in w.later.at
               && w.later.at[Pair(row.repo, row.path)].Node? && w.later.at[Pair(row.repo, row.path)].sha256 != "")
  {
    var stored, merged := Listed(b), ResumedBundle(b, w).items;
    PendingZero(merged);
    SortKeeps(b.items, ByIdentity);
    if ResumedBundle(b, w).state == Complete {
      forall row | row in b.items && row.sha256 == "" ensures Refreshed(row, w).sha256 != "" {
        var i :| 0 <= i < |stored| && stored[i] == row;
        assert merged[i] in merged;
      }
    } else {
      var row :| row in merged && row.sha256 == "";
      var i :| 0 <= i < |merged| && merged[i] == row;
      assert stored[i] in b.items;
    }
  }

  // ---- a pin that a resume ignores ------------------------------------------------------------------

  // A bundle of two rows: one resolved to checksum s1, one pending.
  function HalfBundle(hash: string -> string, s1: string): Bundle {
    var items := [BundleItem(['r'], ['a'], s1, 1, "", ""), BundleItem(['r'], ['b'], "", 0, "", "")];
    Bundle(InProgress, Digest(hash, [Pair(['r'], ['a']), Pair(['r'], ['b'])]), "", "", "", "", items)
  }

  function PinnedRequest(s2: string): Request {
    Request(['n'], ['1'], [Item(['r'], ['a'], s2), Item(['r'], ['b'], "")])
  }

  // By now the artifact in the repository has checksum s2.
  function ReplacedWorld(s2: string): World {
    var nodes := Wired(map[Pair(['r'], ['a']) := Node(s2, 1)]);
    World(true, true, "", "", nodes, nodes, false, false, false, false)
  }

  lemma OneCharRow(c: char)
    requires IsAlnum(c)
    ensures ValidRow(['r'], [c])
  {
    SplitOfPlain([c], '/');
    assert !Permissions.IsWildcardBucket(['r']);
  }

  lemma PinnedRequestAdmissible(s2: string)
    requires !HasControl(s2)
    ensures Admissible(PinnedRequest(s2))
  {
    var items := PinnedRequest(s2).items;
    OneCharRow('a');
    OneCharRow('b');
    assert items[0] == Item(['r'], ['a'], s2) && items[1] == Item(['r'], ['b'], "");
    assert Identity(['r'], ['a'])[2] == 'a' && Identity(['r'], ['b'])[2] == 'b';
    assert ByteLength(['1']) == 1 + ByteLength([]);
  }

  /** A resume accepts a pin on s2 and keeps the row frozen at s1. */
  lemma ResumeIgnoresPin(hash: string -> string, equalFold: (string, string) -> bool, s1: string, s2: string)
    requires s1 != "" && s2 != "" && !HasControl(s2) && equalFold(s2, s2) && !equalFold(s2, s1)
    ensures var key, req := Key(['n'], ['1']), PinnedRequest(s2);
            var store := map[key := HalfBundle(hash, s1)];
            && StoreSound(hash, store)
            && CreateStep(hash, equalFold, store, req, ReplacedWorld(s2)).1.Resumed?
            && !PinHeld(req.items[0],
                        CreateStep(hash, equalFold, store, req, ReplacedWorld(s2)).0[key].items, equalFold)
  {
    var key, req, w, b := Key(['n'], ['1']), PinnedRequest(s2), ReplacedWorld(s2), HalfBundle(hash, s1);
    PinnedRequestAdmissible(s2);
    HalfBundleSound(hash, s1);
    assert PairsOf(req.items) == RowPairs(b.items);
    SnapshotOfPinned(w, s2, equalFold);
    ListedSound(hash, b);
    assert b.items[0] in b.items;
    ResumeHonoursPinExactly(b, w, req.items[0], equalFold);
  }

  lemma HalfBundleSound(hash: string -> string, s1: string)
    requires s1 != ""
    ensures Sound(hash, HalfBundle(hash, s1))
  {
    var items := HalfBundle(hash, s1).items;
    OneCharRow('a');
    OneCharRow('b');
    assert RowPairs(items) == [Pair(['r'], ['a']), Pair(['r'], ['b'])];
    assert items[1] in items && items[1].sha256 == "";
  }

  lemma SnapshotOfPinned(w: World, s2: string, equalFold: (string, string) -> bool)
    requires w == ReplacedWorld(s2) && equalFold(s2, s2)
    ensures SnapshotRows(PinnedRequest(s2).items, w, equalFold).Ok?
  {
    var items := PinnedRequest(s2).items;
    assert items[..1] == [items[0]] && [items[0]][..0] == [];
    assert SnapshotRows([], w, equalFold) == Ok([]);
    assert SnapshotRows([items[0]], w, equalFold).Ok?;
  }
}
