/** What a backup directory holds, its manifest, and the read-only verification an import
    runs first (internal/storage/backup.go, cmd/binflow-server/backup.go). */
module BackupFormat {
  import opened Text
  import opened Ordering

  const FORMAT_VERSION := 1
  const SPOT_COUNT := 100

  // The snapshot's file name inside a backup an export writes.
  const DB_FILE := "metadata.db"

  // Blob content by sha256.
  type Blobs = map<string, string>

  // The metadata database: the blobs it references, its schema version, everything else.
  datatype Database = Database(refs: set<string>, schema: int, rest: string)

  datatype Entry = Entry(sha: string, size: int)

  datatype Manifest = Manifest(formatVersion: int, blobCount: int, totalBytes: int, dbFile: string, dbSha: string,
                               blobs: seq<Entry>)

  // db is the file DB_FILE, others the database files under any other name.
  datatype Artifact = Artifact(db: Option<Database>, others: map<string, Database>, blobs: Blobs,
                               manifest: Option<Manifest>)

  // The database file the manifest names.
  function NamedDb(a: Artifact): Option<Database>
    requires a.manifest.Some?
  {
    var file := a.manifest.value.dbFile;
    if file == DB_FILE then a.db
    else if file in a.others then Some(a.others[file])
    else None
  }

  // filepath.Base(name) == name, and neither "." nor ".."; Base leaves "/" as it is.
  predicate BareName(name: string) {
    name != "" && ('/' !in name || name == "/") && name != "." && name != ".."
  }

  // The digests in use: of blob content and of database files.
  datatype Digests = Digests(ofBlob: string -> string, ofDb: Database -> string)

  predicate IsSha(s: string) {
    |s| == 64 && forall i :: 0 <= i < |s| ==> '0' <= s[i] <= '9' || 'a' <= s[i] <= 'f'
  }

  // The shard directory of a blob.
  function Shard(sha: string): string {
    if |sha| < 2 then sha else sha[..2]
  }

  ghost predicate ContentAddressed(d: Digests, blobs: Blobs) {
    forall sha :: sha in blobs ==> IsSha(sha) && d.ofBlob(blobs[sha]) == sha
  }

  // ---- manifests --------------------------------------------------------------------------

  function Total(entries: seq<Entry>): int {
    if entries == [] then 0 else Total(entries[..|entries| - 1]) + entries[|entries| - 1].size
  }

  predicate ValidEntries(entries: seq<Entry>) {
    && (forall i :: 0 <= i < |entries| ==> IsSha(entries[i].sha) && entries[i].size >= 0)
    && (forall i, j :: 0 <= i < j < |entries| ==> entries[i].sha != entries[j].sha)
  }

  function ShasOf(entries: seq<Entry>): set<string> {
    set i | 0 <= i < |entries| :: entries[i].sha
  }

  // One more entry keeps the list valid exactly when it is well formed and new.
  lemma OneMoreEntry(entries: seq<Entry>, k: nat)
    requires k < |entries| && ValidEntries(entries[..k])
    ensures var b := entries[k];
            && (ValidEntries(entries[..k + 1]) <==> IsSha(b.sha) && b.size >= 0 && b.sha !in ShasOf(entries[..k]))
            && ShasOf(entries[..k + 1]) == ShasOf(entries[..k]) + {b.sha}
            && Total(entries[..k + 1]) == Total(entries[..k]) + b.size
            && (ValidEntries(entries) ==> ValidEntries(entries[..k + 1]))
  {
    var init, next, b := entries[..k], entries[..k + 1], entries[k];
    assert next == init + [b];
    assert next[..k] == init;
    assert forall i :: 0 <= i < k ==> next[i] == init[i];
    assert ShasOf(next) == ShasOf(init) + {b.sha} by {
      assert next[k] == b;
    }
  }

  predicate ValidManifest(m: Manifest) {
    && 0 < m.formatVersion <= FORMAT_VERSION && BareName(m.dbFile) && IsSha(m.dbSha)
    && m.blobCount == |m.blobs|
    && ValidEntries(m.blobs) && m.totalBytes == Total(m.blobs)
  }

  method Validate(m: Manifest) returns (ok: bool)
    ensures ok <==> ValidManifest(m)
  {
    if m.formatVersion <= 0 || m.formatVersion > FORMAT_VERSION {
      return false;
    }
    if !BareName(m.dbFile) || !IsSha(m.dbSha) || m.blobCount != |m.blobs| {
      return false;
    }
    var total, seen: set<string> := 0, {};
    for k := 0 to |m.blobs|
      invariant ValidEntries(m.blobs[..k]) && seen == ShasOf(m.blobs[..k])
      invariant total == Total(m.blobs[..k])
    {
      var b := m.blobs[k];
      OneMoreEntry(m.blobs, k);
      if !IsSha(b.sha) || b.sha in seen || b.size < 0 {
        return false;
      }
      seen := seen + {b.sha};
      total := total + b.size;
    }
    assert m.blobs[..|m.blobs|] == m.blobs;
    return total == m.totalBytes;
  }

  predicate BySha(a: Entry, b: Entry) {
    Less(a.sha, b.sha)
  }

  // m lists exactly the live blobs, in order, with their sizes, and pins the database.
  ghost predicate Describes(m: Manifest, live: set<string>, blobs: Blobs, dbSha: string) {
    && m.formatVersion == FORMAT_VERSION && m.dbFile == DB_FILE && m.dbSha == dbSha
    && m.blobCount == |m.blobs| && m.totalBytes == Total(m.blobs)
    && Distinct(m.blobs) && Ordered(m.blobs, BySha)
    && (forall b :: b in m.blobs ==> b.sha in live && b.sha in blobs && b.size == |blobs[b.sha]|)
    && (forall sha :: sha in live ==> sha in blobs && Entry(sha, |blobs[sha]|) in m.blobs)
  }

  // The manifest of an export; None when the copy lacks a live blob.
  method BuildManifest(live: set<string>, blobs: Blobs, dbSha: string) returns (r: Option<Manifest>)
    ensures r.None? <==> exists sha :: sha in live && (!IsSha(sha) || sha !in blobs)
    ensures r.Some? ==> Describes(r.value, live, blobs, dbSha)
  {
    var entries: seq<Entry> := [];
    var rest := live;
    while rest != {}
      invariant rest <= live
      invariant forall b :: b in entries ==> b.sha in live - rest && b.sha in blobs && b.size == |blobs[b.sha]|
      invariant forall sha :: sha in live - rest ==> IsSha(sha) && sha in blobs && Entry(sha, |blobs[sha]|) in entries
      invariant Distinct(entries)
    {
      var sha :| sha in rest;
      if !IsSha(sha) || sha !in blobs {
        return None;
      }
      var b := Entry(sha, |blobs[sha]|);
      assert b !in entries;
      entries := entries + [b];
      rest := rest - {sha};
    }
    var sorted := Sort(entries, BySha);
    SortedEntries(entries, blobs);
    var total := 0;
    for i := 0 to |sorted|
      invariant total == Total(sorted[..i])
    {
      assert sorted[..i + 1][..i] == sorted[..i];
      total := total + sorted[i].size;
    }
    assert sorted[..|sorted|] == sorted;
    return Some(Manifest(FORMAT_VERSION, |sorted|, total, DB_FILE, dbSha, sorted));
  }

  lemma SortedEntries(entries: seq<Entry>, blobs: Blobs)
    requires Distinct(entries)
    requires forall b :: b in entries ==> b.sha in blobs && b.size == |blobs[b.sha]|
    ensures var sorted := Sort(entries, BySha);
            Distinct(sorted) && Ordered(sorted, BySha) && forall b :: b in sorted <==> b in entries
  {
    SortKeeps(entries, BySha);
    DistinctPermutes(entries, Sort(entries, BySha));
    ByShaStrict();
    forall x, y | x in entries && y in entries && x != y ensures BySha(x, y) || BySha(y, x) {
      LessTotal(x.sha, y.sha);
    }
    SortOrders(entries, BySha);
  }

  lemma ByShaStrict()
    ensures Strict<Entry>(BySha)
  {
    forall x: Entry, y: Entry | BySha(x, y) ensures !BySha(y, x) {
      LessAsymmetric(x.sha, y.sha);
    }
    forall x: Entry, y: Entry, z: Entry | BySha(x, y) && BySha(y, z) ensures BySha(x, z) {
      LessTransitive(x.sha, y.sha, z.sha);
    }
  }

  lemma DbFileIsBare()
    ensures BareName(DB_FILE)
  {
    assert forall i :: 0 <= i < |DB_FILE| ==> DB_FILE[i] != '/';
  }

  // A manifest an export writes is one an import loads.
  lemma DescribesIsValid(m: Manifest, live: set<string>, blobs: Blobs, dbSha: string)
    requires Describes(m, live, blobs, dbSha) && IsSha(dbSha)
    requires forall sha :: sha in live ==> IsSha(sha)
    ensures ValidManifest(m)
  {
    DbFileIsBare();
    forall i, j | 0 <= i < j < |m.blobs| ensures m.blobs[i].sha != m.blobs[j].sha {
      assert m.blobs[i] in m.blobs && m.blobs[j] in m.blobs;
    }
  }

  // ---- verification -------------------------------------------------------------------------

  datatype Mode = Spot | Full

  function HashLimit(m: Manifest, mode: Mode): nat {
    if mode == Spot && |m.blobs| > SPOT_COUNT then SPOT_COUNT else |m.blobs|
  }

  // Entry i names a blob of the recorded size, and, when it is to be hashed, of the
  // recorded digest.
  predicate EntryHolds(d: Digests, blobs: Blobs, unreadable: set<string>, b: Entry, hashIt: bool) {
    && b.sha in blobs && |blobs[b.sha]| == b.size
    && (hashIt ==> b.sha !in unreadable && d.ofBlob(blobs[b.sha]) == b.sha)
  }

  predicate Verifies(d: Digests, blobs: Blobs, unreadable: set<string>, m: Manifest, mode: Mode) {
    forall i :: 0 <= i < |m.blobs| ==> EntryHolds(d, blobs, unreadable, m.blobs[i], i < HashLimit(m, mode))
  }

  method VerifyBackupBlobs(d: Digests, blobs: Blobs, unreadable: set<string>, m: Manifest, mode: Mode)
    returns (hashed: nat, ok: bool)
    ensures ok <==> Verifies(d, blobs, unreadable, m, mode)
    ensures ok ==> hashed == HashLimit(m, mode)
  {
    var limit := |m.blobs|;
    if mode == Spot && limit > SPOT_COUNT {
      limit := SPOT_COUNT;
    }
    hashed := 0;
    for i := 0 to |m.blobs|
      invariant hashed == if i < limit then i else limit
      invariant forall k :: 0 <= k < i ==> EntryHolds(d, blobs, unreadable, m.blobs[k], k < limit)
    {
      var b := m.blobs[i];
      if b.sha !in blobs || |blobs[b.sha]| != b.size {
        return hashed, false;
      }
      if i < limit {
        if b.sha in unreadable || d.ofBlob(blobs[b.sha]) != b.sha {
          return hashed, false;
        }
        hashed := hashed + 1;
      }
    }
    return hashed, true;
  }

  // What an export seals passes verification in either mode.
  lemma DescribedVerifies(d: Digests, blobs: Blobs, m: Manifest, live: set<string>, dbSha: string, mode: Mode)
    requires ContentAddressed(d, blobs) && Describes(m, live, blobs, dbSha)
    ensures Verifies(d, blobs, {}, m, mode)
  {
    forall i | 0 <= i < |m.blobs| ensures EntryHolds(d, blobs, {}, m.blobs[i], i < HashLimit(m, mode)) {
      assert m.blobs[i] in m.blobs;
    }
  }

  // Some manifest describes any copy that holds all live blobs.
  lemma ManifestExists(live: set<string>, blobs: Blobs, dbSha: string) returns (m: Manifest)
    requires live <= blobs.Keys
    ensures Describes(m, live, blobs, dbSha)
  {
    var entries := ListEntries(live, blobs);
    var sorted := Sort(entries, BySha);
    SortedEntries(entries, blobs);
    m := Manifest(FORMAT_VERSION, |sorted|, Total(sorted), DB_FILE, dbSha, sorted);
  }

  lemma {:induction false} ListEntries(live: set<string>, blobs: Blobs) returns (entries: seq<Entry>)
    requires live <= blobs.Keys
    ensures Distinct(entries)
    ensures forall b :: b in entries <==> b.sha in live && b.sha in blobs && b.size == |blobs[b.sha]|
  {
    entries := [];
    if live != {} {
      var sha :| sha in live;
      var rest := ListEntries(live - {sha}, blobs);
      entries := [Entry(sha, |blobs[sha]|)] + rest;
    }
  }

  // ---- the rules, entry by entry -----------------------------------------------------------

  // 64 lower-case hexadecimal digits.
  predicate Hex64(s: string) {
    |s| == 64 &&
    forall i :: 0 <= i < |s| ==>
      s[i] in {'0', '1', '2', '3', '4', '5', '6', '7', '8', '9', 'a', 'b', 'c', 'd', 'e', 'f'}
  }

  function Sum(entries: seq<Entry>): int {
    if entries == [] then 0 else entries[0].size + Sum(entries[1..])
  }

  lemma {:induction false} TotalIsSum(entries: seq<Entry>)
    ensures Total(entries) == Sum(entries)
    decreases |entries|
  {
    if |entries| == 1 {
      assert entries[..0] == [] && entries[1..] == [];
    } else if |entries| > 1 {
      var init, tail := entries[..|entries| - 1], entries[1..];
      TotalIsSum(init);
      TotalIsSum(tail);
      TotalIsSum(init[1..]);
      assert init[1..] == tail[..|tail| - 1];
    }
  }

  /** A manifest is valid exactly when its version is the one this build writes, its
      database file is a bare name with a well-formed digest, and its entries are as many
      and as large together as it says, well formed, and all different. */
  lemma ManifestExactly(m: Manifest)
    ensures ValidManifest(m) <==>
            && m.formatVersion == 1
            && m.dbFile != "" && (m.dbFile == "/" || forall i :: 0 <= i < |m.dbFile| ==> m.dbFile[i] != '/')
            && m.dbFile != "." && m.dbFile != ".." && Hex64(m.dbSha)
            && m.blobCount == |m.blobs| && m.totalBytes == Sum(m.blobs)
            && (forall i :: 0 <= i < |m.blobs| ==> Hex64(m.blobs[i].sha) && m.blobs[i].size >= 0)
            && (forall i, j :: 0 <= i < j < |m.blobs| ==> m.blobs[i].sha != m.blobs[j].sha)
  {
    TotalIsSum(m.blobs);
    HexIsSha(m.dbSha);
    forall i | 0 <= i < |m.blobs| ensures IsSha(m.blobs[i].sha) <==> Hex64(m.blobs[i].sha) {
      HexIsSha(m.blobs[i].sha);
    }
  }

  lemma HexIsSha(s: string)
    ensures IsSha(s) <==> Hex64(s)
  {
  }

  /** Verification passes exactly when every entry's file is there with its size, and the
      first hundred, or all, can be read and have their digest. */
  lemma VerifiesExactly(d: Digests, blobs: Blobs, unreadable: set<string>, m: Manifest, mode: Mode)
    ensures Verifies(d, blobs, unreadable, m, mode) <==>
            && (forall i :: 0 <= i < |m.blobs| ==>
                  m.blobs[i].sha in blobs && |blobs[m.blobs[i].sha]| == m.blobs[i].size)
            && (forall i :: 0 <= i < |m.blobs| && (i < 100 || mode == Full) ==>
                  m.blobs[i].sha in blobs && m.blobs[i].sha !in unreadable &&
                  d.ofBlob(blobs[m.blobs[i].sha]) == m.blobs[i].sha)
  {
  }

  /** A manifest describes a copy exactly when it is of this format, pins the database under
      its name, and lists the live blobs and no others, in digest order, each once, with
      its size, and their number and sum. */
  lemma DescribesExactly(m: Manifest, live: set<string>, blobs: Blobs, dbSha: string)
    requires Describes(m, live, blobs, dbSha)
    ensures m.formatVersion == 1 && m.dbFile == "metadata.db" && m.dbSha == dbSha
    ensures m.blobCount == |m.blobs| && m.totalBytes == Sum(m.blobs)
    ensures forall i, j :: 0 <= i < j < |m.blobs| ==> Less(m.blobs[i].sha, m.blobs[j].sha)
    ensures forall i :: 0 <= i < |m.blobs| ==>
              m.blobs[i].sha in live && m.blobs[i].sha in blobs && m.blobs[i].size == |blobs[m.blobs[i].sha]|
    ensures forall sha :: sha in live ==> exists i :: 0 <= i < |m.blobs| && m.blobs[i].sha == sha
  {
    TotalIsSum(m.blobs);
    forall i | 0 <= i < |m.blobs|
      ensures m.blobs[i].sha in live && m.blobs[i].sha in blobs && m.blobs[i].size == |blobs[m.blobs[i].sha]|
    {
      assert m.blobs[i] in m.blobs;
    }
    forall i, j | 0 <= i < j < |m.blobs| ensures Less(m.blobs[i].sha, m.blobs[j].sha) {
      assert m.blobs[i] != m.blobs[j] && !BySha(m.blobs[j], m.blobs[i]);
      LessTotal(m.blobs[i].sha, m.blobs[j].sha);
    }
    forall sha | sha in live ensures exists i :: 0 <= i < |m.blobs| && m.blobs[i].sha == sha {
      assert Entry(sha, |blobs[sha]|) in m.blobs;
    }
  }
}
