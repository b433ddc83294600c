/** The import run (cmd/binflow-server/backup.go): verification, the write phase with a
    failure possible at every step, cleanup, and the way back from a finished export. */
module Import {
  import opened Text
  import opened BackupFormat
  import opened EngineUpload
  import Export

  // A top-level entry of the data directory; the lock file is not listed.
  datatype Item = DbFile(db: Database) | Tree(blobs: Blobs)

  const BLOBS_NAME := "blobs"

  // The instance restored into: its data directory, the database file outside of it (if
  // it is configured there), and its storage engine.
  datatype Target = Target(dir: map<string, Item>, external: Option<Database>, engine: Blobs)

  // migrate is what opening and auditing make of a restored database.
  datatype Config = Config(outside: bool, dbName: string, engineBacked: bool, mode: Mode, latestSchema: int,
                           digests: Digests, migrate: Database -> Database)

  /** Which calls fail. copyDb and open carry the file a failing call leaves behind, tree
      the blobs already copied; stuck are the entries the cleanup cannot remove. */
  datatype Faults = Faults(lock: bool, readDir: bool, readManifest: bool, readDb: bool, readSchema: bool,
                           unreadable: set<string>, resolve: bool, statExternal: bool,
                           mkdir: bool, copyDb: Option<Option<Database>>, open: Option<Option<Database>>,
                           openEngine: bool, upload: UploadFaults, tree: Option<set<string>>, chmod: bool,
                           cleanupReadDir: bool, stuck: set<string>, stuckExternal: bool)

  datatype Outcome = Complete | RefusedEarly | RolledBack

  // ---- the run as a function ------------------------------------------------------------------

  // Everything the backup claims is true, as far as the mode checks it.
  predicate Acceptable(c: Config, a: Artifact, f: Faults) {
    && !f.readManifest && a.manifest.Some? && ValidManifest(a.manifest.value)
    && !f.readDb && NamedDb(a).Some? && c.digests.ofDb(NamedDb(a).value) == a.manifest.value.dbSha
    && !f.readSchema && NamedDb(a).value.schema <= c.latestSchema
    && Verifies(c.digests, a.blobs, f.unreadable, a.manifest.value, c.mode)
  }

  function PlaceDb(t: Target, c: Config, db: Option<Database>): Target {
    if c.outside then t.(external := db)
    else if db.None? then t
    else t.(dir := t.dir[c.dbName := DbFile(db.value)])
  }

  // The well-formed blobs of a tree, which are all a copy takes.
  function WellFormed(blobs: Blobs): Blobs {
    map sha | sha in blobs && IsSha(sha) :: blobs[sha]
  }

  function PlaceTree(t: Target, blobs: Blobs): Target {
    if blobs == map[] then t else t.(dir := t.dir[BLOBS_NAME := Tree(blobs)])
  }

  // The database file stands where the blob tree would have to go.
  predicate Clash(a: Artifact, c: Config) {
    !c.outside && c.dbName == BLOBS_NAME && WellFormed(a.blobs) != map[]
  }

  // The write phase, up to its first failure.
  function Written(t: Target, a: Artifact, c: Config, f: Faults): (Target, bool)
    requires a.manifest.Some? && NamedDb(a).Some?
  {
    if f.mkdir then (t, false)
    else if f.copyDb.Some? then (PlaceDb(t, c, f.copyDb.value), false)
    else if f.open.Some? then (PlaceDb(t, c, f.open.value), false)
    else
      var t1 := PlaceDb(t, c, Some(c.migrate(NamedDb(a).value)));
      if c.engineBacked then
        if f.openEngine then (t1, false)
        else
          var entries := a.manifest.value.blobs;
          (t1.(engine := EngineAfter(c.digests, t.engine, a.blobs, entries, f.upload)),
           !Uploaded(c.digests, t.engine, a.blobs, entries, f.upload, |entries|).failed && !f.chmod)
      else if Clash(a, c) then (t1, false)
      else if f.tree.Some? then
        (PlaceTree(t1, map sha | sha in WellFormed(a.blobs) && sha in f.tree.value :: a.blobs[sha]), false)
      else (PlaceTree(t1, WellFormed(a.blobs)), !f.chmod)
  }

  // cleanupFailedImport
  function CleanedUp(t: Target, c: Config, f: Faults): Target {
    t.(dir := if f.cleanupReadDir then t.dir else map name | name in t.dir && name in f.stuck :: t.dir[name],
       external := if c.outside && !f.stuckExternal then None else t.external)
  }

  predicate Proceeds(t: Target, a: Artifact, c: Config, f: Faults) {
    && !f.lock && !f.readDir && t.dir == map[] && Acceptable(c, a, f)
    && !f.resolve && (c.outside ==> t.external.None? && !f.statExternal)
  }

  function ImportStep(t: Target, a: Artifact, c: Config, f: Faults): (Target, Outcome) {
    if !Proceeds(t, a, c, f) then (t, RefusedEarly)
    else
      var (t1, ok) := Written(t, a, c, f);
      if ok then (t1, Complete) else (CleanedUp(t1, c, f), RolledBack)
  }

  // ---- the run as written ------------------------------------------------------------------------

  class Instance {
    var dir: map<string, Item>
    var external: Option<Database>
    const engine: Engine

    ghost function Now(): Target
      reads this, engine
    {
      Target(dir, external, engine.blobs)
    }

    constructor (dir: map<string, Item>, external: Option<Database>, engine: Engine)
      ensures this.dir == dir && this.external == external && this.engine == engine
    {
      this.dir, this.external, this.engine := dir, external, engine;
    }

    method RunImport(a: Artifact, c: Config, f: Faults) returns (outcome: Outcome)
      modifies this, engine
      ensures (Now(), outcome) == ImportStep(old(Now()), a, c, f)
    {
      if f.lock || f.readDir || dir != map[] {
        return RefusedEarly;
      }
      var acceptable := Verify(a, c, f);
      if !acceptable {
        return RefusedEarly;
      }
      if f.resolve {
        return RefusedEarly;
      }
      if c.outside {
        if external.Some? || f.statExternal {
          return RefusedEarly;
        }
      }
      var ok := Write(a, c, f);
      if !ok {
        CleanUp(c, f);
        return RolledBack;
      }
      return Complete;
    }

    method Verify(a: Artifact, c: Config, f: Faults) returns (ok: bool)
      ensures ok <==> Acceptable(c, a, f)
    {
      if f.readManifest || a.manifest.None? {
        return false;
      }
      var manifest := a.manifest.value;
      ok := Validate(manifest);
      if !ok || f.readDb || NamedDb(a).None? || c.digests.ofDb(NamedDb(a).value) != manifest.dbSha {
        return false;
      }
      if f.readSchema || NamedDb(a).value.schema > c.latestSchema {
        return false;
      }
      var hashed;
      hashed, ok := VerifyBackupBlobs(c.digests, a.blobs, f.unreadable, manifest, c.mode);
    }

    method PutDb(c: Config, db: Option<Database>)
      modifies this
      ensures Now() == PlaceDb(old(Now()), c, db)
    {
      if c.outside {
        external := db;
      } else if db.Some? {
        dir := dir[c.dbName := DbFile(db.value)];
      }
    }

    method Write(a: Artifact, c: Config, f: Faults) returns (ok: bool)
      requires a.manifest.Some? && NamedDb(a).Some?
      modifies this, engine
      ensures (Now(), ok) == Written(old(Now()), a, c, f)
    {
      if f.mkdir {
        return false;
      }
      if f.copyDb.Some? {
        PutDb(c, f.copyDb.value);
        return false;
      }
      if f.open.Some? {
        PutDb(c, f.open.value);
        return false;
      }
      PutDb(c, Some(c.migrate(NamedDb(a).value)));
      if c.engineBacked {
        if f.openEngine {
          return false;
        }
        ok := engine.ImportBlobs(c.digests, a.blobs, a.manifest.value.blobs, f.upload);
        if !ok {
          return false;
        }
      } else {
        var copied := WellFormed(a.blobs);
        if copied != map[] && !c.outside && c.dbName == BLOBS_NAME {
          return false;
        }
        if f.tree.Some? {
          copied := map sha | sha in copied && sha in f.tree.value :: a.blobs[sha];
        }
        if copied != map[] {
          dir := dir[BLOBS_NAME := Tree(copied)];
        }
        if f.tree.Some? {
          return false;
        }
      }
      return !f.chmod;
    }

    method CleanUp(c: Config, f: Faults)
      modifies this
      ensures Now() == CleanedUp(old(Now()), c, f)
    {
      if !f.cleanupReadDir {
        var rest := dir.Keys;
        while rest != {}
          invariant rest <= old(dir).Keys
          invariant dir == map name | name in old(dir) && (name in rest || name in f.stuck) :: old(dir)[name]
          invariant external == old(external) && engine.blobs == old(engine.blobs)
        {
          var name :| name in rest;
          rest := rest - {name};
          if name !in f.stuck {
            dir := dir - {name};
          }
        }
      }
      if c.outside && !f.stuckExternal {
        external := None;
      }
    }
  }

  // ---- what is let in -----------------------------------------------------------------------------

  // The database file the manifest names, by its name.
  ghost predicate HoldsDb(a: Artifact, file: string, db: Database) {
    if file == "metadata.db" then a.db == Some(db) else file in a.others && a.others[file] == db
  }

  /** An import goes past its checks exactly when the lock is free and the directory empty;
      the manifest can be read and obeys its rules; the database it names is there, has the
      recorded digest and no newer schema; every blob has its size, and the first hundred,
      or all, their digest; and a database outside the directory is not there yet. Otherwise
      it is refused and the target is untouched. */
  lemma AdmittedExactly(t: Target, a: Artifact, c: Config, f: Faults)
    ensures ImportStep(t, a, c, f).1 != RefusedEarly <==>
            && !f.lock && !f.readDir && t.dir == map[]
            && !f.readManifest && a.manifest.Some?
            && var m := a.manifest.value;
            && m.formatVersion == 1
            && m.dbFile != "" && (m.dbFile == "/" || forall i :: 0 <= i < |m.dbFile| ==> m.dbFile[i] != '/')
            && m.dbFile != "." && m.dbFile != ".." && Hex64(m.dbSha)
            && m.blobCount == |m.blobs| && m.totalBytes == Sum(m.blobs)
            && (forall i :: 0 <= i < |m.blobs| ==> Hex64(m.blobs[i].sha) && m.blobs[i].size >= 0)
            && (forall i, j :: 0 <= i < j < |m.blobs| ==> m.blobs[i].sha != m.blobs[j].sha)
            && !f.readDb && !f.readSchema
            && (exists db :: HoldsDb(a, m.dbFile, db) && c.digests.ofDb(db) == m.dbSha && db.schema <= c.latestSchema)
            && (forall i :: 0 <= i < |m.blobs| ==>
                  m.blobs[i].sha in a.blobs && |a.blobs[m.blobs[i].sha]| == m.blobs[i].size)
            && (forall i :: 0 <= i < |m.blobs| && (i < 100 || c.mode == Full) ==>
                  m.blobs[i].sha in a.blobs && m.blobs[i].sha !in f.unreadable &&
                  c.digests.ofBlob(a.blobs[m.blobs[i].sha]) == m.blobs[i].sha)
            && !f.resolve && (c.outside ==> t.external.None? && !f.statExternal)
    ensures ImportStep(t, a, c, f).1 == RefusedEarly ==> ImportStep(t, a, c, f).0 == t
  {
    ProceedsUnlessRefused(t, a, c, f);
    if a.manifest.Some? {
      var m := a.manifest.value;
      ManifestExactly(m);
      VerifiesExactly(c.digests, a.blobs, f.unreadable, m, c.mode);
      if NamedDb(a).Some? {
        assert HoldsDb(a, m.dbFile, NamedDb(a).value);
      }
    }
  }

  lemma ProceedsUnlessRefused(t: Target, a: Artifact, c: Config, f: Faults)
    ensures ImportStep(t, a, c, f).1 != RefusedEarly <==> Proceeds(t, a, c, f)
    ensures ImportStep(t, a, c, f).1 == RefusedEarly ==> ImportStep(t, a, c, f).0 == t
  {
  }

  /** An admitted import completes exactly when no call of its write phase fails: the
      database is copied and opened; with an engine it opens and no entry is refused; with a
      tree the copy goes through and the database does not stand in its place; and the
      directory takes its permissions. */
  lemma CompleteExactly(t: Target, a: Artifact, c: Config, f: Faults)
    requires ImportStep(t, a, c, f).1 != RefusedEarly
    ensures ImportStep(t, a, c, f).1 == Complete <==>
            && !f.mkdir && f.copyDb.None? && f.open.None? && !f.chmod
            && (if c.engineBacked then
                  && !f.openEngine
                  && forall k: nat :: !FirstStop(c.digests, t.engine, a.blobs, a.manifest.value.blobs, f.upload, k)
                else
                  && f.tree.None?
                  && (c.outside || c.dbName != "blobs" || forall sha :: sha in a.blobs ==> !IsSha(sha)))
  {
    ProceedsUnlessRefused(t, a, c, f);
    UploadFailsExactly(c.digests, t.engine, a.blobs, a.manifest.value.blobs, f.upload);
    assert WellFormed(a.blobs) == map[] <==> forall sha :: sha in a.blobs ==> !IsSha(sha) by {
      if sha :| sha in a.blobs && IsSha(sha) {
        assert sha in WellFormed(a.blobs);
      }
    }
  }

  // ---- two outcomes ----------------------------------------------------------------------------

  /** An import that is refused early changes nothing. One that fails while writing leaves
      the data directory with nothing but the entries its cleanup could not remove, and an
      external database exactly as it was unless its removal failed. */
  lemma FailureLeavesTarget(t: Target, a: Artifact, c: Config, f: Faults)
    ensures var (t', outcome) := ImportStep(t, a, c, f);
            && (outcome == RefusedEarly ==> t' == t)
            && (outcome == RolledBack ==>
                  && t.dir == map[] && (!f.cleanupReadDir ==> t'.dir.Keys <= f.stuck)
                  && (t'.external == t.external || (c.outside && f.stuckExternal)))
  {
  }

  // The cleanup meets no fault of its own.
  predicate CleanupWorks(f: Faults) {
    !f.cleanupReadDir && f.stuck == {} && !f.stuckExternal
  }

  // What a completed import put where.
  lemma CompletePlaces(t: Target, a: Artifact, c: Config, f: Faults)
    requires ImportStep(t, a, c, f).1 == Complete
    ensures var t', db := ImportStep(t, a, c, f).0, c.migrate(NamedDb(a).value);
            && (if c.outside then t'.external == Some(db) else c.dbName in t'.dir && t'.dir[c.dbName] == DbFile(db))
            && (!c.engineBacked ==>
                  WellFormed(a.blobs) != map[] ==>
                    BLOBS_NAME in t'.dir && t'.dir[BLOBS_NAME] == Tree(WellFormed(a.blobs)))
            && (c.engineBacked ==>
                  t'.engine == EngineAfter(c.digests, t.engine, a.blobs, a.manifest.value.blobs, f.upload))
            && (forall name :: name in t'.dir ==> name == BLOBS_NAME || (name == c.dbName && !c.outside))
  {
  }

  // The database and the blobs a restored instance serves.
  function ServedDb(t: Target, c: Config): Option<Database> {
    if c.outside then t.external
    else if c.dbName in t.dir && t.dir[c.dbName].DbFile? then Some(t.dir[c.dbName].db)
    else None
  }

  function ServedBlobs(t: Target, c: Config): Blobs {
    if c.engineBacked then t.engine
    else if BLOBS_NAME in t.dir && t.dir[BLOBS_NAME].Tree? then t.dir[BLOBS_NAME].blobs
    else map[]
  }

  // The content a completed import serves for a manifest entry: an engine keeps what it
  // had, anything else comes from the backup.
  function ServedContent(t: Target, a: Artifact, c: Config, sha: string): string
    requires sha in a.blobs
  {
    if c.engineBacked && sha in t.engine then t.engine[sha] else a.blobs[sha]
  }

  ghost predicate ServesManifest(t: Target, a: Artifact, c: Config, t': Target)
    requires a.manifest.Some?
  {
    forall b :: b in a.manifest.value.blobs ==>
      && b.sha in a.blobs && b.sha in ServedBlobs(t', c)
      && ServedBlobs(t', c)[b.sha] == ServedContent(t, a, c, b.sha)
  }

  // A completed import serves every blob of the manifest.
  lemma CompleteServes(t: Target, a: Artifact, c: Config, f: Faults)
    requires ImportStep(t, a, c, f).1 == Complete
    ensures ServesManifest(t, a, c, ImportStep(t, a, c, f).0)
  {
    var m := a.manifest.value;
    CompletePlaces(t, a, c, f);
    forall b | b in m.blobs
      ensures b.sha in a.blobs && b.sha in ServedBlobs(ImportStep(t, a, c, f).0, c)
      ensures ServedBlobs(ImportStep(t, a, c, f).0, c)[b.sha] == ServedContent(t, a, c, b.sha)
    {
      EntryInBackup(c, a, f, b);
      if c.engineBacked {
        UploadRestoresAll(c.digests, t.engine, a.blobs, m.blobs, f.upload);
      } else {
        assert b.sha in WellFormed(a.blobs);
      }
    }
  }

  lemma EntryInBackup(c: Config, a: Artifact, f: Faults, b: Entry)
    requires Acceptable(c, a, f) && b in a.manifest.value.blobs
    ensures b.sha in a.blobs && IsSha(b.sha) && |a.blobs[b.sha]| == b.size
  {
    var m := a.manifest.value;
    var i :| 0 <= i < |m.blobs| && m.blobs[i] == b;
    assert EntryHolds(c.digests, a.blobs, f.unreadable, m.blobs[i], i < HashLimit(m, c.mode));
  }

  /** All or nothing, for every failure point: the import restores everything — the
      database of the backup, migrated, and every blob of the manifest — or leaves
      directory and external database as it found them. */
  lemma AllOrNothing(t: Target, a: Artifact, c: Config, f: Faults)
    requires CleanupWorks(f)
    ensures var (t', outcome) := ImportStep(t, a, c, f);
            if outcome == Complete then
              && t.dir == map[] && Acceptable(c, a, f)
              && ServedDb(t', c) == Some(c.migrate(NamedDb(a).value))
              && ServesManifest(t, a, c, t')
              && (if c.outside then t.external.None? else t'.external == t.external)
              && (!c.engineBacked ==> t'.engine == t.engine)
            else t'.dir == t.dir && t'.external == t.external
  {
    if ImportStep(t, a, c, f).1 == Complete {
      CompletePlaces(t, a, c, f);
      CompleteServes(t, a, c, f);
    }
  }

  // The blob of manifest entry i is served with the content its digest names.
  ghost predicate CarriesDigest(t': Target, a: Artifact, c: Config, i: nat)
    requires a.manifest.Some? && i < |a.manifest.value.blobs|
  {
    var sha, served := a.manifest.value.blobs[i].sha, ServedBlobs(t', c);
    sha in served && c.digests.ofBlob(served[sha]) == sha
  }

  /** Which blobs of a completed import carry their digest. With a storage engine: all but
      those it already held under that name with other content. With a tree: those whose
      file in the backup does, which the verification has made sure of for the first 100,
      and under --verify full for all. */
  lemma DigestsExactly(t: Target, a: Artifact, c: Config, f: Faults, i: nat)
    requires ImportStep(t, a, c, f).1 == Complete && i < |a.manifest.value.blobs|
    ensures var sha := a.manifest.value.blobs[i].sha;
            CarriesDigest(ImportStep(t, a, c, f).0, a, c, i) <==>
            if c.engineBacked then sha !in t.engine || c.digests.ofBlob(t.engine[sha]) == sha
            else c.digests.ofBlob(a.blobs[sha]) == sha
    ensures !c.engineBacked && i < HashLimit(a.manifest.value, c.mode) ==>
              CarriesDigest(ImportStep(t, a, c, f).0, a, c, i)
  {
    var m := a.manifest.value;
    assert m.blobs[i] in m.blobs;
    CompleteServes(t, a, c, f);
    if c.engineBacked {
      UploadRestoresAll(c.digests, t.engine, a.blobs, m.blobs, f.upload);
    } else {
      assert EntryHolds(c.digests, a.blobs, f.unreadable, m.blobs[i], i < HashLimit(m, c.mode));
    }
  }

  // The upload of a rolled-back import that came that far.
  predicate ReachedUpload(c: Config, f: Faults) {
    c.engineBacked && !f.mkdir && f.copyDb.None? && f.open.None? && !f.openEngine
  }

  /** The storage engine after a rolled-back import is as it was exactly when the upload was
      never reached; or some entry is refused, the first of them before its commit, and
      every new entry before it can be deleted again; or none is refused and none is new:
      an upload that succeeds is not undone by a later failure. */
  lemma EngineUndoneExactly(t: Target, a: Artifact, c: Config, f: Faults)
    requires ImportStep(t, a, c, f).1 == RolledBack
    ensures var d, entries := c.digests, a.manifest.value.blobs;
            ImportStep(t, a, c, f).0.engine == t.engine <==>
              || !ReachedUpload(c, f)
              || (exists k: nat :: FirstStop(d, t.engine, a.blobs, entries, f.upload, k) &&
                                   StopsBefore(d, t.engine, a.blobs, entries[k], k, f.upload) &&
                                   Deletable(t.engine, entries, f.upload, k))
              || ((forall k: nat :: !FirstStop(d, t.engine, a.blobs, entries, f.upload, k)) &&
                  (forall i :: 0 <= i < |entries| ==> entries[i].sha in t.engine))
  {
    if ReachedUpload(c, f) {
      var d, entries := c.digests, a.manifest.value.blobs;
      var k := FindFirstStop(d, t.engine, a.blobs, entries, f.upload, |entries|);
      if k.Some? {
        RollbackExact(d, t.engine, a.blobs, entries, f.upload, k.value);
        forall j: nat | FirstStop(d, t.engine, a.blobs, entries, f.upload, j) ensures j == k.value {
          OneFirstStop(d, t.engine, a.blobs, entries, f.upload, j, k.value);
        }
      } else {
        UploadFailsExactly(d, t.engine, a.blobs, entries, f.upload);
        UploadedNothingNew(d, t.engine, a.blobs, entries, f.upload);
      }
    }
  }

  lemma OneFirstStop(d: Digests, engine: Blobs, backup: Blobs, entries: seq<Entry>, f: UploadFaults, j: nat, k: nat)
    requires FirstStop(d, engine, backup, entries, f, j) && FirstStop(d, engine, backup, entries, f, k)
    ensures j == k
  {
  }

  // A successful upload leaves the engine as it was exactly when it had every entry.
  lemma UploadedNothingNew(d: Digests, engine: Blobs, backup: Blobs, entries: seq<Entry>, f: UploadFaults)
    requires !Uploaded(d, engine, backup, entries, f, |entries|).failed
    ensures EngineAfter(d, engine, backup, entries, f) == engine <==>
            forall i :: 0 <= i < |entries| ==> entries[i].sha in engine
  {
    UploadRestoresAll(d, engine, backup, entries, f);
    var after := EngineAfter(d, engine, backup, entries, f);
    if i :| 0 <= i < |entries| && entries[i].sha !in engine {
      assert entries[i] in entries;
      assert entries[i].sha in after;
    } else {
      assert forall b :: b in entries ==> b.sha in engine;
      assert after.Keys == engine.Keys;
    }
  }

  // ---- there and back ------------------------------------------------------------------------------

  predicate FaultFree(f: Faults) {
    && !f.lock && !f.readDir && !f.readManifest && !f.readDb && !f.readSchema && f.unreadable == {}
    && !f.resolve && !f.statExternal && !f.mkdir && f.copyDb.None? && f.open.None? && !f.openEngine
    && f.upload == NO_UPLOAD_FAULTS && f.tree.None? && !f.chmod
  }

  // A target an import may restore into.
  predicate Fresh(t: Target, c: Config) {
    t.dir == map[] && (c.outside ==> t.external.None?) && c.dbName != BLOBS_NAME
  }

  // A backup as a finished export leaves it.
  ghost predicate Whole(d: Digests, a: Artifact) {
    && a.db.Some? && a.manifest.Some? && a.db.value.refs <= a.blobs.Keys
    && ContentAddressed(d, a.blobs) && IsSha(d.ofDb(a.db.value))
    && Describes(a.manifest.value, a.db.value.refs, a.blobs, d.ofDb(a.db.value))
  }

  lemma WholeCompletes(t: Target, a: Artifact, c: Config, f: Faults)
    requires Fresh(t, c) && FaultFree(f) && Whole(c.digests, a) && a.db.value.schema <= c.latestSchema
    ensures ImportStep(t, a, c, f).1 == Complete
  {
    var m, refs := a.manifest.value, a.db.value.refs;
    DescribesIsValid(m, refs, a.blobs, c.digests.ofDb(a.db.value));
    DescribedVerifies(c.digests, a.blobs, m, refs, c.digests.ofDb(a.db.value), c.mode);
    DescribedVerifies(c.digests, a.blobs, m, refs, c.digests.ofDb(a.db.value), Full);
    UploadSucceeds(c.digests, t.engine, a.blobs, m.blobs, |m.blobs|);
  }

  lemma TreeServes(t: Target, a: Artifact, c: Config, f: Faults)
    requires Fresh(t, c) && ImportStep(t, a, c, f).1 == Complete && !c.engineBacked
    ensures ServedBlobs(ImportStep(t, a, c, f).0, c) == WellFormed(a.blobs)
  {
    CompletePlaces(t, a, c, f);
  }

  lemma EngineServes(t: Target, a: Artifact, c: Config, f: Faults, sha: string)
    requires Whole(c.digests, a) && ImportStep(t, a, c, f).1 == Complete && c.engineBacked
    requires ContentAddressed(c.digests, t.engine) && sha in a.db.value.refs
    ensures var served := ServedBlobs(ImportStep(t, a, c, f).0, c);
            sha in served && c.digests.ofBlob(served[sha]) == sha
  {
    var entries := a.manifest.value.blobs;
    UploadRestoresAll(c.digests, t.engine, a.blobs, entries, f.upload);
    assert Entry(sha, |a.blobs[sha]|) in entries;
  }

  /** Restoring a finished export, whatever went on while it was taken, gives an instance
      whose database references exactly what the source referenced at the snapshot, and
      which serves every one of those blobs with the right content. */
  lemma ExportThenImport(e: Export.Config, steps: seq<Export.Step>, states: seq<Export.Sys>, i: nat,
                         t: Target, c: Config, f: Faults) returns (j: nat)
    requires e.order == Export.SnapshotFirst && Export.IsRun(e, steps, states)
    requires i < |states| && states[i].phase == Export.Done
    requires e.digests == c.digests && forall db :: IsSha(c.digests.ofDb(db)) && c.migrate(db).refs == db.refs
    requires Fresh(t, c) && FaultFree(f) && (c.engineBacked ==> ContentAddressed(c.digests, t.engine))
    requires states[i].artifact.db.Some? ==> states[i].artifact.db.value.schema <= c.latestSchema
    ensures Export.TakenAt(steps, states, i, j)
    ensures var (t', outcome) := ImportStep(t, states[i].artifact, c, f);
            && outcome == Complete
            && ServedDb(t', c).Some? && ServedDb(t', c).value.refs == states[j].refs
            && forall sha :: sha in states[j].refs ==>
                 sha in ServedBlobs(t', c) && c.digests.ofBlob(ServedBlobs(t', c)[sha]) == sha
  {
    j := Export.FinishedExportIsWhole(e, steps, states, i);
    var a := states[i].artifact;
    assert Whole(c.digests, a);
    WholeCompletes(t, a, c, f);
    CompletePlaces(t, a, c, f);
    var served := ServedBlobs(ImportStep(t, a, c, f).0, c);
    forall sha | sha in states[j].refs ensures sha in served && c.digests.ofBlob(served[sha]) == sha {
      if c.engineBacked {
        EngineServes(t, a, c, f, sha);
      } else {
        TreeServes(t, a, c, f);
      }
    }
  }

  // ---- what slips through -------------------------------------------------------------------------

  const NO_FAULTS := Faults(false, false, false, false, false, {}, false, false, false, None, None, false,
                            NO_UPLOAD_FAULTS, None, false, false, {}, false)

  /** An upload that succeeded stays when the step after it fails: the run reports a
      rollback and clears the directory, and the engine keeps the new blob. */
  lemma LateFailureKeepsUpload(d: Digests, content: string, db: Database, c: Config)
    requires IsSha(d.ofBlob(content)) && IsSha(d.ofDb(db)) && c.digests == d
    requires c.engineBacked && !c.outside && db.schema <= c.latestSchema
    ensures var sha := d.ofBlob(content);
            var m := Manifest(FORMAT_VERSION, 1, |content|, DB_FILE, d.ofDb(db), [Entry(sha, |content|)]);
            var a := Artifact(Some(db), map[], map[sha := content], Some(m));
            ImportStep(Target(map[], None, map[]), a, c, NO_FAULTS.(chmod := true)) ==
            (Target(map[], None, map[sha := content]), RolledBack)
  {
    var sha := d.ofBlob(content);
    var entries := [Entry(sha, |content|)];
    var m := Manifest(FORMAT_VERSION, 1, |content|, DB_FILE, d.ofDb(db), entries);
    var a := Artifact(Some(db), map[], map[sha := content], Some(m));
    DbFileIsBare();
    assert entries[..0] == [] && Total(entries) == |content|;
    assert EntryHolds(d, a.blobs, {}, entries[0], true);
    assert Acceptable(c, a, NO_FAULTS);
    assert RestoreOne(d, map[], a.blobs, entries[0], 0, NO_UPLOAD_FAULTS) == Created(content);
    UploadNext(d, map[], a.blobs, entries, NO_UPLOAD_FAULTS, 0, 1);
  }

  function LowHex(n: nat): char
    requires n < 16
  {
    if n < 10 then ('0' as int + n) as char else ('a' as int + n - 10) as char
  }

  // A well-formed digest for each number below 256, all different.
  function NumberedSha(n: nat): (sha: string)
    requires n < 256
    ensures IsSha(sha)
  {
    [LowHex(n / 16), LowHex(n % 16)] + seq(62, _ => '0')
  }

  lemma NumberedShasDiffer(m: nat, n: nat)
    requires m < 256 && n < 256 && m != n
    ensures NumberedSha(m) != NumberedSha(n)
  {
    assert NumberedSha(m)[0] == LowHex(m / 16) && NumberedSha(m)[1] == LowHex(m % 16);
    assert NumberedSha(n)[0] == LowHex(n / 16) && NumberedSha(n)[1] == LowHex(n % 16);
  }

  ghost predicate IdentityDigests(d: Digests) {
    (forall s :: d.ofBlob(s) == s) && (forall db :: d.ofDb(db) == NumberedSha(0))
  }

  // 101 blobs of 64 characters, the last of them not what its name says when content is
  // its own digest.
  function SpoiltBackup(): Artifact {
    var names := set n: nat | n < 101 :: NumberedSha(n);
    var entries := seq(101, n requires 0 <= n < 101 => Entry(NumberedSha(n), 64));
    var blobs := map sha | sha in names :: if sha == NumberedSha(100) then seq(64, _ => 'x') else sha;
    Artifact(Some(Database({}, 0, "")), map[], blobs,
             Some(Manifest(FORMAT_VERSION, 101, Total(entries), DB_FILE, NumberedSha(0), entries)))
  }

  lemma SpoiltBackupVerifies(d: Digests)
    requires IdentityDigests(d)
    ensures var a := SpoiltBackup();
            ValidManifest(a.manifest.value) && Verifies(d, a.blobs, {}, a.manifest.value, Spot)
  {
    var a := SpoiltBackup();
    var m := a.manifest.value;
    DbFileIsBare();
    forall i, j | 0 <= i < j < |m.blobs| ensures m.blobs[i].sha != m.blobs[j].sha {
      NumberedShasDiffer(i, j);
    }
    forall i | 0 <= i < |m.blobs| ensures EntryHolds(d, a.blobs, {}, m.blobs[i], i < HashLimit(m, Spot)) {
      if i < 100 {
        NumberedShasDiffer(i, 100);
      }
    }
  }

  /** A spot check stops at 100: an import completes and serves, under the name of the
      101st blob of its manifest, content with another digest. */
  lemma SpotCheckMisses(d: Digests, c: Config)
    requires IdentityDigests(d) && c.digests == d
    requires c.mode == Spot && !c.engineBacked && !c.outside && c.dbName != BLOBS_NAME && c.latestSchema >= 0
    ensures var t, a := Target(map[], None, map[]), SpoiltBackup();
            && ImportStep(t, a, c, NO_FAULTS).1 == Complete
            && |a.manifest.value.blobs| == 101 && !CarriesDigest(ImportStep(t, a, c, NO_FAULTS).0, a, c, 100)
  {
    var t, a := Target(map[], None, map[]), SpoiltBackup();
    SpoiltBackupVerifies(d);
    assert Acceptable(c, a, NO_FAULTS);
    DigestsExactly(t, a, c, NO_FAULTS, 100);
    assert a.blobs[NumberedSha(100)][0] == 'x' && NumberedSha(100)[0] != 'x';
  }
}
