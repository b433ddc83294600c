/** Restoring a backup's blobs into the storage engine, with rollback
    (cmd/binflow-server/backup.go). */
module EngineUpload {
  import opened Text
  import opened BackupFormat

  // Which calls fail while blob i of the manifest is restored, and which deletions fail
  // during the rollback.
  datatype UploadFaults = UploadFaults(probe: set<nat>, open: set<nat>, begin: set<nat>, append: set<nat>,
                                       commit: set<nat>, close: set<nat>, delete: set<string>)

  /** Restoring one blob: skipped because the engine has it, created, refused before the
      commit, or committed and then refused (closing the source failed, or the stored size
      is not the recorded one). */
  datatype Restored = Skipped | Created(content: string) | Refused | Stranded(content: string)

  function RestoreOne(d: Digests, engine: Blobs, backup: Blobs, b: Entry, i: nat, f: UploadFaults): Restored {
    if i in f.probe then Refused
    else if b.sha in engine then Skipped
    else if b.sha !in backup || i in f.open || i in f.begin || i in f.append then Refused
    else if i in f.commit || d.ofBlob(backup[b.sha]) != b.sha then Refused
    else if i in f.close || |backup[b.sha]| != b.size then Stranded(backup[b.sha])
    else Created(backup[b.sha])
  }

  // The engine and the list of created blobs after the first n entries; failed once a
  // restore was refused, with the blob that was committed all the same, if any.
  datatype Upload = Upload(engine: Blobs, created: seq<string>, failed: bool, stranded: Option<string>)

  // n rounds of a loop whose round i maps the state by step(_, i).
  function Iterated(step: (Upload, nat) -> Upload, u: Upload, n: nat): Upload {
    if n == 0 then u else step(Iterated(step, u, n - 1), n - 1)
  }

  function Round(d: Digests, backup: Blobs, entries: seq<Entry>, f: UploadFaults): (Upload, nat) -> Upload {
    (u: Upload, i: nat) => if i < |entries| then AfterEntry(d, u, backup, entries[i], i, f) else u
  }

  function Uploaded(d: Digests, engine: Blobs, backup: Blobs, entries: seq<Entry>, f: UploadFaults, n: nat): Upload {
    Iterated(Round(d, backup, entries, f), Upload(engine, [], false, None), n)
  }

  function AfterEntry(d: Digests, u: Upload, backup: Blobs, b: Entry, i: nat, f: UploadFaults): Upload {
    if u.failed then u else Advance(d, u, backup, b, i, f)
  }

  function Advance(d: Digests, u: Upload, backup: Blobs, b: Entry, i: nat, f: UploadFaults): Upload {
    match RestoreOne(d, u.engine, backup, b, i, f)
    case Skipped => u
    case Created(content) => Upload(u.engine[b.sha := content], u.created + [b.sha], false, None)
    case Refused => u.(failed := true)
    case Stranded(content) => Upload(u.engine[b.sha := content], u.created, true, Some(b.sha))
  }

  // The rollback: every created blob goes unless its deletion fails.
  function RolledBack(engine: Blobs, created: seq<string>, stuck: set<string>): Blobs {
    map sha | sha in engine && !(sha in created && sha !in stuck) :: engine[sha]
  }

  function EngineAfter(d: Digests, engine: Blobs, backup: Blobs, entries: seq<Entry>, f: UploadFaults): Blobs {
    var u := Uploaded(d, engine, backup, entries, f, |entries|);
    if u.failed then RolledBack(u.engine, u.created, f.delete) else u.engine
  }

  lemma UploadNext(d: Digests, engine: Blobs, backup: Blobs, entries: seq<Entry>, f: UploadFaults, n: nat, next: nat)
    requires next == n + 1 <= |entries|
    ensures Uploaded(d, engine, backup, entries, f, next) ==
            AfterEntry(d, Uploaded(d, engine, backup, entries, f, n), backup, entries[n], n, f)
  {
  }

  // What every round keeps holds after any number of them.
  lemma {:induction false} RoundsKeep(step: (Upload, nat) -> Upload, u: Upload, n: nat, inv: (Upload, nat) -> bool)
    requires inv(u, 0)
    requires forall v, i: nat, next: nat :: i < n && next == i + 1 && inv(v, i) ==> inv(step(v, i), next)
    ensures inv(Iterated(step, u, n), n)
  {
    if n > 0 {
      RoundsKeep(step, u, n - 1, inv);
    }
  }

  class Engine {
    var blobs: Blobs

    constructor (blobs: Blobs)
      ensures this.blobs == blobs
    {
      this.blobs := blobs;
    }

    method ImportBlobs(d: Digests, backup: Blobs, entries: seq<Entry>, f: UploadFaults) returns (ok: bool)
      modifies this
      ensures ok <==> !Uploaded(d, old(blobs), backup, entries, f, |entries|).failed
      ensures blobs == EngineAfter(d, old(blobs), backup, entries, f)
    {
      var created: seq<string> := [];
      for i := 0 to |entries|
        invariant Uploaded(d, old(blobs), backup, entries, f, i) == Upload(blobs, created, false, None)
      {
        var b := entries[i];
        UploadNext(d, old(blobs), backup, entries, f, i, i + 1);
        match RestoreOne(d, blobs, backup, b, i, f) {
          case Skipped =>
          case Created(content) =>
            blobs := blobs[b.sha := content];
            created := created + [b.sha];
          case Refused =>
            FailureStays(d, old(blobs), backup, entries, f, i + 1, |entries|);
            Rollback(created, f.delete);
            return false;
          case Stranded(content) =>
            blobs := blobs[b.sha := content];
            FailureStays(d, old(blobs), backup, entries, f, i + 1, |entries|);
            Rollback(created, f.delete);
            return false;
        }
      }
      return true;
    }

    method Rollback(created: seq<string>, stuck: set<string>)
      modifies this
      ensures blobs == RolledBack(old(blobs), created, stuck)
    {
      for i := 0 to |created|
        invariant blobs == RolledBack(old(blobs), created[..i], stuck)
      {
        assert created[..i + 1] == created[..i] + [created[i]];
        if created[i] !in stuck {
          blobs := blobs - {created[i]};
        }
      }
      assert created[..|created|] == created;
    }
  }

  lemma {:induction false} FailureStays(d: Digests, engine: Blobs, backup: Blobs, entries: seq<Entry>,
                                        f: UploadFaults, n: nat, m: nat)
    requires n <= m <= |entries| && Uploaded(d, engine, backup, entries, f, n).failed
    ensures Uploaded(d, engine, backup, entries, f, m) == Uploaded(d, engine, backup, entries, f, n)
    decreases m
  {
    if n < m {
      FailureStays(d, engine, backup, entries, f, n, m - 1);
      UploadNext(d, engine, backup, entries, f, m - 1, m);
    }
  }

  // ---- what an upload keeps ----------------------------------------------------------------------

  // Blobs the engine held stay as they were; created ones are new; at most one more is
  // there, after a failure.
  ghost predicate Grown(engine: Blobs, u: Upload) {
    && (forall sha :: sha in engine ==> sha in u.engine && u.engine[sha] == engine[sha])
    && (forall sha :: sha in u.created ==> sha in u.engine && sha !in engine)
    && (forall sha :: sha in u.engine && sha !in engine ==> sha in u.created || u.stranded == Some(sha))
    && (u.stranded.Some? ==>
          u.failed && u.stranded.value in u.engine && u.stranded.value !in engine && u.stranded.value !in u.created)
  }

  lemma UploadGrows(d: Digests, engine: Blobs, backup: Blobs, entries: seq<Entry>, f: UploadFaults, n: nat)
    requires n <= |entries|
    ensures Grown(engine, Uploaded(d, engine, backup, entries, f, n))
  {
    var round, start := Round(d, backup, entries, f), Upload(engine, [], false, None);
    forall v, i: nat | Grown(engine, v) ensures Grown(engine, round(v, i)) {
      if i < |entries| {
        EntryGrows(d, engine, v, backup, entries[i], i, f);
      }
    }
    RoundsKeep(round, start, n, (v: Upload, i: nat) => Grown(engine, v));
  }

  lemma EntryGrows(d: Digests, engine: Blobs, u: Upload, backup: Blobs, b: Entry, i: nat, f: UploadFaults)
    requires Grown(engine, u)
    ensures Grown(engine, AfterEntry(d, u, backup, b, i, f))
  {
  }

  /** No blob the engine held before the run is deleted or changed, whatever fails. */
  lemma EngineNeverLoses(d: Digests, engine: Blobs, backup: Blobs, entries: seq<Entry>, f: UploadFaults)
    ensures var after := EngineAfter(d, engine, backup, entries, f);
            forall sha :: sha in engine ==> sha in after && after[sha] == engine[sha]
  {
    UploadGrows(d, engine, backup, entries, f, |entries|);
  }

  lemma {:induction false} UploadHolds(d: Digests, engine: Blobs, backup: Blobs, entries: seq<Entry>,
                                       f: UploadFaults, n: nat)
    requires n <= |entries| && !Uploaded(d, engine, backup, entries, f, n).failed
    ensures var u := Uploaded(d, engine, backup, entries, f, n);
            && (forall i :: 0 <= i < n ==> entries[i].sha in u.engine)
            && (forall sha :: sha in u.engine && sha !in engine ==>
                  sha in backup && u.engine[sha] == backup[sha] && d.ofBlob(backup[sha]) == sha &&
                  exists i :: 0 <= i < n && entries[i] == Entry(sha, |backup[sha]|))
  {
    if n > 0 {
      UploadNext(d, engine, backup, entries, f, n - 1, n);
      UploadHolds(d, engine, backup, entries, f, n - 1);
    }
  }

  /** A successful upload leaves the old blobs plus every manifest blob, the new ones with
      the backup's content, digest and size, and nothing else. */
  lemma UploadRestoresAll(d: Digests, engine: Blobs, backup: Blobs, entries: seq<Entry>, f: UploadFaults)
    requires !Uploaded(d, engine, backup, entries, f, |entries|).failed
    ensures var after := EngineAfter(d, engine, backup, entries, f);
            && after.Keys == engine.Keys + (set b | b in entries :: b.sha)
            && (forall sha :: sha in engine ==> after[sha] == engine[sha])
            && (forall sha :: sha in after && sha !in engine ==>
                  sha in backup && after[sha] == backup[sha] && d.ofBlob(after[sha]) == sha)
  {
    UploadHolds(d, engine, backup, entries, f, |entries|);
    UploadGrows(d, engine, backup, entries, f, |entries|);
    var after := EngineAfter(d, engine, backup, entries, f);
    forall sha ensures sha in after.Keys <==> sha in engine.Keys + (set b | b in entries :: b.sha) {
      if exists b :: b in entries && b.sha == sha {
        var b :| b in entries && b.sha == sha;
        var i :| 0 <= i < |entries| && entries[i] == b;
      }
    }
  }

  // The same condition read off the trace: nothing stranded, nothing created that stays.
  lemma RollbackByTrace(d: Digests, engine: Blobs, backup: Blobs, entries: seq<Entry>, f: UploadFaults)
    requires Uploaded(d, engine, backup, entries, f, |entries|).failed
    ensures var u := Uploaded(d, engine, backup, entries, f, |entries|);
            EngineAfter(d, engine, backup, entries, f) == engine <==>
            u.stranded.None? && (forall sha :: sha in u.created ==> sha !in f.delete)
  {
    UploadGrows(d, engine, backup, entries, f, |entries|);
    var u := Uploaded(d, engine, backup, entries, f, |entries|);
    var after := EngineAfter(d, engine, backup, entries, f);
    if u.stranded.Some? {
      assert u.stranded.value in after;
    } else if sha :| sha in u.created && sha in f.delete {
      assert sha in after;
    } else {
      assert after == engine;
    }
  }

  // ---- failure and rollback, by the inputs -----------------------------------------------------

  // Entry i is refused before anything of it is committed: the probe fails, or the engine
  // lacks it and the backup does too, a call up to the commit fails, or the content does
  // not have its digest.
  predicate StopsBefore(d: Digests, engine: Blobs, backup: Blobs, b: Entry, i: nat, f: UploadFaults) {
    || i in f.probe
    || (b.sha !in engine &&
        (b.sha !in backup || i in f.open || i in f.begin || i in f.append || i in f.commit ||
         d.ofBlob(backup[b.sha]) != b.sha))
  }

  // Entry i is refused after its commit: its source does not close, or the size is wrong.
  predicate StopsAfter(d: Digests, engine: Blobs, backup: Blobs, b: Entry, i: nat, f: UploadFaults) {
    && !StopsBefore(d, engine, backup, b, i, f) && b.sha !in engine
    && (i in f.close || |backup[b.sha]| != b.size)
  }

  predicate Stops(d: Digests, engine: Blobs, backup: Blobs, entries: seq<Entry>, f: UploadFaults, i: nat)
    requires i < |entries|
  {
    StopsBefore(d, engine, backup, entries[i], i, f) || StopsAfter(d, engine, backup, entries[i], i, f)
  }

  // k is the first entry refused.
  ghost predicate FirstStop(d: Digests, engine: Blobs, backup: Blobs, entries: seq<Entry>, f: UploadFaults, k: nat) {
    && k < |entries| && Stops(d, engine, backup, entries, f, k)
    && forall i: nat :: i < k ==> !Stops(d, engine, backup, entries, f, i)
  }

  // One of the first n entries, and not in the engine from before.
  ghost predicate NewAmong(engine: Blobs, entries: seq<Entry>, n: nat, sha: string) {
    sha !in engine && exists i :: 0 <= i < n && i < |entries| && entries[i].sha == sha
  }

  // The upload after n entries of which none stopped it.
  ghost predicate Traced(engine: Blobs, entries: seq<Entry>, n: nat, u: Upload) {
    && !u.failed && u.stranded.None?
    && (forall sha :: sha in u.created <==> NewAmong(engine, entries, n, sha))
    && (forall sha :: sha in u.engine <==> sha in engine || NewAmong(engine, entries, n, sha))
  }

  lemma TraceBeforeStop(d: Digests, engine: Blobs, backup: Blobs, entries: seq<Entry>,
                        f: UploadFaults, n: nat)
    requires ValidEntries(entries) && n <= |entries|
    requires forall i: nat :: i < n ==> !Stops(d, engine, backup, entries, f, i)
    ensures Traced(engine, entries, n, Uploaded(d, engine, backup, entries, f, n))
  {
    var round, start := Round(d, backup, entries, f), Upload(engine, [], false, None);
    forall v, i: nat, next: nat | i < n && next == i + 1 && Traced(engine, entries, i, v)
      ensures Traced(engine, entries, next, round(v, i))
    {
      TraceStep(d, engine, backup, entries, f, i, next, v);
    }
    RoundsKeep(round, start, n, (v: Upload, i: nat) => Traced(engine, entries, i, v));
  }

  lemma TraceStep(d: Digests, engine: Blobs, backup: Blobs, entries: seq<Entry>, f: UploadFaults,
                  n: nat, next: nat, u: Upload)
    requires ValidEntries(entries) && next == n + 1 <= |entries| && !Stops(d, engine, backup, entries, f, n)
    requires Traced(engine, entries, n, u)
    ensures Traced(engine, entries, next, AfterEntry(d, u, backup, entries[n], n, f))
  {
    var b := entries[n];
    NewEntry(engine, entries, n);
    GoesOn(d, u, engine, backup, b, n, f);
    forall sha ensures NewAmong(engine, entries, next, sha) <==>
                       NewAmong(engine, entries, n, sha) || (sha == b.sha && sha !in engine) {
      if sha == b.sha && sha !in engine {
        assert entries[n].sha == sha;
      }
    }
  }

  // No entry repeats an earlier one.
  lemma NewEntry(engine: Blobs, entries: seq<Entry>, n: nat)
    requires ValidEntries(entries) && n < |entries|
    ensures !NewAmong(engine, entries, n, entries[n].sha)
  {
  }

  // An entry that does not stop the upload is skipped or created.
  lemma GoesOn(d: Digests, u: Upload, engine: Blobs, backup: Blobs, b: Entry, i: nat, f: UploadFaults)
    requires !u.failed && u.stranded.None? && (b.sha in u.engine <==> b.sha in engine)
    requires !StopsBefore(d, engine, backup, b, i, f) && !StopsAfter(d, engine, backup, b, i, f)
    ensures AfterEntry(d, u, backup, b, i, f) ==
            if b.sha in engine then u else Upload(u.engine[b.sha := backup[b.sha]], u.created + [b.sha], false, None)
  {
  }

  // An entry that stops the upload leaves the created list, and strands its blob or not.
  lemma StopsHere(d: Digests, u: Upload, engine: Blobs, backup: Blobs, b: Entry, i: nat, f: UploadFaults)
    requires !u.failed && u.stranded.None? && (b.sha in u.engine <==> b.sha in engine)
    requires StopsBefore(d, engine, backup, b, i, f) || StopsAfter(d, engine, backup, b, i, f)
    ensures var u' := AfterEntry(d, u, backup, b, i, f);
            u'.failed && u'.created == u.created && (u'.stranded.None? <==> StopsBefore(d, engine, backup, b, i, f))
  {
  }

  lemma StopOutcome(d: Digests, engine: Blobs, backup: Blobs, entries: seq<Entry>, f: UploadFaults, k: nat)
    requires ValidEntries(entries) && FirstStop(d, engine, backup, entries, f, k)
    ensures var u := Uploaded(d, engine, backup, entries, f, |entries|);
            && u.failed && (u.stranded.None? <==> StopsBefore(d, engine, backup, entries[k], k, f))
            && (forall sha :: sha in u.created <==> NewAmong(engine, entries, k, sha))
  {
    TraceBeforeStop(d, engine, backup, entries, f, k);
    var u, b := Uploaded(d, engine, backup, entries, f, k), entries[k];
    NewEntry(engine, entries, k);
    UploadNext(d, engine, backup, entries, f, k, k + 1);
    StopsHere(d, u, engine, backup, b, k, f);
    FailureStays(d, engine, backup, entries, f, k + 1, |entries|);
  }

  lemma {:induction false} FindFirstStop(d: Digests, engine: Blobs, backup: Blobs, entries: seq<Entry>,
                                         f: UploadFaults, n: nat) returns (k: Option<nat>)
    requires n <= |entries|
    ensures k.Some? ==> FirstStop(d, engine, backup, entries, f, k.value) && k.value < n
    ensures k.None? ==> forall i: nat :: i < n ==> !Stops(d, engine, backup, entries, f, i)
  {
    k := None;
    if n > 0 {
      k := FindFirstStop(d, engine, backup, entries, f, n - 1);
      if k.None? && Stops(d, engine, backup, entries, f, n - 1) {
        k := Some(n - 1);
      }
    }
  }

  /** An upload fails exactly when some entry of the manifest is refused. */
  lemma UploadFailsExactly(d: Digests, engine: Blobs, backup: Blobs, entries: seq<Entry>, f: UploadFaults)
    requires ValidEntries(entries)
    ensures Uploaded(d, engine, backup, entries, f, |entries|).failed <==>
            exists k: nat :: FirstStop(d, engine, backup, entries, f, k)
  {
    var k := FindFirstStop(d, engine, backup, entries, f, |entries|);
    if k.Some? {
      StopOutcome(d, engine, backup, entries, f, k.value);
    } else {
      TraceBeforeStop(d, engine, backup, entries, f, |entries|);
    }
  }

  // No entry before k is both new to the engine and impossible to delete again.
  ghost predicate Deletable(engine: Blobs, entries: seq<Entry>, f: UploadFaults, k: nat) {
    forall i :: 0 <= i < k && i < |entries| && entries[i].sha !in engine ==> entries[i].sha !in f.delete
  }

  /** After an upload that stops at entry k the engine is as it was exactly when entry k is
      refused before its commit and every earlier entry new to the engine can be deleted
      again. */
  lemma RollbackExact(d: Digests, engine: Blobs, backup: Blobs, entries: seq<Entry>, f: UploadFaults, k: nat)
    requires ValidEntries(entries) && FirstStop(d, engine, backup, entries, f, k)
    ensures EngineAfter(d, engine, backup, entries, f) == engine <==>
            StopsBefore(d, engine, backup, entries[k], k, f) && Deletable(engine, entries, f, k)
  {
    StopOutcome(d, engine, backup, entries, f, k);
    RollbackByTrace(d, engine, backup, entries, f);
    DeletableByCreated(engine, entries, f, k, Uploaded(d, engine, backup, entries, f, |entries|).created);
  }

  lemma DeletableByCreated(engine: Blobs, entries: seq<Entry>, f: UploadFaults, k: nat, created: seq<string>)
    requires k <= |entries| && forall sha :: sha in created <==> NewAmong(engine, entries, k, sha)
    ensures Deletable(engine, entries, f, k) <==> forall sha :: sha in created ==> sha !in f.delete
  {
    forall i | 0 <= i < k && entries[i].sha !in engine ensures entries[i].sha in created {
      assert NewAmong(engine, entries, k, entries[i].sha);
    }
  }

  // The failing family is not empty: a source that cannot be closed strands its blob.
  lemma StrandedExample(d: Digests, content: string)
    ensures var sha := d.ofBlob(content);
            var f := UploadFaults({}, {}, {}, {}, {}, {0}, {});
            var backup := map[sha := content];
            var entries := [Entry(sha, |content|)];
            && Uploaded(d, map[], backup, entries, f, 1).failed
            && EngineAfter(d, map[], backup, entries, f) == backup
  {
    var sha := d.ofBlob(content);
    var f := UploadFaults({}, {}, {}, {}, {}, {0}, {});
    var entries := [Entry(sha, |content|)];
    assert RestoreOne(d, map[], map[sha := content], entries[0], 0, f) == Stranded(content);
    UploadNext(d, map[], map[sha := content], entries, f, 0, 1);
  }

  const NO_UPLOAD_FAULTS := UploadFaults({}, {}, {}, {}, {}, {}, {})

  // Without faults, entries that hold in the backup all restore.
  lemma {:induction false} UploadSucceeds(d: Digests, engine: Blobs, backup: Blobs, entries: seq<Entry>, n: nat)
    requires n <= |entries|
    requires forall i :: 0 <= i < |entries| ==> EntryHolds(d, backup, {}, entries[i], true)
    ensures !Uploaded(d, engine, backup, entries, NO_UPLOAD_FAULTS, n).failed
  {
    if n > 0 {
      UploadSucceeds(d, engine, backup, entries, n - 1);
      UploadNext(d, engine, backup, entries, NO_UPLOAD_FAULTS, n - 1, n);
    }
  }
}
