/** The online export (cmd/binflow-server/backup.go): lock, database snapshot, blob copy,
    manifest, with writers and the garbage collector stepping in between. */
module Export {
  import opened Text
  import opened Ordering
  import opened BackupFormat

  // Who holds the data-directory maintenance lock.
  datatype Holder = Free | Exporter | Collector

  /** How far the export has come. While copying, `shards` are the shard directories still
      to be opened and `files` the blobs still to be copied from the open one (with a
      storage engine: all the blobs still to be fetched). */
  datatype Phase =
    | Idle | Prepared | Locked
    | Snapped
    | Copying(shards: set<string>, files: set<string>)
    | Copied
    | Checked
    | Sealed | Done | Failed

  datatype Sys = Sys(blobs: Blobs, refs: set<string>, holder: Holder, phase: Phase, artifact: Artifact)

  // SnapshotFirst is the order of the code; CopyFirst swaps its two main steps.
  datatype CopyOrder = SnapshotFirst | CopyFirst

  datatype Config = Config(engineBacked: bool, order: CopyOrder, digests: Digests)

  datatype Part = DbFile | BlobTree | ManifestFile

  datatype Step =
    // writers and the collector
    | Upload(sha: string, content: string)
    | Commit(sha: string)
    | Drop(sha: string)
    | GcLock
    | GcDelete(sha: string)
    | GcUnlock
    // the export
    | Prepare
    | Lock
    | Snapshot(schema: int, rest: string)
    | ListShards(shards: set<string>)
    | ListLive
    | OpenShard(shard: string)
    | CopyBlob(sha: string)
    | FinishCopy
    | Seal(manifest: Manifest)
    | Complete
    | RefuseDangling(stuck: set<Part>)
    | Fail(stuck: set<Part>)

  const EMPTY := Artifact(None, map[], map[], None)

  function Live(st: Sys): set<string> {
    if st.artifact.db.Some? then st.artifact.db.value.refs else {}
  }

  // The phase in which each main step is due.
  function SnapshotDue(c: Config): Phase {
    if c.order == SnapshotFirst then Locked else Copied
  }

  function CopyDue(c: Config): Phase {
    if c.order == SnapshotFirst then Snapped else Locked
  }

  function SealDue(c: Config): Phase {
    if c.order == SnapshotFirst then Copied else Checked
  }

  // The copy lacks a blob the snapshot references, or cannot read one it set out to copy.
  ghost predicate Dangling(c: Config, st: Sys) {
    || (st.phase == SealDue(c) && !(Live(st) <= st.artifact.blobs.Keys))
    || (st.phase.Copying? && !(st.phase.files <= st.blobs.Keys))
  }

  predicate Running(phase: Phase) {
    !phase.Idle? && !phase.Done? && !phase.Failed?
  }

  predicate HoldsLock(phase: Phase) {
    Running(phase) && !phase.Prepared?
  }

  ghost predicate Enabled(c: Config, st: Sys, step: Step) {
    match step
    case Upload(sha, content) => IsSha(sha) && c.digests.ofBlob(content) == sha
    case Commit(sha) => sha in st.blobs
    case Drop(_) => true
    case GcLock => st.holder == Free
    case GcDelete(sha) => st.holder == Collector && sha !in st.refs
    case GcUnlock => st.holder == Collector
    case Prepare => st.phase == Idle
    case Lock => st.phase == Prepared && st.holder == Free
    case Snapshot(_, _) => st.phase == SnapshotDue(c)
    case ListShards(shards) =>
      !c.engineBacked && st.phase == CopyDue(c) && forall sha :: sha in st.blobs ==> Shard(sha) in shards
    case ListLive => c.engineBacked && st.phase == CopyDue(c)
    case OpenShard(shard) => st.phase.Copying? && st.phase.files == {} && shard in st.phase.shards
    case CopyBlob(sha) => st.phase.Copying? && sha in st.phase.files && sha in st.blobs
    case FinishCopy => st.phase == Copying({}, {})
    case Seal(m) =>
      && st.phase == SealDue(c) && Live(st) <= st.artifact.blobs.Keys && st.artifact.db.Some?
      && Describes(m, Live(st), st.artifact.blobs, c.digests.ofDb(st.artifact.db.value))
    case Complete => st.phase == Sealed
    case RefuseDangling(_) => Dangling(c, st)
    case Fail(_) => Running(st.phase)
  }

  // What cleanup leaves when the removal of the stuck parts fails.
  function Cleaned(a: Artifact, stuck: set<Part>): Artifact {
    Artifact(if DbFile in stuck then a.db else None, map[],
             if BlobTree in stuck then a.blobs else map[],
             if ManifestFile in stuck then a.manifest else None)
  }

  function Aborted(st: Sys, stuck: set<Part>): Sys {
    st.(phase := Failed, artifact := Cleaned(st.artifact, stuck),
        holder := if HoldsLock(st.phase) then Free else st.holder)
  }

  ghost function Apply(c: Config, st: Sys, step: Step): Sys
    requires Enabled(c, st, step)
  {
    match step
    case Upload(sha, content) => if sha in st.blobs then st else st.(blobs := st.blobs[sha := content])
    case Commit(sha) => st.(refs := st.refs + {sha})
    case Drop(sha) => st.(refs := st.refs - {sha})
    case GcLock => st.(holder := Collector)
    case GcDelete(sha) => st.(blobs := st.blobs - {sha})
    case GcUnlock => st.(holder := Free)
    case Prepare => st.(phase := Prepared)
    case Lock => st.(phase := Locked, holder := Exporter)
    case Snapshot(schema, rest) =>
      st.(phase := if c.order == SnapshotFirst then Snapped else Checked,
          artifact := st.artifact.(db := Some(Database(st.refs, schema, rest))))
    case ListShards(shards) => st.(phase := Copying(shards, {}))
    case ListLive => st.(phase := Copying({}, Live(st)))
    case OpenShard(shard) =>
      st.(phase := Copying(st.phase.shards - {shard}, set sha | sha in st.blobs && Shard(sha) == shard))
    case CopyBlob(sha) =>
      st.(phase := st.phase.(files := st.phase.files - {sha}),
          artifact := st.artifact.(blobs := st.artifact.blobs[sha := st.blobs[sha]]))
    case FinishCopy => st.(phase := Copied)
    case Seal(m) => st.(phase := Sealed, artifact := st.artifact.(manifest := Some(m)))
    case Complete => st.(phase := Done, holder := Free)
    case RefuseDangling(stuck) => Aborted(st, stuck)
    case Fail(stuck) => Aborted(st, stuck)
  }

  // Every reference has its blob, every blob its digest, and the output is empty.
  ghost predicate Init(c: Config, st: Sys) {
    && st.refs <= st.blobs.Keys && ContentAddressed(c.digests, st.blobs)
    && st.phase == Idle && st.artifact == EMPTY && st.holder != Exporter
  }

  ghost predicate Follows(c: Config, st: Sys, step: Step, st': Sys) {
    Enabled(c, st, step) && st' == Apply(c, st, step)
  }

  // Any interleaving of writers, the collector and the export.
  ghost predicate IsRun(c: Config, steps: seq<Step>, states: seq<Sys>) {
    && |states| == |steps| + 1 && Init(c, states[0])
    && forall i :: 0 <= i < |steps| ==> Follows(c, states[i], steps[i], states[i + 1])
  }

  // ---- the invariant --------------------------------------------------------------------------

  ghost predicate SourceSound(c: Config, st: Sys) {
    && st.refs <= st.blobs.Keys && ContentAddressed(c.digests, st.blobs)
    && (HoldsLock(st.phase) <==> st.holder == Exporter)
  }

  // Every live blob is copied already, next in line, or in a shard still to be opened.
  ghost predicate Covered(st: Sys) {
    match st.phase
    case Copying(shards, files) =>
      forall sha :: sha in Live(st) ==> sha in st.artifact.blobs || sha in files || Shard(sha) in shards
    case Copied => Live(st) <= st.artifact.blobs.Keys
    case Sealed => Live(st) <= st.artifact.blobs.Keys
    case Done => Live(st) <= st.artifact.blobs.Keys
    case _ => true
  }

  // Nothing the export needs has left the source since the snapshot.
  ghost predicate Kept(st: Sys) {
    HoldsLock(st.phase) ==>
      && Live(st) <= st.blobs.Keys
      && (st.phase.Copying? ==> st.phase.files <= st.blobs.Keys)
  }

  ghost predicate Progress(c: Config, st: Sys) {
    match st.phase
    case Idle => st.artifact == EMPTY
    case Prepared => st.artifact == EMPTY
    case Locked => st.artifact == EMPTY
    case Snapped => st.artifact.db.Some? && st.artifact.blobs == map[] && st.artifact.manifest.None?
    case Copying(_, _) => st.artifact.db.Some? && st.artifact.manifest.None?
    case Copied => st.artifact.db.Some? && st.artifact.manifest.None?
    case Checked => false
    case Sealed => Sealing(c, st)
    case Done => Sealing(c, st)
    case Failed => true
  }

  ghost predicate Sealing(c: Config, st: Sys) {
    && st.artifact.db.Some? && st.artifact.manifest.Some?
    && Describes(st.artifact.manifest.value, Live(st), st.artifact.blobs, c.digests.ofDb(st.artifact.db.value))
  }

  // The copied blobs are right, and with a storage engine none is surplus.
  ghost predicate CopiesSound(c: Config, st: Sys) {
    && ContentAddressed(c.digests, st.artifact.blobs)
    && (c.engineBacked && !st.phase.Failed? ==>
          && st.artifact.blobs.Keys <= Live(st)
          && (st.phase.Copying? ==> st.phase.shards == {} && st.phase.files <= Live(st)))
  }

  ghost predicate Inv(c: Config, st: Sys) {
    SourceSound(c, st) && Covered(st) && Kept(st) && Progress(c, st) && CopiesSound(c, st)
  }

  // A step of a writer or the collector, not of the export.
  predicate Foreign(step: Step) {
    step.Upload? || step.Commit? || step.Drop? || step.GcLock? || step.GcDelete? || step.GcUnlock?
  }

  lemma SourceStaysForeign(c: Config, st: Sys, step: Step)
    requires Enabled(c, st, step) && SourceSound(c, st) && Foreign(step)
    ensures SourceSound(c, Apply(c, st, step))
  {
  }

  lemma SourceStaysOwn(c: Config, st: Sys, step: Step)
    requires Enabled(c, st, step) && SourceSound(c, st) && Progress(c, st) && !Foreign(step)
    ensures SourceSound(c, Apply(c, st, step))
  {
    assert Apply(c, st, step).blobs == st.blobs && Apply(c, st, step).refs == st.refs;
  }

  lemma SourceStays(c: Config, st: Sys, step: Step)
    requires Enabled(c, st, step) && SourceSound(c, st) && Progress(c, st)
    ensures SourceSound(c, Apply(c, st, step))
  {
    if Foreign(step) {
      SourceStaysForeign(c, st, step);
    } else {
      SourceStaysOwn(c, st, step);
    }
  }

  lemma CoverageStays(c: Config, st: Sys, step: Step)
    requires c.order == SnapshotFirst && Enabled(c, st, step) && Inv(c, st)
    ensures Covered(Apply(c, st, step)) && Kept(Apply(c, st, step))
  {
  }

  lemma ProgressStays(c: Config, st: Sys, step: Step)
    requires c.order == SnapshotFirst && Enabled(c, st, step) && Inv(c, st)
    ensures Progress(c, Apply(c, st, step))
  {
  }

  lemma CopiesStay(c: Config, st: Sys, step: Step)
    requires c.order == SnapshotFirst && Enabled(c, st, step) && Inv(c, st)
    ensures CopiesSound(c, Apply(c, st, step))
  {
    if Foreign(step) {
      assert Apply(c, st, step).artifact == st.artifact && Apply(c, st, step).phase == st.phase;
    } else if step.CopyBlob? {
      CopyStays(c, st, step);
    } else {
      OtherStays(c, st, step);
    }
  }

  lemma CopyStays(c: Config, st: Sys, step: Step)
    requires c.order == SnapshotFirst && Enabled(c, st, step) && Inv(c, st) && step.CopyBlob?
    ensures CopiesSound(c, Apply(c, st, step))
  {
  }

  lemma OtherStays(c: Config, st: Sys, step: Step)
    requires c.order == SnapshotFirst && Enabled(c, st, step) && Progress(c, st) && CopiesSound(c, st)
    requires !Foreign(step) && !step.CopyBlob?
    ensures CopiesSound(c, Apply(c, st, step))
  {
  }

  lemma {:induction false} RunInv(c: Config, steps: seq<Step>, states: seq<Sys>, i: nat)
    requires c.order == SnapshotFirst && IsRun(c, steps, states) && i < |states|
    ensures Inv(c, states[i])
  {
    if i > 0 {
      RunInv(c, steps, states, i - 1);
      assert Follows(c, states[i - 1], steps[i - 1], states[i]);
      SourceStays(c, states[i - 1], steps[i - 1]);
      CoverageStays(c, states[i - 1], steps[i - 1]);
      ProgressStays(c, states[i - 1], steps[i - 1]);
      CopiesStay(c, states[i - 1], steps[i - 1]);
    }
  }

  // ---- what a finished export holds --------------------------------------------------------------

  lemma DbStays(c: Config, st: Sys, step: Step)
    requires c.order == SnapshotFirst && Enabled(c, st, step) && Inv(c, st)
    ensures var st' := Apply(c, st, step);
            st'.artifact.db.Some? ==>
              if step.Snapshot? then Live(st') == st.refs else st.artifact.db.Some? && Live(st') == Live(st)
  {
  }

  // The database in the artifact references what the source referenced at the snapshot.
  ghost predicate TakenAt(steps: seq<Step>, states: seq<Sys>, i: nat, j: nat) {
    j < i < |states| && j < |steps| && steps[j].Snapshot? && Live(states[i]) == states[j].refs
  }

  lemma {:induction false} SnapshotMoment(c: Config, steps: seq<Step>, states: seq<Sys>, i: nat) returns (j: nat)
    requires c.order == SnapshotFirst && IsRun(c, steps, states) && i < |states|
    requires states[i].artifact.db.Some?
    ensures TakenAt(steps, states, i, j)
  {
    assert i != 0;
    var st, step := states[i - 1], steps[i - 1];
    assert Follows(c, st, step, states[i]);
    RunInv(c, steps, states, i - 1);
    DbStays(c, st, step);
    if step.Snapshot? {
      j := i - 1;
    } else {
      j := SnapshotMoment(c, steps, states, i - 1);
    }
  }

  /** In every interleaving, a finished export holds a database that references exactly
      what the source referenced at some moment of the run, every blob it references with
      the right content, and a manifest listing exactly those; a storage engine's export
      holds no other blob. */
  lemma FinishedExportIsWhole(c: Config, steps: seq<Step>, states: seq<Sys>, i: nat) returns (j: nat)
    requires c.order == SnapshotFirst && IsRun(c, steps, states) && i < |states|
    requires states[i].phase == Done
    ensures TakenAt(steps, states, i, j)
    ensures var a := states[i].artifact;
            && a.db.Some? && a.manifest.Some?
            && a.db.value.refs <= a.blobs.Keys && ContentAddressed(c.digests, a.blobs)
            && Describes(a.manifest.value, a.db.value.refs, a.blobs, c.digests.ofDb(a.db.value))
            && (c.engineBacked ==> a.blobs.Keys == a.db.value.refs)
    ensures var a, m := states[i].artifact, states[i].artifact.manifest.value;
            && m.formatVersion == 1 && m.dbFile == "metadata.db" && m.dbSha == c.digests.ofDb(a.db.value)
            && m.blobCount == |m.blobs| && m.totalBytes == Sum(m.blobs)
            && (forall k, l :: 0 <= k < l < |m.blobs| ==> Less(m.blobs[k].sha, m.blobs[l].sha))
            && (forall k :: 0 <= k < |m.blobs| ==>
                  m.blobs[k].sha in a.db.value.refs && m.blobs[k].sha in a.blobs &&
                  m.blobs[k].size == |a.blobs[m.blobs[k].sha]|)
            && (forall sha :: sha in a.db.value.refs ==> exists k :: 0 <= k < |m.blobs| && m.blobs[k].sha == sha)
  {
    RunInv(c, steps, states, i);
    var a := states[i].artifact;
    DescribesExactly(a.manifest.value, a.db.value.refs, a.blobs, c.digests.ofDb(a.db.value));
    j := SnapshotMoment(c, steps, states, i);
  }

  /** From a source without dangling references, no interleaving ever makes the export
      refuse for one. */
  lemma NeverDangles(c: Config, steps: seq<Step>, states: seq<Sys>, i: nat)
    requires c.order == SnapshotFirst && IsRun(c, steps, states) && i < |states|
    ensures !Dangling(c, states[i])
    ensures i < |steps| ==> !steps[i].RefuseDangling?
  {
    RunInv(c, steps, states, i);
    if i < |steps| {
      assert Follows(c, states[i], steps[i], states[i + 1]);
    }
  }

  lemma {:induction false} FailureLeavesNothing(c: Config, steps: seq<Step>, states: seq<Sys>, i: nat)
    requires c.order == SnapshotFirst && IsRun(c, steps, states) && i < |states|
    requires forall k :: 0 <= k < |steps| && (steps[k].Fail? || steps[k].RefuseDangling?) ==> steps[k].stuck == {}
    ensures states[i].phase == Failed ==> states[i].artifact == EMPTY
    ensures states[i].artifact.manifest.Some? ==> states[i].phase in {Sealed, Done}
  {
    RunInv(c, steps, states, i);
    if i > 0 {
      FailureLeavesNothing(c, steps, states, i - 1);
      assert Follows(c, states[i - 1], steps[i - 1], states[i]);
    }
  }

  // ---- the export gets through ---------------------------------------------------------------------

  // A step of the export that is no failure.
  predicate Advances(step: Step) {
    !Foreign(step) && !step.Fail? && !step.RefuseDangling?
  }

  function Rank(phase: Phase): nat {
    match phase
    case Idle => 8
    case Prepared => 7
    case Locked => 6
    case Snapped => 5
    case Copying(_, _) => 4
    case Copied => 3
    case Checked => 2
    case Sealed => 1
    case Done => 0
    case Failed => 0
  }

  function ShardsLeft(phase: Phase): nat {
    if phase.Copying? then |phase.shards| else 0
  }

  function FilesLeft(phase: Phase): nat {
    if phase.Copying? then |phase.files| else 0
  }

  // Nothing but the lock can be in the way.
  ghost predicate CanMove(st: Sys) {
    !st.phase.Done? && !st.phase.Failed? && (st.phase.Idle? || st.phase.Prepared? ==> st.holder == Free)
  }

  ghost predicate Nearer(phase': Phase, phase: Phase) {
    || Rank(phase') < Rank(phase)
    || (Rank(phase') == Rank(phase) && ShardsLeft(phase') < ShardsLeft(phase))
    || (Rank(phase') == Rank(phase) && ShardsLeft(phase') == ShardsLeft(phase) && FilesLeft(phase') < FilesLeft(phase))
  }

  /** In every state of the invariant with the lock to be had, the export has a step that
      is no failure, and it brings the end nearer. */
  lemma NeverStuck(c: Config, st: Sys) returns (step: Step)
    requires c.order == SnapshotFirst && Inv(c, st) && CanMove(st)
    ensures Advances(step) && Enabled(c, st, step)
    ensures Nearer(Apply(c, st, step).phase, st.phase)
    ensures Apply(c, st, step).phase.Done? || CanMove(Apply(c, st, step))
  {
    match st.phase
    case Idle => step := Prepare;
    case Prepared => step := Lock;
    case Locked => step := Snapshot(0, "");
    case Snapped =>
      if c.engineBacked {
        step := ListLive;
      } else {
        var shards := set sha | sha in st.blobs :: Shard(sha);
        step := ListShards(shards);
      }
    case Copying(shards, files) => step := NextCopyStep(c, st);
    case Copied =>
      var m := ManifestExists(Live(st), st.artifact.blobs, c.digests.ofDb(st.artifact.db.value));
      step := Seal(m);
    case Sealed => step := Complete;
  }

  lemma NextCopyStep(c: Config, st: Sys) returns (step: Step)
    requires c.order == SnapshotFirst && Inv(c, st) && st.phase.Copying?
    ensures Advances(step) && Enabled(c, st, step)
    ensures Nearer(Apply(c, st, step).phase, st.phase) && CanMove(Apply(c, st, step))
  {
    var shards, files := st.phase.shards, st.phase.files;
    if files != {} {
      var sha :| sha in files;
      assert |files - {sha}| < |files|;
      step := CopyBlob(sha);
    } else if shards != {} {
      var shard :| shard in shards;
      assert |shards - {shard}| < |shards|;
      step := OpenShard(shard);
    } else {
      step := FinishCopy;
    }
  }

  /** From every such state some steps of the export alone lead to its end. */
  lemma {:induction false} CanFinish(c: Config, st: Sys) returns (steps: seq<Step>, states: seq<Sys>)
    requires c.order == SnapshotFirst && Inv(c, st) && CanMove(st)
    ensures |states| == |steps| + 1 && states[0] == st && states[|steps|].phase.Done?
    ensures forall i :: 0 <= i < |steps| ==> Advances(steps[i]) && Follows(c, states[i], steps[i], states[i + 1])
    decreases Rank(st.phase), ShardsLeft(st.phase), FilesLeft(st.phase)
  {
    var step := NeverStuck(c, st);
    var st' := Apply(c, st, step);
    SourceStays(c, st, step);
    CoverageStays(c, st, step);
    ProgressStays(c, st, step);
    CopiesStay(c, st, step);
    if st'.phase.Done? {
      steps, states := [step], [st, st'];
    } else {
      var more, after := CanFinish(c, st');
      steps, states := [step] + more, [st] + after;
    }
  }

  /** Whatever writers and the collector have done so far, an export that has not failed and
      can have the lock can still be brought to its end. */
  lemma RunCanFinish(c: Config, steps: seq<Step>, states: seq<Sys>) returns (more: seq<Step>, after: seq<Sys>)
    requires c.order == SnapshotFirst && IsRun(c, steps, states) && CanMove(states[|steps|])
    ensures IsRun(c, steps + more, states + after) && (states + after)[|steps + more|].phase.Done?
  {
    RunInv(c, steps, states, |steps|);
    var rest, tail := CanFinish(c, states[|steps|]);
    more, after := rest, tail[1..];
    var all, sts := steps + more, states + after;
    forall i | 0 <= i < |all| ensures Follows(c, sts[i], all[i], sts[i + 1]) {
      if i < |steps| {
        assert Follows(c, states[i], steps[i], states[i + 1]);
      } else {
        assert sts[i] == tail[i - |steps|] && sts[i + 1] == tail[i - |steps| + 1];
      }
    }
  }

  // ---- the other order ---------------------------------------------------------------------------

  /** With the copy before the snapshot, one upload between the two is enough: the
      snapshot of a healthy instance references a blob the copy never saw. */
  lemma CopyFirstDangles(d: Digests, content: string) returns (steps: seq<Step>, states: seq<Sys>)
    requires IsSha(d.ofBlob(content))
    ensures IsRun(Config(false, CopyFirst, d), steps, states)
    ensures Dangling(Config(false, CopyFirst, d), states[|steps|])
    ensures states[|steps|].refs <= states[|steps|].blobs.Keys
  {
    var c, sha := Config(false, CopyFirst, d), d.ofBlob(content);
    var s0 := Sys(map[], {}, Free, Idle, EMPTY);
    var s4 := s0.(phase := Copied, holder := Exporter);
    var before := CopyOfNothing(c, s0);
    var after := UploadThenSnapshot(c, s4, sha, content);
    steps := [Prepare, Lock, ListShards({}), FinishCopy, Upload(sha, content), Commit(sha), Snapshot(0, "")];
    states := before + after[1..];
  }

  // One blob lands and is referenced before the snapshot is taken.
  lemma UploadThenSnapshot(c: Config, s4: Sys, sha: string, content: string) returns (states: seq<Sys>)
    requires c.order == CopyFirst && s4 == Sys(map[], {}, Exporter, Copied, EMPTY)
    requires IsSha(sha) && c.digests.ofBlob(content) == sha
    ensures |states| == 4 && states[0] == s4
    ensures Follows(c, states[0], Upload(sha, content), states[1]) && Follows(c, states[1], Commit(sha), states[2])
    ensures Follows(c, states[2], Snapshot(0, ""), states[3])
    ensures Dangling(c, states[3]) && states[3].refs <= states[3].blobs.Keys
  {
    var s5 := s4.(blobs := map[sha := content]);
    var s6 := s5.(refs := {sha});
    var s7 := s6.(phase := Checked, artifact := EMPTY.(db := Some(Database({sha}, 0, ""))));
    assert sha in Live(s7) && sha !in s7.artifact.blobs;
    states := [s4, s5, s6, s7];
  }

  // The copy of an instance that holds nothing yet.
  lemma CopyOfNothing(c: Config, s0: Sys) returns (states: seq<Sys>)
    requires !c.engineBacked && c.order == CopyFirst && s0 == Sys(map[], {}, Free, Idle, EMPTY)
    ensures |states| == 5 && states[0] == s0 && states[4] == s0.(phase := Copied, holder := Exporter)
    ensures Follows(c, states[0], Prepare, states[1]) && Follows(c, states[1], Lock, states[2])
    ensures Follows(c, states[2], ListShards({}), states[3]) && Follows(c, states[3], FinishCopy, states[4])
  {
    var s1 := s0.(phase := Prepared);
    var s2 := s1.(phase := Locked, holder := Exporter);
    var s3 := s2.(phase := Copying({}, {}));
    states := [s0, s1, s2, s3, s3.(phase := Copied)];
  }

  // ---- the engine's copy loop ------------------------------------------------------------------------

  method SortedShas(live: set<string>) returns (sorted: seq<string>)
    ensures Distinct(sorted) && forall sha :: sha in sorted <==> sha in live
  {
    var shas: seq<string> := [];
    var rest := live;
    while rest != {}
      invariant rest <= live && Distinct(shas)
      invariant forall sha :: sha in shas <==> sha in live - rest
    {
      var sha :| sha in rest;
      assert sha !in shas;
      shas, rest := shas + [sha], rest - {sha};
    }
    sorted := Sort(shas, Less);
    SortKeeps(shas, Less);
    DistinctPermutes(shas, sorted);
  }

  // A file of the artifact's blob tree; mtime is None for the time of writing.
  datatype File = File(content: string, mtime: Option<int>)

  // What the engine's inventory answers: it has none, its listing fails, or the times of
  // the blobs it lists.
  datatype Inventory = NoInventory | ListingFails | Times(at: map<string, int>)

  // Which blobs cannot be opened, or not streamed to disk to the end.
  datatype StreamFaults = StreamFaults(open: set<string>, write: set<string>)

  function TimeOf(inventory: Inventory, sha: string): Option<int> {
    if inventory.Times? && sha in inventory.at then Some(inventory.at[sha]) else None
  }

  // Streams every live blob out of the engine, in digest order; None on the first failure.
  method ExportBlobsFromEngine(engine: Blobs, live: set<string>, inventory: Inventory, f: StreamFaults)
    returns (r: Option<map<string, File>>, files: nat)
    ensures r.Some? <==> !inventory.ListingFails? && live <= engine.Keys && live !! f.open && live !! f.write
    ensures r.Some? ==> r.value.Keys == live && files == |live|
    ensures r.Some? ==> forall sha :: sha in live ==>
              && r.value[sha].content == engine[sha]
              && r.value[sha].mtime == if inventory.Times? && sha in inventory.at then Some(inventory.at[sha]) else None
  {
    if inventory.ListingFails? {
      return None, 0;
    }
    var sorted := SortedShas(live);
    var out: map<string, File> := map[];
    files := 0;
    for i := 0 to |sorted|
      invariant files == i && i == |out|
      invariant forall sha :: sha in out <==> sha in sorted[..i]
      invariant forall sha :: sha in out ==>
                  && sha in engine && sha !in f.open && sha !in f.write
                  && out[sha] == File(engine[sha], TimeOf(inventory, sha))
    {
      var sha := sorted[i];
      assert sha in sorted;
      if sha !in engine || sha in f.open || sha in f.write {
        return None, files;
      }
      assert sha !in out by {
        NotBefore(sorted, i);
      }
      out := out[sha := File(engine[sha], TimeOf(inventory, sha))];
      files := files + 1;
    }
    assert sorted[..|sorted|] == sorted;
    assert out.Keys == live;
    return Some(out), files;
  }

  lemma NotBefore(s: seq<string>, i: nat)
    requires Distinct(s) && i < |s|
    ensures s[i] !in s[..i]
  {
  }
}
