/** What the artifact store guarantees over whole runs: any interleaving of stores and attempts, with
    a fault or a crash after any step. */
module StoreTheorems {
  import opened Options
  import opened PathOrder
  import opened Disk
  import opened Generations
  import opened Protocol
  import opened Invariant
  import opened ConstructorSteps
  import opened AttemptSteps

  // ----- Runs -----

  const START := World(Disk(map[Namespace := Directory], {}, map[], {}), None, map[], map[], Resting)

  ghost predicate Run(w: World, steps: seq<Step>, w': World)
    decreases |steps|
  {
    if steps == [] then w == w' else Enabled(w, steps[0]) && Run(Next(w, steps[0]), steps[1..], w')
  }

  lemma StartOk()
    ensures Inv(START)
  {
  }

  predicate ConstructorStep(step: Step) {
    step.NewStore? || step.OpenRoot? || step.OpenSync? || step.OpenIdentity? || step.OpenCells?
  }

  predicate FileStep(step: Step) {
    || step.BeginManifest? || step.BeginPointer? || step.Fill? || step.Flush?
    || step.Place? || step.DropTemp? || step.SyncParent? || step.Fault?
  }

  lemma ConstructorStepKeeps(w: World, step: Step)
    requires Inv(w) && Enabled(w, step) && ConstructorStep(step)
    ensures Inv(Next(w, step))
  {
    hide Inv, Next, Enabled;
    match step
    case NewStore(s) => NewStoreKeeps(w, s);
    case OpenRoot(s) => OpenRootKeeps(w, s);
    case OpenSync(s) => OpenSyncKeeps(w, s);
    case OpenIdentity(s, i) => OpenIdentityKeeps(w, s, i);
    case OpenCells(s) => OpenCellsKeeps(w, s);
  }

  lemma FileStepKeeps(w: World, step: Step)
    requires Inv(w) && Enabled(w, step) && FileStep(step)
    ensures Inv(Next(w, step))
  {
    hide Inv, Next, Enabled;
    match step
    case BeginManifest(serial, i) => BeginManifestKeeps(w, serial, i);
    case BeginPointer(serial, i) => BeginPointerKeeps(w, serial, i);
    case Fill => FillKeeps(w);
    case Flush => FlushKeeps(w);
    case Place => PlaceKeeps(w);
    case DropTemp => DropTempKeeps(w);
    case SyncParent => SyncParentKeeps(w);
    case Fault(dropTemp) => FaultKeeps(w, dropTemp);
  }

  lemma CloseStoreKeeps(w: World, s: StoreId)
    requires Inv(w) && Enabled(w, CloseStore(s))
    ensures Inv(Next(w, CloseStore(s)))
  {
    hide Inv;
    ShuttingKeeps(w, s);
  }

  /** Every step keeps the invariant. */
  lemma StepKeeps(w: World, step: Step)
    requires Inv(w) && Enabled(w, step)
    ensures Inv(Next(w, step))
  {
    hide Inv, Next, Enabled;
    if ConstructorStep(step) { ConstructorStepKeeps(w, step); return; }
    if FileStep(step) { FileStepKeeps(w, step); return; }
    match step
    case TakeLock(s) => TakeLockKeeps(w, s);
    case CloseStore(s) => CloseStoreKeeps(w, s);
    case MakeCell(s, dir) => MakeCellKeeps(w, s, dir);
    case MakeAttempt(s, g) => MakeAttemptKeeps(w, s, g);
    case SyncAttempt => SyncAttemptKeeps(w);
    case MakeSubdirectory(g, rel) => MakeSubdirectoryKeeps(w, g, rel);
    case BeginStage(g, rel, payload, serial, i) => BeginStageKeeps(w, g, rel, payload, serial, i);
    case SyncUp => SyncUpKeeps(w);
    case Validate(g, m) => ValidateKeeps(w, g, m);
    case CloseAttempt(g) => CloseAttemptKeeps(w, g);
    case Crash(e) => CrashKeeps(w, e);
  }

  lemma {:induction false} RunKeeps(w: World, steps: seq<Step>, w': World)
    requires Inv(w) && Run(w, steps, w')
    ensures Inv(w')
    decreases |steps|
  {
    if steps == [] {
    } else {
      StepKeeps(w, steps[0]);
      RunKeeps(Next(w, steps[0]), steps[1..], w');
    }
  }

  // ----- Crash consistency -----

  /** Cut any run anywhere by a crash: whatever pointer a cell is left with is a pointer it could
      have had, and it names a generation that is complete, loads, and reads back file by file. */
  lemma {:induction false} CrashConsistency(steps: seq<Step>, w: World, e: Disk, c: CellId)
    requires Run(START, steps, w) && CrashImage(w.disk, e) && Pointer(c) in e.now
    ensures var v := e.now[Pointer(c)];
      && Could(w.disk, Pointer(c), Some(v))
      && v.File? && v.inode in e.data && e.data[v.inode].RefDoc?
      && var ref := e.data[v.inode].ref;
      && ref.g.cell == c
      && Sealed(e, ref)
      && var m := ref.manifest.doc.manifest;
      && LoadRef(e, ref) == (if Readable(m) then Found(m) else Failed(ArtifactOrder))
      && (Readable(m) ==> forall k | 0 <= k < |m.files| ::
           ReadArtifact(e, ref, m.files[k].rel) == Some(m.files[k].digest.doc))
  {
    StartOk();
    RunKeeps(START, steps, w);
    CrashKeeps(w, e);
    var v := e.now[Pointer(c)];
    assert e.At(Pointer(c)) == Some(v) && Could(e, Pointer(c), Some(v));
    assert PointsAt(e, c, v);
    var ref := e.data[v.inode].ref;
    SealedLoads(e, ref);
    var m := ref.manifest.doc.manifest;
    if Readable(m) {
      forall k | 0 <= k < |m.files| ensures ReadArtifact(e, ref, m.files[k].rel) == Some(m.files[k].digest.doc) {
        SealedReads(e, ref, k);
      }
    }
  }

  // ----- What a step writes -----

  function Touched(w: World, step: Step): set<Path> {
    var d, a := w.disk, w.activity;
    match step
    case OpenRoot(_) => if RunRoot in d.now then {} else {RunRoot}
    case OpenIdentity(_, _) => if Identity in d.now then {} else {Identity}
    case OpenCells(_) => if CellsDir in d.now then {} else {CellsDir}
    case MakeCell(_, dir) => {dir}
    case MakeAttempt(_, g) => {Tree(g, [])}
    case MakeSubdirectory(g, rel) => {Tree(g, rel)}
    case BeginStage(g, rel, payload, serial, _) => {TempOf(g, StageJob(rel, payload), serial)}
    case BeginManifest(serial, _) => if a.Validated? then {TempOf(a.g, ManifestJob(a.manifest), serial)} else {}
    case BeginPointer(serial, _) => if a.Published? then {TempOf(a.g, PointerJob(a.manifest), serial)} else {}
    case Place => if a.Writing? then {Target(a.g, a.job), TempOf(a.g, a.job, a.serial)} else {}
    case DropTemp => if a.Writing? then {TempOf(a.g, a.job, a.serial)} else {}
    case Fault(_) => if a.Writing? then {TempOf(a.g, a.job, a.serial)} else {}
    case _ => {}
  }

  /** The attempt whose own entries the step writes; such an attempt has no manifest yet. */
  function Author(w: World, step: Step): Option<Gen> {
    var a := w.activity;
    match step
    case MakeSubdirectory(g, _) => Some(g)
    case BeginStage(g, _, _, _, _) => Some(g)
    case Place => if a.Writing? && !a.job.PointerJob? then Some(a.g) else None
    case DropTemp => if a.Writing? && a.job.StageJob? then Some(a.g) else None
    case Fault(_) => if a.Writing? && a.job.StageJob? then Some(a.g) else None
    case _ => None
  }

  /** The step changes only what it touches, which leaves every other attempt alone. */
  ghost predicate Framed(w: World, e: Disk, touched: set<Path>, author: Option<Gen>) {
    && Within(w.disk, e, touched) && Spares(w.disk, touched, author)
    && (author.Some? ==> NoManifest(w.disk, author.value))
  }

  lemma ConstructorFrame(w: World, step: Step)
    requires Inv(w) && Enabled(w, step) && ConstructorStep(step)
    ensures Framed(w, Next(w, step).disk, Touched(w, step), None)
  {
    hide PointersOk, OwnedOk, StoresOk, AttemptsOk, BusyOk;
    var d := w.disk;
    match step
    case OpenRoot(s) => if RunRoot !in d.now { PutWithin(d, RunRoot, Some(Directory)); }
    case OpenSync(s) => SyncDirWithin(d, Namespace); SyncDirWithin(d, RunRoot);
    case OpenIdentity(s, i) => if Identity !in d.now { NewIdentity(d, i); }
    case OpenCells(s) => if CellsDir !in d.now { PutWithin(d, CellsDir, Some(Directory)); }
    case NewStore(_) =>
  }

  lemma BeginFrame(w: World, step: Step)
    requires Inv(w) && Enabled(w, step) && (step.BeginManifest? || step.BeginPointer?)
    ensures Framed(w, Next(w, step).disk, Touched(w, step), None)
  {
    hide PointersOk, OwnedOk, StoresOk, AttemptsOk, BusyOk;
    var d, a := w.disk, w.activity;
    match step
    case BeginManifest(serial, i) => BegunWithin(d, TempOf(a.g, ManifestJob(a.manifest), serial), i);
    case BeginPointer(serial, i) => BegunWithin(d, TempOf(a.g, PointerJob(a.manifest), serial), i);
  }

  lemma FileFrame(w: World, step: Step)
    requires Inv(w) && Enabled(w, step) && FileStep(step)
    ensures Framed(w, Next(w, step).disk, Touched(w, step), Author(w, step))
  {
    var d, a := w.disk, w.activity;
    match step
    case BeginManifest(_, _) => BeginFrame(w, step);
    case BeginPointer(_, _) => BeginFrame(w, step);
    case Fill => WritingFacts(w); WriteWithin(d, a.inode, Payload(a.job));
    case Flush => WritingFacts(w); SyncFileWithin(d, a.inode);
    case Place => PlaceFrame(w);
    case DropTemp => DropFrame(w);
    case SyncParent => WritingFacts(w); NextAfterSync(w); SyncDirWithin(d, Parent(Target(a.g, a.job)));
    case Fault(dropTemp) => if a.Writing? { DropFrame(w); }
  }

  lemma StageFrameStep(w: World, step: Step)
    requires Inv(w) && Enabled(w, step) && (step.MakeSubdirectory? || step.BeginStage?)
    ensures Framed(w, Next(w, step).disk, Touched(w, step), Author(w, step))
  {
    hide PointersOk, OwnedOk, StoresOk, AttemptsOk, BusyOk;
    IdleFacts(w, step.g);
    match step
    case MakeSubdirectory(g, rel) => MakeSubdirectoryDisk(w.disk, g, rel);
    case BeginStage(g, rel, payload, serial, i) => BegunWithin(w.disk, TempOf(g, StageJob(rel, payload), serial), i);
  }

  lemma BeginStepFrame(w: World, step: Step)
    requires Inv(w) && Enabled(w, step) && (step.MakeCell? || step.MakeAttempt? || step.SyncAttempt?)
    ensures Framed(w, Next(w, step).disk, Touched(w, step), Author(w, step))
  {
    hide PointersOk, OwnedOk, StoresOk, AttemptsOk, BusyOk;
    var d := w.disk;
    match step
    case MakeCell(s, dir) => PutWithin(d, dir, Some(Directory));
    case MakeAttempt(s, g) => PutWithin(d, Tree(g, []), Some(Directory));
    case SyncAttempt => SyncAttemptFrame(w);
  }

  lemma AttemptFrame(w: World, step: Step)
    requires Inv(w) && Enabled(w, step) && !step.Crash? && !ConstructorStep(step) && !FileStep(step)
    ensures Framed(w, Next(w, step).disk, Touched(w, step), Author(w, step))
  {
    hide PointersOk, OwnedOk, StoresOk, AttemptsOk, BusyOk;
    if step.MakeCell? || step.MakeAttempt? || step.SyncAttempt? {
      BeginStepFrame(w, step);
    } else if step.MakeSubdirectory? || step.BeginStage? {
      StageFrameStep(w, step);
    } else if step.SyncUp? {
      SyncUpFrame(w);
    }
  }

  lemma StepFrame(w: World, step: Step)
    requires Inv(w) && Enabled(w, step) && !step.Crash?
    ensures Framed(w, Next(w, step).disk, Touched(w, step), Author(w, step))
  {
    hide PointersOk, OwnedOk, StoresOk, AttemptsOk, BusyOk, Framed;
    if ConstructorStep(step) {
      ConstructorFrame(w, step);
    } else if FileStep(step) {
      FileFrame(w, step);
    } else {
      AttemptFrame(w, step);
    }
  }

  lemma SyncUpNext(w: World)
    requires Inv(w) && w.activity.Ascending?
    ensures w.activity.depth < |w.activity.rel|
    ensures Next(w, SyncUp).disk == w.disk.SyncDir(Tree(w.activity.g, w.activity.rel[..w.activity.depth]))
  {
    hide PointersOk, OwnedOk, StoresOk, AttemptsOk, Within;
  }

  lemma SyncUpFrame(w: World)
    requires Inv(w) && w.activity.Ascending?
    ensures Within(w.disk, Next(w, SyncUp).disk, {})
  {
    hide PointersOk, OwnedOk, StoresOk, AttemptsOk, BusyOk, Next;
    SyncUpNext(w);
    SyncDirWithin(w.disk, Tree(w.activity.g, w.activity.rel[..w.activity.depth]));
  }

  lemma SyncAttemptNext(w: World)
    requires w.activity.Starting?
    ensures var c, k := w.activity.g.cell, w.activity.synced;
      Next(w, SyncAttempt).disk ==
      w.disk.SyncDir(if k == 0 then CellsDir else if k == 1 then CellDir(c) else AttemptsDir(c))
  {
  }

  lemma SyncAttemptFrame(w: World)
    requires Inv(w) && w.activity.Starting?
    ensures Within(w.disk, Next(w, SyncAttempt).disk, {})
  {
    hide PointersOk, OwnedOk, StoresOk, AttemptsOk, BusyOk, Next;
    var c, k := w.activity.g.cell, w.activity.synced;
    SyncAttemptNext(w);
    SyncDirWithin(w.disk, if k == 0 then CellsDir else if k == 1 then CellDir(c) else AttemptsDir(c));
  }

  lemma PlaceFrame(w: World)
    requires Inv(w) && w.activity.Writing? && w.activity.stage == Flushed
    ensures var a := w.activity; var t := TempOf(a.g, a.job, a.serial);
      Framed(w, Publish(w.disk, a.g, a.job, a.serial, a.inode), {Target(a.g, a.job), t},
        if a.job.PointerJob? then None else Some(a.g))
  {
    hide PointersOk, OwnedOk, StoresOk, AttemptsOk, BusyOk, RootsOk, Sound, JobOk;
    var d, a := w.disk, w.activity;
    WritingFacts(w);
    match a.job
    case StageJob(_, _) => PlaceStageDisk(d, a); StageSpares(d, a);
    case ManifestJob(_) => PlaceManifestDisk(d, a);
    case PointerJob(_) => PlacePointerDisk(d, a);
  }

  lemma DropFrame(w: World)
    requires Inv(w) && w.activity.Writing?
    ensures var a := w.activity; var t := TempOf(a.g, a.job, a.serial);
      && Within(w.disk, WithoutTemp(w.disk, a), {t}) && Within(w.disk, w.disk, {t})
      && Spares(w.disk, {t}, if a.job.StageJob? then Some(a.g) else None)
      && (a.job.StageJob? ==> NoManifest(w.disk, a.g))
  {
    WritingFacts(w);
    DropWithin(w.disk, w.activity);
    if w.activity.job.StageJob? { StageSpares(w.disk, w.activity); } else { JobSpares(w.disk, w.activity); }
  }

  // ----- Stability of references -----

  /** Every crash in the run keeps the entry of the run root itself. */
  predicate RootSurvives(steps: seq<Step>) {
    forall step <- steps :: step.Crash? ==> step.image.IsDirectory(RunRoot)
  }

  lemma SealedStep(w: World, step: Step, ref: ArtifactRef)
    requires Inv(w) && Enabled(w, step) && Sealed(w.disk, ref)
    requires step.Crash? ==> step.image.IsDirectory(RunRoot)
    ensures Sealed(Next(w, step).disk, ref)
  {
    if step.Crash? {
      SealedSurvives(w.disk, step.image, ref);
    } else {
      StepFrame(w, step);
      assert Could(w.disk, Manifest(ref.g), Some(w.disk.now[Manifest(ref.g)]));
      OthersKept(w.disk, Next(w, step).disk, Touched(w, step), Author(w, step));
    }
  }

  lemma {:induction false} SealedRun(w: World, steps: seq<Step>, w': World, ref: ArtifactRef)
    requires Inv(w) && Run(w, steps, w') && RootSurvives(steps) && Sealed(w.disk, ref)
    ensures Sealed(w'.disk, ref)
    decreases |steps|
  {
    if steps == [] {
    } else {
      assert steps[0] in steps;
      SealedStep(w, steps[0], ref);
      StepKeeps(w, steps[0]);
      SealedRun(Next(w, steps[0]), steps[1..], w', ref);
    }
  }

  /** A complete generation keeps loading as the same manifest and reading as the same bytes, in
      every later state: other attempts staging, committing or failing, stores closing and opening,
      pointers moving on, and crashes that keep the run root. */
  lemma {:induction false} RefStability(w: World, steps: seq<Step>, w': World, ref: ArtifactRef)
    requires Inv(w) && Run(w, steps, w') && RootSurvives(steps) && Sealed(w.disk, ref)
    ensures LoadRef(w'.disk, ref) == LoadRef(w.disk, ref)
    ensures forall rel :: ReadArtifact(w'.disk, ref, rel) == ReadArtifact(w.disk, ref, rel)
  {
    SealedRun(w, steps, w', ref);
    SealedLoads(w.disk, ref);
    SealedLoads(w'.disk, ref);
    var m := ref.manifest.doc.manifest;
    forall rel ensures ReadArtifact(w'.disk, ref, rel) == ReadArtifact(w.disk, ref, rel) {
      if Names(m, rel) && Readable(m) {
        var k :| 0 <= k < |m.files| && m.files[k].rel == rel;
        SealedReads(w.disk, ref, k);
        SealedReads(w'.disk, ref, k);
      }
    }
  }

  // ----- Pointers: the old generation or the new one -----

  /** The cell pointer values a run publishes for cell `c`. */
  ghost function Placements(w: World, steps: seq<Step>, c: CellId): set<Option<Node>>
    decreases |steps|
  {
    if steps == [] then {}
    else
      (if steps[0] == Place && w.activity.Writing? && w.activity.job.PointerJob? && w.activity.g.cell == c
       then {Some(File(w.activity.inode))} else {})
      + Placements(Next(w, steps[0]), steps[1..], c)
  }

  /** Nothing but a commit's `os.replace` gives a cell a pointer, whatever faults and crashes happen:
      with one such step in the run a crash leaves the old pointer or the new one. */
  lemma {:induction false} OldOrNew(w: World, steps: seq<Step>, w': World, c: CellId, v: Option<Node>)
    requires Inv(w) && Run(w, steps, w') && RootSurvives(steps) && Could(w'.disk, Pointer(c), v)
    requires CellKept(w, c)
    ensures Could(w.disk, Pointer(c), v) || v in Placements(w, steps, c)
    decreases |steps|
  {
    if steps == [] {
    } else {
      assert steps[0] in steps;
      var next := Next(w, steps[0]);
      StepKeeps(w, steps[0]);
      CellKeptStep(w, steps[0], c);
      OldOrNew(next, steps[1..], w', c, v);
      if Could(next.disk, Pointer(c), v) { PointerStep(w, steps[0], c, v); }
    }
  }

  /** The cell directory is durable, as it is once an attempt of the cell was begun. */
  ghost predicate CellKept(w: World, c: CellId) {
    w.disk.IsDirectory(RunRoot) && Firm(w.disk, CellsDir, Directory) && Firm(w.disk, CellDir(c), Directory)
  }

  lemma CellKeptStep(w: World, step: Step, c: CellId)
    requires Inv(w) && Enabled(w, step) && CellKept(w, c) && (step.Crash? ==> step.image.IsDirectory(RunRoot))
    ensures CellKept(Next(w, step), c)
  {
    hide PointersOk, OwnedOk, StoresOk, AttemptsOk, BusyOk;
    if step.Crash? {
      FirmSurvives(w.disk, step.image, CellsDir, Directory);
      FirmSurvives(w.disk, step.image, CellDir(c), Directory);
    } else {
      StepFrame(w, step);
      var e := Next(w, step).disk;
      PresentKept(w, step, RunRoot);
      PresentKept(w, step, CellsDir);
      PresentKept(w, step, CellDir(c));
      FirmWithin(w.disk, e, Touched(w, step), CellsDir, Directory);
      FirmWithin(w.disk, e, Touched(w, step), CellDir(c), Directory);
    }
  }

  lemma {:induction false} PointerStep(w: World, step: Step, c: CellId, v: Option<Node>)
    requires Inv(w) && Enabled(w, step) && CellKept(w, c) && (step.Crash? ==> step.image.IsDirectory(RunRoot))
    requires Could(Next(w, step).disk, Pointer(c), v)
    ensures Could(w.disk, Pointer(c), v) || v in Placements(w, [step], c)
  {
    if step.Crash? {
      CrashedPointer(w, step, c, v);
    } else if step == Place && w.activity.job.PointerJob? && w.activity.g.cell == c {
      PlacedPointerStep(w, v);
    } else {
      OtherPointerStep(w, step, c, v);
    }
  }

  lemma CrashedPointer(w: World, step: Step, c: CellId, v: Option<Node>)
    requires Inv(w) && Enabled(w, step) && CellKept(w, c) && step.Crash? && step.image.IsDirectory(RunRoot)
    requires Could(Next(w, step).disk, Pointer(c), v)
    ensures Could(w.disk, Pointer(c), v)
  {
    hide DiskOk, StoresOk, AttemptsOk, ActivityOk;
    CellKeptStep(w, step, c);
    assert step.image.IsDirectory(CellDir(c));
  }

  lemma {:induction false} PlacedPointerStep(w: World, v: Option<Node>)
    requires Inv(w) && Enabled(w, Place) && w.activity.job.PointerJob?
    requires Could(Next(w, Place).disk, Pointer(w.activity.g.cell), v)
    ensures Could(w.disk, Pointer(w.activity.g.cell), v) || v in Placements(w, [Place], w.activity.g.cell)
  {
    hide DiskOk, StoresOk, AttemptsOk, Sound, Within, WritingOk;
    WritingFacts(w);
    PlacePointerDisk(w.disk, w.activity);
  }

  lemma OtherPointerStep(w: World, step: Step, c: CellId, v: Option<Node>)
    requires Inv(w) && Enabled(w, step) && !step.Crash?
    requires !(step == Place && w.activity.job.PointerJob? && w.activity.g.cell == c)
    requires Could(Next(w, step).disk, Pointer(c), v)
    ensures Could(w.disk, Pointer(c), v)
  {
    hide DiskOk, StoresOk, AttemptsOk, ActivityOk, Next;
    StepFrame(w, step);
    assert Pointer(c) !in Touched(w, step);
  }

  /** After the last fsync of a commit the cell pointer is certain: only a lost run root can undo it. */
  lemma CommitIsDurable(w: World, e: Disk)
    requires Inv(w) && Enabled(w, SyncParent) && w.activity.job.PointerJob?
    requires CrashImage(Next(w, SyncParent).disk, e) && e.IsDirectory(RunRoot)
    ensures var ref := RefOf(w.activity.job.manifest);
      && Sealed(e, ref)
      && e.At(Pointer(ref.g.cell)) == Some(File(w.activity.inode))
      && w.activity.inode in e.data && e.data[w.activity.inode] == RefDoc(ref)
  {
    PointerPlaced(w);
    hide Inv, Enabled, Next, Sealed, Sound, CrashImage;
    PointerSurvives(w.disk, e, RefOf(w.activity.job.manifest), w.activity.inode);
  }

  lemma PointerPlaced(w: World)
    requires Inv(w) && Enabled(w, SyncParent) && w.activity.job.PointerJob?
    ensures var d, a := w.disk, w.activity; var ref := RefOf(a.job.manifest);
      && Next(w, SyncParent).disk == d.SyncDir(CellDir(ref.g.cell))
      && Sound(d) && Sealed(d, ref) && d.At(Pointer(ref.g.cell)) == Some(File(a.inode))
      && a.inode in d.synced && a.inode in d.data && d.data[a.inode] == RefDoc(ref)
  {
    hide DiskOk, StoresOk, AttemptsOk, Sealed, Sound, Next;
    WritingFacts(w);
    NextAfterSync(w);
  }

  lemma PointerSurvives(d: Disk, e: Disk, ref: ArtifactRef, i: Inode)
    requires Sound(d) && Sealed(d, ref) && d.At(Pointer(ref.g.cell)) == Some(File(i))
    requires i in d.synced && i in d.data && d.data[i] == RefDoc(ref)
    requires CrashImage(d.SyncDir(CellDir(ref.g.cell)), e) && e.IsDirectory(RunRoot)
    ensures Sealed(e, ref) && e.At(Pointer(ref.g.cell)) == Some(File(i)) && i in e.data && e.data[i] == RefDoc(ref)
  {
    var d' := d.SyncDir(CellDir(ref.g.cell));
    SyncedPointer(d, ref, i);
    SealedSurvives(d', e, ref);
    SealedHasCell(e, ref);
    hide Sealed, Firm;
    FirmSurvives(d', e, Pointer(ref.g.cell), File(i));
    FirmIsThere(e, Pointer(ref.g.cell), File(i));
  }

  lemma SyncedPointer(d: Disk, ref: ArtifactRef, i: Inode)
    requires Sound(d) && Sealed(d, ref) && d.At(Pointer(ref.g.cell)) == Some(File(i))
    ensures var d' := d.SyncDir(CellDir(ref.g.cell));
      Sound(d') && Sealed(d', ref) && Firm(d', Pointer(ref.g.cell), File(i))
  {
    hide Sealed, Firm, Sound;
    SyncDirWithin(d, CellDir(ref.g.cell));
    SealedWithin(d, d.SyncDir(CellDir(ref.g.cell)), {}, ref);
  }

  lemma SealedHasCell(d: Disk, ref: ArtifactRef)
    requires Sealed(d, ref)
    ensures d.IsDirectory(CellDir(ref.g.cell))
  {
  }

  lemma FirmIsThere(d: Disk, p: Path, n: Node)
    requires Firm(d, p, n)
    ensures d.At(p) == Some(n)
  {
  }

  // ----- The run root -----

  /** A root whose entry is certain is in every crash image, and one whose entry is not can be lost. */
  lemma FirmRootSurvives(w: World)
    requires Inv(w)
    ensures Firm(w.disk, RunRoot, Directory) <==> forall e | CrashImage(w.disk, e) :: e.IsDirectory(RunRoot)
  {
    var d := w.disk;
    if Firm(d, RunRoot, Directory) {
      forall e | CrashImage(d, e) ensures e.IsDirectory(RunRoot) { FirmSurvives(d, e, RunRoot, Directory); }
    } else {
      RootMayBeLost(w);
    }
  }

  /** The disk after a crash that loses everything below the namespace. */
  function Lost(d: Disk): Disk { Disk(map[Namespace := Directory], {}, d.data, d.data.Keys) }

  lemma RootMayBeLost(w: World)
    requires Inv(w) && !Firm(w.disk, RunRoot, Directory)
    ensures CrashImage(w.disk, Lost(w.disk)) && !Lost(w.disk).IsDirectory(RunRoot)
  {
    var d, e := w.disk, Lost(w.disk);
    assert Could(d, RunRoot, None) by {
      if RunRoot in d.now { assert Could(d, RunRoot, Some(d.now[RunRoot])); }
      if v :| (RunRoot, v) in d.limbo && v != Some(Directory) { assert v.Some? ==> Could(d, RunRoot, Some(v.value)); }
    }
    forall p | e.At(p) == None ensures Could(d, p, None) || !e.IsDirectory(Parent(p)) {
      if Parent(p) == Namespace && p != RunRoot {
        assert d.At(p) == None by { if p in d.now { assert Could(d, p, Some(d.now[p])); } }
      }
    }
  }

  /** Whatever is committed survives every crash from the moment the root's entry was fsynced. */
  lemma RootStaysFirm(w: World, step: Step)
    requires Inv(w) && Enabled(w, step) && Firm(w.disk, RunRoot, Directory)
    ensures Firm(Next(w, step).disk, RunRoot, Directory)
  {
    if step.Crash? {
      FirmSurvives(w.disk, step.image, RunRoot, Directory);
    } else {
      StepFrame(w, step);
      PresentKept(w, step, RunRoot);
      FirmWithin(w.disk, Next(w, step).disk, Touched(w, step), RunRoot, Directory);
    }
  }

  /** The fsync of the directory that holds the root: only the constructor that made the root does it. */
  predicate SyncsNamespace(w: World, step: Step) {
    step.OpenSync? && Phase(w, step.s, SyncNamespace)
  }

  /** What a step does to the certainty of the root: making the root takes it away, its maker's fsync and
      a crash that the root survived give it back, and nothing else matters. */
  predicate SettledBy(w: World, step: Step, settled: bool) {
    if step.OpenRoot? && RunRoot !in w.disk.now then false
    else settled || step.Crash? || SyncsNamespace(w, step)
  }

  /** The same over a whole run. */
  ghost predicate RootSettled(w: World, steps: seq<Step>, settled: bool)
    decreases |steps|
  {
    if steps == [] then settled
    else RootSettled(Next(w, steps[0]), steps[1..], SettledBy(w, steps[0], settled))
  }

  lemma SettledStep(w: World, step: Step, settled: bool)
    requires Inv(w) && Enabled(w, step)
    requires RunRoot in w.disk.now ==> (Firm(w.disk, RunRoot, Directory) <==> settled)
    ensures var e := Next(w, step).disk;
      RunRoot in e.now ==> (Firm(e, RunRoot, Directory) <==> SettledBy(w, step, settled))
  {
    var d, e := w.disk, Next(w, step).disk;
    if step.Crash? {
      if RunRoot in e.now {
        assert e.At(RunRoot) == Some(e.now[RunRoot]);
        assert Could(d, RunRoot, Some(e.now[RunRoot]));
      }
    } else if RunRoot !in d.now {
      MakingRoot(w, step);
    } else if settled {
      RootStaysFirm(w, step);
    } else if SyncsNamespace(w, step) {
      SyncDirWithin(d, Namespace);
      assert Could(d, RunRoot, Some(d.now[RunRoot]));
    } else {
      PresentKept(w, step, RunRoot);
      assert Could(d, RunRoot, Some(d.now[RunRoot]));
      var v :| (RunRoot, v) in d.limbo && v != Some(Directory);
      LimboKept(w, step, v);
    }
  }

  lemma MakingRoot(w: World, step: Step)
    requires Inv(w) && Enabled(w, step) && !step.Crash? && RunRoot !in w.disk.now
    ensures var e := Next(w, step).disk;
      RunRoot in e.now ==> step.OpenRoot? && !Firm(e, RunRoot, Directory)
  {
    hide PointersOk, OwnedOk, StoresOk, AttemptsOk, BusyOk, Sound, RootsOk;
    if step.OpenRoot? {
      assert (RunRoot, None) in Next(w, step).disk.limbo;
    } else {
      hide Next;
      StepFrame(w, step);
      assert RunRoot !in Touched(w, step);
    }
  }

  lemma {:induction false} RootSettledRun(w: World, steps: seq<Step>, w': World, settled: bool)
    requires Inv(w) && Run(w, steps, w')
    requires RunRoot in w.disk.now ==> (Firm(w.disk, RunRoot, Directory) <==> settled)
    ensures RunRoot in w'.disk.now ==> (Firm(w'.disk, RunRoot, Directory) <==> RootSettled(w, steps, settled))
    decreases |steps|
  {
    if steps == [] {
    } else {
      StepKeeps(w, steps[0]);
      SettledStep(w, steps[0], settled);
      RootSettledRun(Next(w, steps[0]), steps[1..], w', SettledBy(w, steps[0], settled));
    }
  }

  /** After any run the root, and with it everything committed, survives every crash exactly when the
      constructor that last made it also got through its fsync of the parent, or a crash has already spared
      it. A constructor that finds the root there never repeats that fsync. */
  lemma {:induction false} RootDurableExactly(steps: seq<Step>, w: World)
    requires Run(START, steps, w) && RunRoot in w.disk.now
    ensures (forall e | CrashImage(w.disk, e) :: e.IsDirectory(RunRoot)) <==> RootSettled(START, steps, true)
  {
    StartOk();
    RunKeeps(START, steps, w);
    RootSettledRun(START, steps, w, true);
    FirmRootSurvives(w);
  }

  /** Some step of the run fsyncs the directory that holds the root. */
  ghost predicate NamespaceSynced(w: World, steps: seq<Step>)
    decreases |steps|
  {
    steps != [] && (SyncsNamespace(w, steps[0]) || NamespaceSynced(Next(w, steps[0]), steps[1..]))
  }

  /** Without crashes there is one maker, and the condition is that the run has its fsync. */
  lemma {:induction false} RootDurableUncrashed(w: World, steps: seq<Step>, w': World)
    requires Inv(w) && Run(w, steps, w') && (forall step <- steps :: !step.Crash?)
    requires RunRoot !in w.disk.now && RunRoot in w'.disk.now
    ensures (forall e | CrashImage(w'.disk, e) :: e.IsDirectory(RunRoot)) <==> NamespaceSynced(w, steps)
  {
    RunKeeps(w, steps, w');
    RootSettledRun(w, steps, w', false);
    SettledIsSynced(w, steps, w', false);
    FirmRootSurvives(w');
  }

  lemma {:induction false} SettledIsSynced(w: World, steps: seq<Step>, w': World, settled: bool)
    requires Inv(w) && Run(w, steps, w') && (forall step <- steps :: !step.Crash?)
    requires settled ==> RunRoot in w.disk.now
    ensures RootSettled(w, steps, settled) <==> settled || NamespaceSynced(w, steps)
    decreases |steps|
  {
    if steps == [] {
    } else {
      var step := steps[0];
      assert step in steps;
      StepKeeps(w, step);
      if RunRoot in w.disk.now { PresentKept(w, step, RunRoot); }
      if SyncsNamespace(w, step) { SyncingRoot(w, step); }
      SettledIsSynced(Next(w, step), steps[1..], w', SettledBy(w, step, settled));
    }
  }

  /** The root is there before and after its maker's fsync. */
  lemma SyncingRoot(w: World, step: Step)
    requires Inv(w) && Enabled(w, step) && SyncsNamespace(w, step)
    ensures RunRoot in w.disk.now && RunRoot in Next(w, step).disk.now
  {
    hide DiskOk, AttemptsOk, BusyOk;
    assert StorePhaseOk(w.disk, w.stores[step.s]);
  }

  /** A root made by a constructor that failed at its first fsync: later constructors find it there
      and never fsync its parent. */
  ghost predicate RootLoose(w: World) {
    && w.disk.IsDirectory(RunRoot) && (RunRoot, None) in w.disk.limbo
    && forall s <- w.stores :: w.stores[s] != SyncNamespace
  }

  lemma {:induction false} LooseRootStays(w: World, steps: seq<Step>, w': World)
    requires Inv(w) && RootLoose(w) && Run(w, steps, w') && forall step <- steps :: !step.Crash?
    ensures Inv(w') && RootLoose(w')
    ensures CrashImage(w'.disk, Lost(w'.disk))
    decreases |steps|
  {
    if steps == [] {
      RootMayBeLost(w);
    } else {
      assert steps[0] in steps;
      StepKeeps(w, steps[0]);
      LooseStep(w, steps[0]);
      LooseRootStays(Next(w, steps[0]), steps[1..], w');
    }
  }

  lemma LooseStep(w: World, step: Step)
    requires Inv(w) && RootLoose(w) && Enabled(w, step) && !step.Crash?
    ensures RootLoose(Next(w, step))
  {
    hide PointersOk, OwnedOk, StoresOk, AttemptsOk, BusyOk;
    var w' := Next(w, step);
    assert w'.disk.At(RunRoot) == w.disk.At(RunRoot) by { PresentKept(w, step, RunRoot); }
    LimboKept(w, step, None);
    PhasesKept(w, step);
  }

  /** Only fsyncing the namespace makes the root's entry certain. */
  lemma LimboKept(w: World, step: Step, v: Option<Node>)
    requires Inv(w) && Enabled(w, step) && !step.Crash? && !SyncsNamespace(w, step) && (RunRoot, v) in w.disk.limbo
    ensures (RunRoot, v) in Next(w, step).disk.limbo
  {
    hide DiskOk, StoresOk, AttemptsOk, BusyOk;
    if step.SyncParent? {
      SyncParentLimbo(w, v);
    } else if step.Place? || step.DropTemp? || step.Fault? {
      PlaceLimbo(w, step, v);
    }
  }

  lemma SyncParentLimbo(w: World, v: Option<Node>)
    requires Enabled(w, SyncParent) && (RunRoot, v) in w.disk.limbo
    ensures (RunRoot, v) in Next(w, SyncParent).disk.limbo
  {
    assert Parent(Target(w.activity.g, w.activity.job)) != Namespace;
  }

  lemma PlaceLimbo(w: World, step: Step, v: Option<Node>)
    requires Enabled(w, step) && (step.Place? || step.DropTemp? || step.Fault?) && (RunRoot, v) in w.disk.limbo
    ensures (RunRoot, v) in Next(w, step).disk.limbo
  {
  }

  lemma PhasesKept(w: World, step: Step)
    requires RootLoose(w) && Enabled(w, step) && !step.Crash?
    ensures forall s <- Next(w, step).stores :: Next(w, step).stores[s] != SyncNamespace
  {
  }

  /** An entry that is fixed once there keeps its value. */
  lemma PresentKept(w: World, step: Step, p: Path)
    requires Inv(w) && Enabled(w, step) && !step.Crash? && Fixed(p) && p in w.disk.now
    ensures Next(w, step).disk.At(p) == w.disk.At(p) && p !in Touched(w, step)
  {
    hide PointersOk, OwnedOk, StoresOk, AttemptsOk, BusyOk, Next, Enabled, Touched, Author;
    StepFrame(w, step);
  }

  /** Such a root is three steps away. */
  lemma LooseRootExample()
    ensures exists w :: Run(START, [NewStore(0), OpenRoot(0), CloseStore(0)], w) && RootLoose(w)
  {
    var w1 := Next(START, NewStore(0));
    var w2 := Next(w1, OpenRoot(0));
    var w3 := Next(w2, CloseStore(0));
    assert w2.stores[0] == SyncNamespace;
    assert Run(w2, [CloseStore(0)], w3);
    assert [NewStore(0), OpenRoot(0), CloseStore(0)][1..] == [OpenRoot(0), CloseStore(0)];
    assert [OpenRoot(0), CloseStore(0)][1..] == [CloseStore(0)];
    assert Run(w1, [OpenRoot(0), CloseStore(0)], w3);
    assert Run(START, [NewStore(0), OpenRoot(0), CloseStore(0)], w3);
  }

  // ----- One writer -----

  /** In every reachable state the open attempts of open stores belong to one store, the lock's holder. */
  lemma {:induction false} SingleWriter(steps: seq<Step>, w: World, g: Gen, h: Gen)
    requires Run(START, steps, w) && Usable(w, g) && Usable(w, h)
    ensures w.attempts[g].owner == w.attempts[h].owner && w.holder == Some(w.attempts[g].owner)
  {
    StartOk();
    RunKeeps(START, steps, w);
  }

  /** A step that changes an entry of an attempt is a step of that attempt, and the attempt and its
      store are open; the only others are the `mkdir` that makes it and a crash. */
  lemma WritesNeedOpenAttempt(w: World, step: Step, g: Gen, p: Path)
    requires Inv(w) && Enabled(w, step) && !step.Crash? && Belongs(g, p)
    requires Next(w, step).disk.At(p) != w.disk.At(p)
    ensures Usable(w, g) || (step.MakeAttempt? && step.g == g && Writer(w, step.s))
  {
    hide PointersOk, OwnedOk, StoresOk, AttemptsOk, BusyOk, Sound, Next;
    StepFrame(w, step);
    assert p in Touched(w, step);
  }

  /** Likewise a cell's pointer moves only for an open attempt of the cell. */
  lemma PointerNeedsOpenAttempt(w: World, step: Step, c: CellId)
    requires Inv(w) && Enabled(w, step) && !step.Crash?
    requires Next(w, step).disk.At(Pointer(c)) != w.disk.At(Pointer(c))
    ensures w.activity.Writing? && w.activity.g.cell == c && Usable(w, w.activity.g)
  {
    StepFrame(w, step);
    assert Pointer(c) in Touched(w, step);
  }

  /** Once its store is closed, by `close` or by a failed `begin`, an attempt stays unusable, so with
      the two lemmas above it can never again change the disk. */
  lemma {:induction false} StaleStaysStale(w: World, steps: seq<Step>, w': World, g: Gen)
    requires Inv(w) && Run(w, steps, w') && (forall step <- steps :: !step.Crash?)
    requires g in w.attempts && !Usable(w, g) && Tree(g, []) in w.disk.now
    ensures g in w'.attempts && w'.attempts[g].owner == w.attempts[g].owner && !Usable(w', g)
    decreases |steps|
  {
    if steps == [] {
    } else {
      var step, next := steps[0], Next(w, steps[0]);
      assert step in steps;
      StepKeeps(w, step);
      PresentKept(w, step, Tree(g, []));
      StaleStep(w, step, g);
      StaleStaysStale(next, steps[1..], w', g);
    }
  }

  lemma StaleStep(w: World, step: Step, g: Gen)
    requires Inv(w) && Enabled(w, step) && !step.Crash?
    requires g in w.attempts && !Usable(w, g) && Tree(g, []) in w.disk.now
    ensures var w' := Next(w, step); g in w'.attempts && w'.attempts[g].owner == w.attempts[g].owner && !Usable(w', g)
  {
    hide DiskOk, BusyOk, WithoutTemp, Publish;
    assert Phase(w, w.attempts[g].owner, Ready) || Phase(w, w.attempts[g].owner, Shut);
    if ConstructorStep(step) {
      StaleConstructorStep(w, step, g);
    } else if FileStep(step) {
      StaleFileStep(w, step, g);
    }
  }

  lemma StaleConstructorStep(w: World, step: Step, g: Gen)
    requires ConstructorStep(step) && Enabled(w, step) && g in w.attempts && !Usable(w, g)
    requires Phase(w, w.attempts[g].owner, Ready) || Phase(w, w.attempts[g].owner, Shut)
    ensures Next(w, step).attempts == w.attempts && !Usable(Next(w, step), g)
  {
  }

  lemma StaleFileStep(w: World, step: Step, g: Gen)
    requires FileStep(step) && g in w.attempts && !Usable(w, g)
    ensures var w' := Next(w, step); g in w'.attempts && w'.attempts[g].owner == w.attempts[g].owner && !Usable(w', g)
  {
    hide WithoutTemp, Publish;
  }
}
