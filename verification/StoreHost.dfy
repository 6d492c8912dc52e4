/** The machine the stores share, and the one way every file is published on it. Each operation is a
    run of the protocol; any call to the fault hook may raise. */
module StoreHost {
  import opened Options
  import opened PathOrder
  import opened ArtifactWalk
  import opened Disk
  import opened Generations
  import opened Protocol
  import opened Invariant
  import opened AttemptSteps
  import opened StoreTheorems
  import opened FileWrites

  // ----- Runs, one step longer -----

  lemma {:induction false} RunAppend(w: World, steps: seq<Step>, mid: World, step: Step)
    requires Run(w, steps, mid) && Enabled(mid, step)
    ensures Run(w, steps + [step], Next(mid, step))
    decreases |steps|
  {
    if steps == [] {
      assert [step][1..] == [];
      assert Run(Next(mid, step), [], Next(mid, step));
    } else {
      assert (steps + [step])[1..] == steps[1..] + [step];
      RunAppend(Next(w, steps[0]), steps[1..], mid, step);
    }
  }

  // ----- What a caller sees of the disk -----

  function PointerDoc(d: Disk, c: CellId): Option<Doc> {
    if Pointer(c) in d.now && d.now[Pointer(c)].File? && d.now[Pointer(c)].inode in d.data
    then Some(d.data[d.now[Pointer(c)].inode]) else None
  }

  datatype Current = NoCurrent | CurrentRef(ref: ArtifactRef) | Unloadable(kind: LoadError)

  /** `_load_current_ref`: the cell pointer, validated down to every file it stands for. */
  function LoadCurrent(d: Disk, c: CellId): Current {
    if CellDir(c) !in d.now || Pointer(c) !in d.now then NoCurrent
    else
      var doc := PointerDoc(d, c);
      if doc == None || !doc.value.RefDoc? || doc.value.ref.g.cell != c then Unloadable(CellMismatch)
      else
        var loaded := LoadRef(d, doc.value.ref);
        if loaded.Failed? then Unloadable(loaded.kind) else CurrentRef(doc.value.ref)
  }

  /** Reading the current pointer never fails for a generation the parser accepts. */
  lemma CurrentExactly(w: World, c: CellId)
    requires Inv(w)
    ensures var d := w.disk;
      if Pointer(c) !in d.now then LoadCurrent(d, c) == NoCurrent && PointerDoc(d, c) == None
      else
        && PointerDoc(d, c).Some? && PointerDoc(d, c).value.RefDoc?
        && var ref := PointerDoc(d, c).value.ref;
        && ref.g.cell == c && Sealed(d, ref)
        && LoadCurrent(d, c) ==
           if Readable(ref.manifest.doc.manifest) then CurrentRef(ref) else Unloadable(LoadError.ArtifactOrder)
  {
    var d := w.disk;
    if Pointer(c) in d.now {
      assert Could(d, Pointer(c), Some(d.now[Pointer(c)]));
      assert PointsAt(d, c, d.now[Pointer(c)]);
      SealedLoads(d, PointerDoc(d, c).value.ref);
    }
  }

  /** No cell's pointer reads differently. */
  ghost predicate SamePointers(d: Disk, e: Disk) {
    forall c :: PointerDoc(e, c) == PointerDoc(d, c)
  }

  /** Every complete generation is still complete. */
  ghost predicate SealedKept(d: Disk, e: Disk) {
    forall ref :: Sealed(d, ref) ==> Sealed(e, ref)
  }

  /** A file whose contents are fsynced, whatever becomes of its directories. */
  predicate Held(d: Disk, g: Gen, rel: Rel) {
    IsFile(d, g, rel) && d.now[Tree(g, rel)].inode in d.synced
  }

  /** Every such file of every attempt is unchanged, but for the one at `staged`. */
  ghost predicate FilesKept(d: Disk, e: Disk, staged: Option<(Gen, Rel)>) {
    forall g, rel :: Held(d, g, rel) && staged != Some((g, rel)) ==>
      Held(e, g, rel) && Contents(e, g, rel) == Contents(d, g, rel)
  }

  function Staged(g: Gen, job: Job): Option<(Gen, Rel)> {
    if job.StageJob? then Some((g, job.rel)) else None
  }

  function StagedBy(w: World, step: Step): Option<(Gen, Rel)> {
    if step == Place && w.activity.Writing? then Staged(w.activity.g, w.activity.job) else None
  }

  lemma FilesStep(w: World, step: Step)
    requires Inv(w) && Enabled(w, step) && !step.Crash?
    ensures FilesKept(w.disk, Next(w, step).disk, StagedBy(w, step))
  {
    hide PointersOk, OwnedOk, StoresOk, AttemptsOk, BusyOk, Next;
    StepFrame(w, step);
    forall g, rel | Held(w.disk, g, rel) && StagedBy(w, step) != Some((g, rel))
      ensures Held(Next(w, step).disk, g, rel) && Contents(Next(w, step).disk, g, rel) == Contents(w.disk, g, rel)
    {
      FileUntouched(w, step, g, rel);
      assert Next(w, step).disk.At(Tree(g, rel)) == w.disk.At(Tree(g, rel));
    }
  }

  lemma FileUntouched(w: World, step: Step, g: Gen, rel: Rel)
    requires Enabled(w, step) && Tree(g, rel) in w.disk.now && StagedBy(w, step) != Some((g, rel))
    ensures Tree(g, rel) !in Touched(w, step)
  {
  }

  predicate PlacesPointer(w: World, step: Step) {
    step == Place && w.activity.Writing? && w.activity.job.PointerJob?
  }

  lemma QuietStep(w: World, step: Step)
    requires Inv(w) && Enabled(w, step) && !step.Crash?
    ensures SealedKept(w.disk, Next(w, step).disk)
    ensures !PlacesPointer(w, step) ==> SamePointers(w.disk, Next(w, step).disk)
  {
    hide OwnedOk, StoresOk, AttemptsOk, BusyOk, Next, Enabled;
    var e := Next(w, step).disk;
    forall ref | Sealed(w.disk, ref) ensures Sealed(e, ref) { SealedStep(w, step, ref); }
    if !PlacesPointer(w, step) {
      StepFrame(w, step);
      forall c ensures PointerDoc(e, c) == PointerDoc(w.disk, c) {
        PointerUntouched(w, step, c);
        if Pointer(c) in w.disk.now {
          assert Could(w.disk, Pointer(c), Some(w.disk.now[Pointer(c)]));
          assert PointsAt(w.disk, c, w.disk.now[Pointer(c)]);
        }
      }
    }
  }

  lemma PointerUntouched(w: World, step: Step, c: CellId)
    requires !PlacesPointer(w, step) && Enabled(w, step)
    ensures Pointer(c) !in Touched(w, step)
  {
  }

  /** A run root that was there still is, as certain as before or made certain by the fsync of its parent. */
  ghost predicate RootKept(d: Disk, e: Disk, synced: bool) {
    RunRoot in d.now ==>
      RunRoot in e.now && (Firm(e, RunRoot, Directory) <==> Firm(d, RunRoot, Directory) || synced)
  }

  lemma RootStep(w: World, step: Step)
    requires Inv(w) && Enabled(w, step) && !step.Crash?
    ensures RootKept(w.disk, Next(w, step).disk, SyncsNamespace(w, step))
  {
    hide PointersOk, OwnedOk, StoresOk, AttemptsOk, BusyOk, Next, Enabled, Firm;
    if RunRoot in w.disk.now {
      PresentKept(w, step, RunRoot);
      SettledStep(w, step, Firm(w.disk, RunRoot, Directory));
    }
  }

  lemma PlacedPointer(w: World)
    requires Inv(w) && Enabled(w, Place) && PlacesPointer(w, Place)
    ensures var e := Next(w, Place).disk; var g := w.activity.g;
      && PointerDoc(e, g.cell) == Some(RefDoc(RefOf(w.activity.job.manifest)))
      && forall c :: c != g.cell ==> PointerDoc(e, c) == PointerDoc(w.disk, c)
  {
    hide OwnedOk, StoresOk, AttemptsOk, PointersOk;
    WritingFacts(w);
    PlacePointerDisk(w.disk, w.activity);
  }

  // ----- What the disk never holds -----

  /** Cells are directories, and whatever lies in an attempt has a safe name. */
  predicate TidyEntry(p: Path, v: Node) {
    && (p.CellDir? || p.AttemptsDir? || p.ManifestsDir? ==> v == Directory)
    && (p.Tree? ==> if p.rel == [] then v == Directory else SafeRel(p.rel))
  }

  ghost predicate Tidy(w: World) {
    && (forall p, v :: Could(w.disk, p, Some(v)) ==> TidyEntry(p, v))
    && (w.activity.Writing? && w.activity.job.StageJob? ==> SafeRel(w.activity.job.rel))
  }

  /** The entries a step makes. */
  function Made(w: World, step: Step): set<(Path, Node)> {
    var a := w.activity;
    match step
    case OpenRoot(_) => {(RunRoot, Directory)}
    case OpenIdentity(_, i) => {(Identity, File(i))}
    case OpenCells(_) => {(CellsDir, Directory)}
    case MakeCell(_, dir) => {(dir, Directory)}
    case MakeAttempt(_, g) => {(Tree(g, []), Directory)}
    case MakeSubdirectory(g, rel) => {(Tree(g, rel), Directory)}
    case BeginStage(g, rel, payload, serial, i) => {(TempOf(g, StageJob(rel, payload), serial), File(i))}
    case BeginManifest(serial, i) =>
      if a.Validated? then {(TempOf(a.g, ManifestJob(a.manifest), serial), File(i))} else {}
    case BeginPointer(serial, i) =>
      if a.Published? then {(TempOf(a.g, PointerJob(a.manifest), serial), File(i))} else {}
    case Place => if a.Writing? then {(Target(a.g, a.job), File(a.inode))} else {}
    case _ => {}
  }

  lemma MadeOnly(w: World, step: Step, p: Path, v: Node)
    requires Enabled(w, step) && Could(Next(w, step).disk, p, Some(v))
    ensures Could(w.disk, p, Some(v)) || (p, v) in Made(w, step)
  {
    hide FreshTemp;
    if FileStep(step) {
      hide Enabled, Next;
      MadeByFileStep(w, step, p, v);
    } else if ConstructorStep(step) {
      hide Enabled, Next;
      MadeByConstructorStep(w, step, p, v);
    } else if step.Crash? {
      assert step.image.At(p) == Some(v);
    }
  }

  lemma MadeByConstructorStep(w: World, step: Step, p: Path, v: Node)
    requires ConstructorStep(step) && Enabled(w, step) && Could(Next(w, step).disk, p, Some(v))
    ensures Could(w.disk, p, Some(v)) || (p, v) in Made(w, step)
  {
    hide FreshTemp;
  }

  lemma MadeByFileStep(w: World, step: Step, p: Path, v: Node)
    requires FileStep(step) && Enabled(w, step) && Could(Next(w, step).disk, p, Some(v))
    ensures Could(w.disk, p, Some(v)) || (p, v) in Made(w, step)
  {
    hide FreshTemp;
    if step.BeginManifest? || step.BeginPointer? {
      hide Enabled, Next;
      MadeByBeginning(w, step, p, v);
    } else if step == Place {
      hide Enabled, Next;
      MadeByPlacing(w, p, v);
    } else if step.SyncParent? || step.Fault? {
      hide Enabled, Next;
      NothingMade(w, step, p, v);
    }
  }

  lemma NothingMade(w: World, step: Step, p: Path, v: Node)
    requires (step.SyncParent? || step.Fault?) && Enabled(w, step) && Could(Next(w, step).disk, p, Some(v))
    ensures Could(w.disk, p, Some(v))
  {
    hide FreshTemp;
  }

  lemma MadeByBeginning(w: World, step: Step, p: Path, v: Node)
    requires (step.BeginManifest? || step.BeginPointer?) && Enabled(w, step)
    requires Could(Next(w, step).disk, p, Some(v))
    ensures Could(w.disk, p, Some(v)) || (p, v) in Made(w, step)
  {
    hide FreshTemp;
  }

  lemma MadeByPlacing(w: World, p: Path, v: Node)
    requires Enabled(w, Place) && Could(Next(w, Place).disk, p, Some(v))
    ensures Could(w.disk, p, Some(v)) || (p, v) in Made(w, Place)
  {
  }

  lemma TidyStep(w: World, step: Step)
    requires Tidy(w) && Enabled(w, step)
    ensures Tidy(Next(w, step))
  {
    forall p, v | Could(Next(w, step).disk, p, Some(v))
      ensures TidyEntry(p, v)
    {
      MadeOnly(w, step, p, v);
      MadeTidy(w, step);
    }
    JobTidy(w, step);
  }

  lemma MadeTidy(w: World, step: Step)
    requires Tidy(w) && Enabled(w, step)
    ensures forall e <- Made(w, step) :: TidyEntry(e.0, e.1)
  {
    hide SafeName;
  }

  lemma JobTidy(w: World, step: Step)
    requires Tidy(w) && Enabled(w, step)
    ensures var a := Next(w, step).activity; a.Writing? && a.job.StageJob? ==> SafeRel(a.job.rel)
  {
    hide SafeRel, WithoutTemp, Publish;
  }

  lemma {:induction false} TidyRun(w: World, steps: seq<Step>, w': World)
    requires Tidy(w) && Run(w, steps, w')
    ensures Tidy(w')
    decreases |steps|
  {
    if steps == [] {
    } else {
      TidyStep(w, steps[0]);
      TidyRun(Next(w, steps[0]), steps[1..], w');
    }
  }

  // ----- The machine the stores share -----

  class RunHost {
    var w: World
    ghost var past: seq<Step>

    /** How often an operation was made to fail. */
    ghost var faults: nat

    /** The present state is one the protocol reaches. */
    ghost predicate Valid() reads this`w, this`past { Run(START, past, w) }

    constructor ()
      ensures Valid() && w == START && past == [] && faults == 0
    {
      w, past, faults := START, [], 0;
    }

    lemma Facts()
      requires Valid()
      ensures Inv(w) && Tidy(w)
    {
      StartOk();
      RunKeeps(START, past, w);
      TidyRun(START, past, w);
    }

    /** The fault hook, or a system call: it may raise at any call. */
    method Invoke(operation: string) returns (raised: bool)
      modifies this`faults
      ensures faults == old(faults) + if raised then 1 else 0
    {
      raised := *;
      if raised { faults := faults + 1; }
    }

    method Do(step: Step)
      requires Valid() && Enabled(w, step) && !step.Crash?
      modifies this
      ensures Valid() && Inv(w) && w == Next(old(w), step) && past == old(past) + [step] && faults == old(faults)
      ensures FilesKept(old(w.disk), w.disk, StagedBy(old(w), step))
      ensures SealedKept(old(w.disk), w.disk)
      ensures !PlacesPointer(old(w), step) ==> SamePointers(old(w.disk), w.disk)
      ensures RootKept(old(w.disk), w.disk, SyncsNamespace(old(w), step))
    {
      Facts();
      RootStep(w, step);
      QuietStep(w, step);
      FilesStep(w, step);
      RunAppend(START, past, w, step);
      w, past := Next(w, step), past + [step];
      Facts();
    }
  }

  // ----- _atomic_file -----

  const CHUNK_BYTES := 1024 * 1024

  /** The cell pointer of `g`'s cell now reads as the reference to `m`, and no other pointer changed. */
  ghost predicate Repointed(d: Disk, e: Disk, m: CommittedManifest) {
    && PointerDoc(e, m.g.cell) == Some(RefDoc(RefOf(m)))
    && forall c :: c != m.g.cell ==> PointerDoc(e, c) == PointerDoc(d, c)
  }

  /** A published pointer; after a fault possibly not yet. */
  ghost predicate Moved(d: Disk, e: Disk, m: CommittedManifest, raised: bool) {
    Repointed(d, e, m) || (raised && SamePointers(d, e))
  }

  /** What a caller has once the file is out: staged contents in place, a pointer no crash can undo. */
  ghost predicate Delivered(d: Disk, g: Gen, job: Job) {
    match job
    case StageJob(rel, payload) => Held(d, g, rel) && Contents(d, g, rel) == Some(payload)
    case ManifestJob(_) => true
    case PointerJob(_) => forall v :: Could(d, Pointer(g.cell), v) ==> v == d.At(Pointer(g.cell))
  }

  /** What each caller has established before it writes. */
  ghost predicate MayWrite(w: World, g: Gen, job: Job) {
    Usable(w, g) &&
    match job
    case StageJob(rel, payload) =>
      && w.activity == Resting && SafeRel(rel) && payload.Bytes?
      && AlongDirectories(w.disk, g, rel) && !w.disk.IsDirectory(Tree(g, rel))
    case ManifestJob(m) => w.activity == Validated(g, m) && m.g == g
    case PointerJob(m) => w.activity == Published(g, m) && m.g == g
  }

  /** Where the writer stands once the parent directory is fsynced. */
  function Written(g: Gen, job: Job): Activity {
    match job
    case StageJob(rel, _) => if rel == [] then Resting else Ascending(g, rel, |rel| - 1)
    case ManifestJob(m) => Published(g, m)
    case PointerJob(_) => Resting
  }

  ghost function Largest(s: set<nat>): (r: nat)
    ensures forall n <- s :: n <= r
  {
    if s == {} then 0
    else
      var n :| n in s;
      var rest := Largest(s - {n});
      assert forall m <- s :: m == n || m in s - {n};
      if n > rest then n else rest
  }

  /** There is always an unused inode, and an unused temporary name. */
  lemma FreshFile(d: Disk, dir: Path)
    ensures exists i: nat :: i !in d.data.Keys
    ensures exists n: nat :: Temp(dir, n) !in d.now
  {
    assert Largest(d.data.Keys) + 1 !in d.data.Keys;
    var used := set p | p in d.now && p.Temp? :: p.serial;
    assert Largest(used) + 1 !in used;
    assert Temp(dir, Largest(used) + 1) !in d.now;
  }

  /** Stores, lock, complete generations and staged files are as before, but for the file at `staged`. */
  ghost predicate Kept(w: World, w': World, staged: Option<(Gen, Rel)>) {
    w'.stores == w.stores && w'.holder == w.holder && SealedKept(w.disk, w'.disk) && FilesKept(w.disk, w'.disk, staged)
  }

  ghost predicate Abandoned(w: World, w': World, g: Gen) {
    w'.attempts == Closing(w, g).attempts && w'.activity == Resting
  }

  lemma FaultAbandons(w: World)
    requires w.activity != Resting && !w.activity.Starting?
    ensures forall drop :: var w' := Next(w, Fault(drop));
      w'.stores == w.stores && w'.holder == w.holder && w'.activity == Resting
      && w'.attempts == Closing(w, w.activity.g).attempts
  {
  }

  lemma WriteNext(w: World, step: Step)
    requires w.activity.Writing? && step in {Fill, Flush, Place, DropTemp}
    ensures var w' := Next(w, step);
      w'.stores == w.stores && w'.holder == w.holder && w'.attempts == w.attempts
      && w'.activity == match step
         case Fill => w.activity.(stage := Filled)
         case Flush => w.activity.(stage := Flushed)
         case Place => w.activity.(stage := Placed)
         case DropTemp => w.activity
  {
  }

  /** The fault hook and, if it lets the operation through, the operation. */
  method Attempted(host: RunHost, operation: string, step: Step) returns (raised: bool)
    requires host.Valid() && Inv(host.w) && host.w.activity.Writing? && Enabled(host.w, step)
    requires step in {Fill, Flush, Place}
    modifies host
    ensures host.Valid() && Inv(host.w) && Kept(old(host.w), host.w, StagedBy(old(host.w), step))
    ensures raised ==>
      Abandoned(old(host.w), host.w, old(host.w.activity.g)) && SamePointers(old(host.w.disk), host.w.disk)
    ensures !raised ==> host.w == Next(old(host.w), step)
    ensures !raised && !PlacesPointer(old(host.w), step) ==> SamePointers(old(host.w.disk), host.w.disk)
    ensures !raised && PlacesPointer(old(host.w), step) ==>
      Repointed(old(host.w.disk), host.w.disk, old(host.w.activity.job.manifest))
    ensures host.faults == old(host.faults) + if raised then 1 else 0
  {
    hide Inv, Run, Next, Sealed, PointerDoc;
    raised := host.Invoke(operation);
    if raised {
      FaultAbandons(host.w);
      host.Do(Fault(true));
    } else {
      WriteNext(host.w, step);
      if PlacesPointer(host.w, step) { PointerMoves(host.w); }
      host.Do(step);
    }
  }

  lemma PointerMoves(w: World)
    requires Inv(w) && Enabled(w, Place) && PlacesPointer(w, Place)
    ensures Repointed(w.disk, Next(w, Place).disk, w.activity.job.manifest)
  {
    hide DiskOk, StoresOk, AttemptsOk, Next, Sealed, PointerDoc;
    WritingFacts(w);
    PlacedPointer(w);
  }

  lemma BeginEnabled(w: World, g: Gen, job: Job, serial: nat, i: Inode)
    requires Inv(w) && MayWrite(w, g, job) && FreshTemp(w.disk, g, job, serial, i)
    ensures Enabled(w, BeginOf(g, job, serial, i)) && Next(w, BeginOf(g, job, serial, i)) == Begun(w, g, job, serial, i)
  {
    hide DiskOk, StoresOk, AttemptsOk, BusyOk;
  }

  function BeginOf(g: Gen, job: Job, serial: nat, i: Inode): Step {
    match job
    case StageJob(rel, payload) => BeginStage(g, rel, payload, serial, i)
    case ManifestJob(_) => BeginManifest(serial, i)
    case PointerJob(_) => BeginPointer(serial, i)
  }

  /** What the target holds from the moment it is published. */
  lemma PlaceDelivers(w: World)
    requires Inv(w) && Enabled(w, Place) && w.activity.job.StageJob?
    ensures var a, e := w.activity, Next(w, Place).disk;
      Held(e, a.g, a.job.rel) && Contents(e, a.g, a.job.rel) == Some(a.job.payload)
  {
    hide StoresOk, AttemptsOk, PointersOk, OwnedOk;
    WritingFacts(w);
    PlaceStageDisk(w.disk, w.activity);
  }

  lemma SyncSettlesPointer(d: Disk, c: CellId)
    requires Sound(d)
    ensures var e := d.SyncDir(CellDir(c)); forall v :: Could(e, Pointer(c), v) ==> v == e.At(Pointer(c))
  {
    SyncDirWithin(d, CellDir(c));
  }

  lemma SyncEnds(w: World)
    requires Inv(w) && w.activity.Writing? && w.activity.stage == Placed
    ensures var w' := Next(w, SyncParent); var a := w.activity;
      (a.job.PointerJob? ==> Delivered(w'.disk, a.g, a.job)) &&
      w'.stores == w.stores && w'.holder == w.holder && w'.activity == Written(a.g, a.job)
      && w'.attempts == if a.job.PointerJob? then Closing(w, a.g).attempts else w.attempts
  {
    hide PointersOk, OwnedOk, StoresOk, AttemptsOk;
    WritingFacts(w);
    NextAfterSync(w);
    SyncSettlesPointer(w.disk, w.activity.g.cell);
  }

  /** `mkstemp`: a temporary of an unused name, in the directory of its target. */
  method MakeTemporary(host: RunHost, g: Gen, job: Job)
    requires host.Valid() && Inv(host.w) && MayWrite(host.w, g, job)
    modifies host
    ensures host.Valid() && Inv(host.w) && Kept(old(host.w), host.w, None)
    ensures SamePointers(old(host.w.disk), host.w.disk) && host.w.attempts == old(host.w.attempts)
    ensures WritingJob(host.w, g, job, Created) && host.faults == old(host.faults)
  {
    hide Inv, Run, Sealed, PointerDoc, Next, Enabled, MayWrite;
    FreshFile(host.w.disk, Parent(Target(g, job)));
    var inode: nat :| inode !in host.w.disk.data.Keys;
    var serial: nat :| Temp(Parent(Target(g, job)), serial) !in host.w.disk.now;
    BeginEnabled(host.w, g, job, serial, inode);
    host.Do(BeginOf(g, job, serial, inode));
  }

  predicate WritingJob(w: World, g: Gen, job: Job, stage: Stage) {
    w.activity.Writing? && w.activity.g == g && w.activity.job == job && w.activity.stage == stage
  }

  /** The write loops on a new temporary: a caller's bytes in one go, or a source file chunk by chunk. */
  method WriteContents(host: RunHost, payload: Bytes, fromFile: bool) returns (raised: bool, ghost written: Bytes)
    modifies host`faults
    ensures !raised ==> written == payload
    ensures raised ==> exists k | 0 <= k <= |payload| :: written == payload[..k]
    ensures host.faults == old(host.faults) + if raised then 1 else 0
  {
    var fd := new Descriptor();
    if fromFile {
      raised := CopySource(fd, payload, CHUNK_BYTES);
    } else {
      raised := WriteAll(fd, payload);
    }
    written, host.faults := fd.contents, host.faults + fd.faults;
    if raised {
      ghost var k :| 0 <= k <= |payload| && written == [] + payload[..k];
      assert written == payload[..k];
    }
  }

  /** The contents of the temporary: staged bytes through the write loops, a document as its text. */
  method FillTemporary(host: RunHost, g: Gen, job: Job, fromFile: bool) returns (raised: bool, ghost written: Bytes)
    requires host.Valid() && Inv(host.w) && WritingJob(host.w, g, job, Created)
    requires job.StageJob? ==> job.payload.Bytes?
    modifies host
    ensures host.Valid() && Inv(host.w) && Kept(old(host.w), host.w, None)
    ensures SamePointers(old(host.w.disk), host.w.disk)
    ensures raised ==> Abandoned(old(host.w), host.w, g)
    ensures !raised ==> host.w.attempts == old(host.w.attempts) && WritingJob(host.w, g, job, Filled)
    ensures !raised && job.StageJob? ==> TemporaryHolds(host.w, Doc.Bytes(written))
    ensures host.faults == old(host.faults) + if raised then 1 else 0
  {
    hide Inv, Run, Sealed, PointerDoc, Held, Contents, Next;
    WriteNext(host.w, Fill);
    if job.StageJob? {
      raised, written := WriteContents(host, job.payload.payload, fromFile);
      FillHolds(host.w);
      if raised {
        FaultAbandons(host.w);
        host.Do(Fault(true));
      } else {
        host.Do(Fill);
      }
    } else {
      raised := Attempted(host, "write", Fill);
      written := [];
    }
  }

  ghost predicate TemporaryHolds(w: World, doc: Doc) {
    w.activity.Writing? && w.activity.inode in w.disk.data && w.disk.data[w.activity.inode] == doc
  }

  lemma FillHolds(w: World)
    requires w.activity.Writing?
    ensures TemporaryHolds(Next(w, Fill), Payload(w.activity.job))
  {
  }

  /** The first half of `_atomic_file`: the temporary, written and fsynced. */
  method WriteTemporary(host: RunHost, g: Gen, job: Job, fromFile: bool) returns (raised: bool)
    requires host.Valid() && Inv(host.w) && MayWrite(host.w, g, job)
    modifies host
    ensures host.Valid() && Inv(host.w) && Kept(old(host.w), host.w, None)
    ensures SamePointers(old(host.w.disk), host.w.disk)
    ensures raised ==> Abandoned(old(host.w), host.w, g)
    ensures !raised ==> host.w.attempts == old(host.w.attempts) && WritingJob(host.w, g, job, Flushed)
    ensures host.faults == old(host.faults) + if raised then 1 else 0
  {
    hide Inv, Run, Sealed, PointerDoc, Next, MayWrite;
    MayWriteBytes(host.w, g, job);
    MakeTemporary(host, g, job);
    ghost var written;
    raised, written := FillTemporary(host, g, job, fromFile);
    if !raised {
      WriteNext(host.w, Flush);
      raised := Attempted(host, "fsync", Flush);
    }
  }

  lemma MayWriteBytes(w: World, g: Gen, job: Job)
    requires MayWrite(w, g, job)
    ensures job.StageJob? ==> job.payload.Bytes?
  {
  }

  lemma KeptTransitive(a: World, b: World, c: World, x: Option<(Gen, Rel)>, y: Option<(Gen, Rel)>,
                       staged: Option<(Gen, Rel)>)
    requires Kept(a, b, x) && Kept(b, c, y) && x in {None, staged} && y in {None, staged}
    ensures Kept(a, c, staged)
  {
    hide Sealed, Held, Contents;
  }

  /** The end of `_atomic_file`: drop the temporary, fsync the directory. */
  method FinishPublication(host: RunHost, g: Gen, job: Job) returns (raised: bool)
    requires host.Valid() && Inv(host.w) && WritingJob(host.w, g, job, Placed)
    requires job.StageJob? ==> Delivered(host.w.disk, g, job)
    modifies host
    ensures host.Valid() && Inv(host.w) && Kept(old(host.w), host.w, None) &&
      SamePointers(old(host.w.disk), host.w.disk)
    ensures raised ==> Abandoned(old(host.w), host.w, g)
    ensures !raised ==> host.w.activity == Written(g, job) && Delivered(host.w.disk, g, job)
    ensures !raised ==>
      host.w.attempts == if job.PointerJob? then Closing(old(host.w), g).attempts else old(host.w.attempts)
    ensures host.faults == old(host.faults) + if raised then 1 else 0
  {
    hide Inv, Run, Sealed, PointerDoc, Next, Held, Contents;
    WriteNext(host.w, DropTemp);
    host.Do(DropTemp);
    raised := host.Invoke("fsync");
    if raised {
      FaultAbandons(host.w);
      host.Do(Fault(true));
    } else {
      SyncEnds(host.w);
      host.Do(SyncParent);
    }
  }

  /** The second half: link or replace, then the directory. */
  method PublishTemporary(host: RunHost, g: Gen, job: Job) returns (raised: bool)
    requires host.Valid() && Inv(host.w) && WritingJob(host.w, g, job, Flushed)
    modifies host
    ensures host.Valid() && Inv(host.w) && Kept(old(host.w), host.w, Staged(g, job))
    ensures raised ==> Abandoned(old(host.w), host.w, g)
    ensures !raised ==> host.w.activity == Written(g, job) && Delivered(host.w.disk, g, job)
    ensures !raised ==>
      host.w.attempts == if job.PointerJob? then Closing(old(host.w), g).attempts else old(host.w.attempts)
    ensures !job.PointerJob? ==> SamePointers(old(host.w.disk), host.w.disk)
    ensures job.PointerJob? ==> Moved(old(host.w.disk), host.w.disk, job.manifest, raised)
    ensures host.faults == old(host.faults) + if raised then 1 else 0
  {
    hide Inv, Run, Sealed, PointerDoc, Next, Held, Contents, Kept;
    ghost var start := host.w;
    PlaceEnabled(host.w);
    WriteNext(host.w, Place);
    if job.StageJob? { PlaceDelivers(host.w); }
    raised := Attempted(host, if job.ManifestJob? then "link" else "replace", Place);
    if raised {
      NothingStaged(start, host.w, StagedBy(start, Place), Staged(g, job));
      return;
    }
    ghost var placed := host.w;
    raised := FinishPublication(host, g, job);
    KeptTransitive(start, placed, host.w, StagedBy(start, Place), None, Staged(g, job));
  }

  lemma NothingStaged(a: World, b: World, x: Option<(Gen, Rel)>, staged: Option<(Gen, Rel)>)
    requires Kept(a, b, x) && x in {None, staged}
    ensures Kept(a, b, staged)
  {
    hide Sealed, Held, Contents;
  }

  /** Creates, writes, fsyncs and publishes one file, fsyncing its directory last. */
  method AtomicFile(host: RunHost, g: Gen, job: Job, fromFile: bool) returns (raised: bool)
    requires host.Valid() && Inv(host.w) && MayWrite(host.w, g, job)
    modifies host
    ensures host.Valid() && Inv(host.w) && Kept(old(host.w), host.w, Staged(g, job))
    ensures raised ==> Abandoned(old(host.w), host.w, g)
    ensures !raised ==> host.w.activity == Written(g, job) && Delivered(host.w.disk, g, job)
    ensures !raised ==>
      host.w.attempts == if job.PointerJob? then Closing(old(host.w), g).attempts else old(host.w.attempts)
    ensures !job.PointerJob? ==> SamePointers(old(host.w.disk), host.w.disk)
    ensures job.PointerJob? ==> Moved(old(host.w.disk), host.w.disk, job.manifest, raised)
    ensures host.faults == old(host.faults) + if raised then 1 else 0
  {
    hide Inv, Run, Sealed, PointerDoc, Next, Held, Contents;
    ghost var start := host.w;
    raised := WriteTemporary(host, g, job, fromFile);
    if raised { return; }
    if job.PointerJob? {
      raised := host.Invoke("manifest_publication");
      if raised {
        FaultAbandons(host.w);
        host.Do(Fault(true));
        return;
      }
    }
    ghost var flushed := host.w;
    raised := PublishTemporary(host, g, job);
    KeptTransitive(start, flushed, host.w, None, Staged(g, job), Staged(g, job));
  }

  /** `os.link` never finds the manifest's name taken: an attempt commits at most once. */
  lemma PlaceEnabled(w: World)
    requires Inv(w) && w.activity.Writing? && w.activity.stage == Flushed
    ensures Enabled(w, Place)
  {
    hide DiskOk, StoresOk, AttemptsOk;
    WritingFacts(w);
    if w.activity.job.ManifestJob? {
      var p := Manifest(w.activity.g);
      assert p in w.disk.now ==> Could(w.disk, p, Some(w.disk.now[p]));
    }
  }
}
