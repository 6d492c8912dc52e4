/** The store as a state machine: every step is one file-system operation or one lifecycle event of
    some store or attempt, a fault stops an operation between two steps, and a crash is a step. */
module Protocol {
  import opened Options
  import opened PathOrder
  import opened Disk
  import opened Generations

  type StoreId = nat

  /** How far a store's constructor got. */
  datatype StorePhase =
    | CheckRoot | SyncNamespace | CheckIdentity | SyncIdentity | CheckCells | SyncCells
    | Ready | Shut

  datatype Attempt = Attempt(owner: StoreId, closed: bool)

  datatype Job =
    | StageJob(rel: Rel, payload: Doc)
    | ManifestJob(manifest: CommittedManifest)
    | PointerJob(manifest: CommittedManifest)

  /** How far `_atomic_file` got: temporary created, written, fsynced, published under its name. */
  datatype Stage = Created | Filled | Flushed | Placed

  /** What the run's writer is in the middle of; operations of one writer do not overlap. */
  datatype Activity =
    | Resting
    | Starting(g: Gen, synced: nat)
    | Writing(g: Gen, job: Job, serial: nat, inode: Inode, stage: Stage)
    | Ascending(g: Gen, rel: Rel, depth: nat)
    | Validated(g: Gen, manifest: CommittedManifest)
    | Published(g: Gen, manifest: CommittedManifest)

  datatype World = World(
    disk: Disk,
    holder: Option<StoreId>,
    stores: map<StoreId, StorePhase>,
    attempts: map<Gen, Attempt>,
    activity: Activity)

  function Target(g: Gen, job: Job): Path {
    match job
    case StageJob(rel, _) => Tree(g, rel)
    case ManifestJob(_) => Manifest(g)
    case PointerJob(_) => Pointer(g.cell)
  }

  function TempOf(g: Gen, job: Job, serial: nat): Path { Temp(Parent(Target(g, job)), serial) }

  function Payload(job: Job): Doc {
    match job
    case StageJob(_, doc) => doc
    case ManifestJob(m) => ManifestDoc(m)
    case PointerJob(m) => RefDoc(RefOf(m))
  }

  datatype Step =
    // constructor
    | NewStore(s: StoreId)
    | OpenRoot(s: StoreId)
    | OpenSync(s: StoreId)
    | OpenIdentity(s: StoreId, inode: Inode)
    | OpenCells(s: StoreId)
    // lifecycle
    | TakeLock(s: StoreId)
    | CloseStore(s: StoreId)
    // begin
    | MakeCell(s: StoreId, dir: Path)
    | MakeAttempt(s: StoreId, g: Gen)
    | SyncAttempt
    // stage
    | MakeSubdirectory(g: Gen, rel: Rel)
    | BeginStage(g: Gen, rel: Rel, payload: Doc, serial: nat, inode: Inode)
    | SyncUp
    // commit
    | Validate(g: Gen, manifest: CommittedManifest)
    | BeginManifest(serial: nat, inode: Inode)
    | BeginPointer(serial: nat, inode: Inode)
    // atomic file
    | Fill
    | Flush
    | Place
    | DropTemp
    | SyncParent
    // faults
    | Fault(dropTemp: bool)
    | CloseAttempt(g: Gen)
    | Crash(image: Disk)

  /** `_check_open`: the attempt and its store are open. */
  predicate Usable(w: World, g: Gen) {
    g in w.attempts && !w.attempts[g].closed && Phase(w, w.attempts[g].owner, Ready)
  }

  predicate Phase(w: World, s: StoreId, p: StorePhase) { s in w.stores && w.stores[s] == p }

  predicate Writer(w: World, s: StoreId) { Phase(w, s, Ready) && w.holder == Some(s) }

  predicate FreshTemp(d: Disk, g: Gen, job: Job, serial: nat, inode: Inode) {
    TempOf(g, job, serial) !in d.now && inode !in d.data
  }

  ghost predicate Enabled(w: World, step: Step) {
    var d := w.disk;
    match step
    case NewStore(s) => s !in w.stores
    case OpenRoot(s) => Phase(w, s, CheckRoot)
    case OpenSync(s) => s in w.stores && w.stores[s] in {SyncNamespace, SyncIdentity, SyncCells}
    case OpenIdentity(s, i) =>
      && Phase(w, s, CheckIdentity) && d.IsDirectory(RunRoot)
      && (Identity in d.now || (i !in d.data && CellsDir !in d.now))
    case OpenCells(s) => Phase(w, s, CheckCells) && d.IsDirectory(RunRoot)
    case TakeLock(s) => Phase(w, s, Ready) && w.holder in {None, Some(s)}
    case CloseStore(s) => s in w.stores && (w.holder == Some(s) ==> w.activity == Resting)
    case MakeCell(s, dir) =>
      && Writer(w, s) && w.activity == Resting && dir !in d.now && d.IsDirectory(Parent(dir))
      && (dir.CellDir? || dir.AttemptsDir? || dir.ManifestsDir?)
    case MakeAttempt(s, g) =>
      && Writer(w, s) && w.activity == Resting && Tree(g, []) !in d.now
      && d.IsDirectory(AttemptsDir(g.cell)) && d.IsDirectory(ManifestsDir(g.cell)) && d.IsDirectory(CellDir(g.cell))
    case SyncAttempt => w.activity.Starting?
    case MakeSubdirectory(g, rel) =>
      && Usable(w, g) && w.activity == Resting && SafeRel(rel)
      && Tree(g, rel) !in d.now && d.IsDirectory(Parent(Tree(g, rel)))
    case BeginStage(g, rel, payload, serial, i) =>
      && Usable(w, g) && w.activity == Resting && SafeRel(rel) && payload.Bytes?
      && (forall j | 0 <= j < |rel| :: d.IsDirectory(Tree(g, rel[..j])))
      && !d.IsDirectory(Tree(g, rel))
      && FreshTemp(d, g, StageJob(rel, payload), serial, i)
    case SyncUp => w.activity.Ascending?
    case Validate(g, m) => Usable(w, g) && w.activity == Resting && Lists(d, g, m)
    case BeginManifest(serial, i) =>
      w.activity.Validated? && FreshTemp(d, w.activity.g, ManifestJob(w.activity.manifest), serial, i)
    case BeginPointer(serial, i) =>
      w.activity.Published? && FreshTemp(d, w.activity.g, PointerJob(w.activity.manifest), serial, i)
    case Fill => w.activity.Writing? && w.activity.stage == Created
    case Flush => w.activity.Writing? && w.activity.stage == Filled
    case Place =>
      && w.activity.Writing? && w.activity.stage == Flushed
      && (w.activity.job.ManifestJob? ==> Target(w.activity.g, w.activity.job) !in d.now)
    case DropTemp => w.activity.Writing? && w.activity.stage == Placed
    case SyncParent => w.activity.Writing? && w.activity.stage == Placed
    case Fault(_) => w.activity != Resting
    case CloseAttempt(g) => g in w.attempts && w.activity == Resting
    case Crash(e) => CrashImage(d, e)
  }

  /** `os.replace` moves the temporary onto the name; `os.link` gives the file a second name. */
  function Publish(d: Disk, g: Gen, job: Job, serial: nat, inode: Inode): Disk {
    var named := d.Put(Target(g, job), Some(File(inode)));
    if job.ManifestJob? then named else named.Put(TempOf(g, job, serial), None)
  }

  function WithoutTemp(d: Disk, a: Activity): Disk
    requires a.Writing?
  {
    var t := TempOf(a.g, a.job, a.serial);
    if t in d.now && d.now[t] == File(a.inode) then d.Put(t, None) else d
  }

  function AfterParentSync(w: World): World
    requires w.activity.Writing?
  {
    var a := w.activity;
    var w' := w.(disk := w.disk.SyncDir(Parent(Target(a.g, a.job))));
    match a.job
    case StageJob(rel, _) => w'.(activity := if rel == [] then Resting else Ascending(a.g, rel, |rel| - 1))
    case ManifestJob(m) => w'.(activity := Published(a.g, m))
    case PointerJob(m) => Closing(w', a.g)
  }

  function Closing(w: World, g: Gen): World {
    w.(activity := Resting,
       attempts := if g in w.attempts then w.attempts[g := w.attempts[g].(closed := true)] else w.attempts)
  }

  /** A fault in `begin` also shuts the store and releases the lock. */
  function Faulted(w: World, dropTemp: bool): World
    requires w.activity != Resting
  {
    var a := w.activity;
    if a.Starting? then
      var owner := if a.g in w.attempts then w.attempts[a.g].owner else 0;
      Shutting(Closing(w, a.g), owner)
    else
      var d := if dropTemp && a.Writing? then WithoutTemp(w.disk, a) else w.disk;
      Closing(w.(disk := d), a.g)
  }

  function Shutting(w: World, s: StoreId): World {
    w.(stores := w.stores[s := Shut], holder := if w.holder == Some(s) then None else w.holder)
  }

  function Begun(w: World, g: Gen, job: Job, serial: nat, i: Inode): World {
    w.(disk := w.disk.Write(i, Torn(0)).Put(TempOf(g, job, serial), Some(File(i))),
       activity := Writing(g, job, serial, i, Created))
  }

  function AfterOpenSync(w: World, s: StoreId): World
    requires s in w.stores
  {
    if w.stores[s] == SyncNamespace then
      w.(disk := w.disk.SyncDir(Namespace), stores := w.stores[s := CheckIdentity])
    else
      w.(disk := w.disk.SyncDir(RunRoot),
         stores := w.stores[s := if w.stores[s] == SyncIdentity then CheckCells else Ready])
  }

  function Next(w: World, step: Step): World {
    var d := w.disk;
    match step
    case NewStore(s) => w.(stores := w.stores[s := CheckRoot])
    case OpenRoot(s) =>
      if RunRoot in d.now then w.(stores := w.stores[s := CheckIdentity])
      else w.(disk := d.Put(RunRoot, Some(Directory)), stores := w.stores[s := SyncNamespace])
    case OpenSync(s) => if s in w.stores then AfterOpenSync(w, s) else w
    case OpenIdentity(s, i) =>
      if Identity in d.now then w.(stores := w.stores[s := CheckCells])
      else
        w.(disk := d.Write(i, IdentityDoc).SyncFile(i).Put(Identity, Some(File(i))),
           stores := w.stores[s := SyncIdentity])
    case OpenCells(s) =>
      w.(disk := if CellsDir in d.now then d else d.Put(CellsDir, Some(Directory)), stores := w.stores[s := SyncCells])
    case TakeLock(s) => w.(holder := Some(s))
    case CloseStore(s) => Shutting(w, s)
    case MakeCell(s, dir) => w.(disk := d.Put(dir, Some(Directory)))
    case MakeAttempt(s, g) =>
      w.(disk := d.Put(Tree(g, []), Some(Directory)),
         attempts := w.attempts[g := Attempt(s, false)],
         activity := Starting(g, 0))
    case SyncAttempt =>
      if !w.activity.Starting? then w
      else
        var g, k := w.activity.g, w.activity.synced;
        var dir := if k == 0 then CellsDir else if k == 1 then CellDir(g.cell) else AttemptsDir(g.cell);
        w.(disk := d.SyncDir(dir), activity := if k < 2 then Starting(g, k + 1) else Resting)
    case MakeSubdirectory(g, rel) => w.(disk := d.Put(Tree(g, rel), Some(Directory)))
    case BeginStage(g, rel, payload, serial, i) => Begun(w, g, StageJob(rel, payload), serial, i)
    case SyncUp =>
      if !w.activity.Ascending? then w
      else
        var a := w.activity;
        w.(disk := d.SyncDir(Tree(a.g, if a.depth <= |a.rel| then a.rel[..a.depth] else a.rel)),
           activity := if a.depth == 0 then Resting else a.(depth := a.depth - 1))
    case Validate(g, m) => w.(activity := Validated(g, m))
    case BeginManifest(serial, i) =>
      if !w.activity.Validated? then w else Begun(w, w.activity.g, ManifestJob(w.activity.manifest), serial, i)
    case BeginPointer(serial, i) =>
      if !w.activity.Published? then w else Begun(w, w.activity.g, PointerJob(w.activity.manifest), serial, i)
    case Fill =>
      if !w.activity.Writing? then w
      else w.(disk := d.Write(w.activity.inode, Payload(w.activity.job)), activity := w.activity.(stage := Filled))
    case Flush =>
      if !w.activity.Writing? then w
      else w.(disk := d.SyncFile(w.activity.inode), activity := w.activity.(stage := Flushed))
    case Place =>
      if !w.activity.Writing? then w
      else
        var a := w.activity;
        w.(disk := Publish(d, a.g, a.job, a.serial, a.inode), activity := a.(stage := Placed))
    case DropTemp => if !w.activity.Writing? then w else w.(disk := WithoutTemp(d, w.activity))
    case SyncParent => if !w.activity.Writing? then w else AfterParentSync(w)
    case Fault(dropTemp) => if w.activity == Resting then w else Faulted(w, dropTemp)
    case CloseAttempt(g) => Closing(w, g)
    case Crash(e) => World(e, None, map[], map[], Resting)
  }
}
