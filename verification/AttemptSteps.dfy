/** The steps of `begin`, staging and `commit` keep the invariant. */
module AttemptSteps {
  import opened Options
  import opened PathOrder
  import opened Disk
  import opened Generations
  import opened Protocol
  import opened Invariant

  /** A step of the writer on attempt `g`, from what it did to the disk. */
  lemma WriterKept(w: World, w': World, touched: set<Path>, g: Gen, who: Option<Gen>)
    requires Inv(w) && w'.stores == w.stores && w'.holder == w.holder && w'.attempts == w.attempts
    requires Within(w.disk, w'.disk, touched) && Spares(w.disk, touched, who) && who in {None, Some(g)}
    requires who.Some? ==> Anchored(w.disk, g) && NoManifest(w.disk, g)
    requires Plain(touched)
    requires Sound(w'.disk) && ActivityOk(w')
    requires (w.activity == Resting || w.activity.g == g) && (w'.activity == Resting || w'.activity.g == g)
    requires w'.activity == Resting && (who.Some? || w.activity != Resting) ==> IdleOk(w'.disk, g)
    ensures Inv(w')
  {
    RestKept(w, w', touched, who);
    RootsKept(w.disk, w'.disk, touched);
  }

  /** The same, from one running activity to the next. */
  lemma RunningKept(w: World, e: Disk, b: Activity, touched: set<Path>, who: Option<Gen>)
    requires Inv(w) && w.activity != Resting && b != Resting && b.g == w.activity.g
    requires Within(w.disk, e, touched) && Spares(w.disk, touched, who) && who in {None, Some(b.g)}
    requires who.Some? ==> Anchored(w.disk, b.g) && NoManifest(w.disk, b.g)
    requires Plain(touched)
    requires Sound(e) && BusyOk(e, b)
    ensures Inv(w.(disk := e, activity := b))
  {
    WriterKept(w, w.(disk := e, activity := b), touched, b.g, who);
  }

  // ----- begin -----

  lemma MakeCellKeeps(w: World, s: StoreId, dir: Path)
    requires Inv(w) && Enabled(w, MakeCell(s, dir))
    ensures Inv(Next(w, MakeCell(s, dir)))
  {
    PutWithin(w.disk, dir, Some(Directory));
    WriterKept(w, Next(w, MakeCell(s, dir)), {dir}, Gen("", ""), None);
  }

  /** Nothing lies below a directory that is only being made. */
  lemma UntouchedSoFar(w: World, s: StoreId, g: Gen)
    requires Inv(w) && Enabled(w, MakeAttempt(s, g))
    ensures Untouched(Next(w, MakeAttempt(s, g)).disk, g)
  {
    hide PointersOk, RootsOk, StoresOk, AttemptsOk, ActivityOk, Sound;
    var d, root := w.disk, Tree(g, []);
    assert !Anchored(d, g);
    forall p, v | Belongs(g, p) && p != root ensures !Could(Next(w, MakeAttempt(s, g)).disk, p, Some(v)) {
      assert !Could(d, p, Some(v));
    }
  }

  lemma MakeAttemptKeeps(w: World, s: StoreId, g: Gen)
    requires Inv(w) && Enabled(w, MakeAttempt(s, g))
    ensures Inv(Next(w, MakeAttempt(s, g)))
  {
    hide PointersOk, OwnedOk, RootsOk, Within, JobOk, Untouched, IdleOk, StorePhaseOk;
    UntouchedSoFar(w, s, g);
    var d, w', root := w.disk, Next(w, MakeAttempt(s, g)), Tree(g, []);
    PutWithin(d, root, Some(Directory));
    RestKept(w, w.(disk := w'.disk), {root}, None);
    RootsKept(d, w'.disk, {root});
    CellsStay(w, s, root);
    NewAttempt(w, w'.disk, s, g);
  }

  /** What a ready store knows of the cells directory still holds. */
  lemma CellsStay(w: World, s: StoreId, p: Path)
    requires StoresOk(w) && Phase(w, s, Ready) && p.Tree? && StoresOk(w.(disk := w.disk.Put(p, Some(Directory))))
    ensures var e := w.disk.Put(p, Some(Directory)); e.IsDirectory(RunRoot) && Firm(e, CellsDir, Directory)
  {
    assert StorePhaseOk(w.disk.Put(p, Some(Directory)), w.stores[s]);
    assert StorePhaseOk(w.disk, w.stores[s]);
  }

  /** A new attempt of the writer disturbs no other. */
  lemma NewAttempt(w: World, e: Disk, s: StoreId, g: Gen)
    requires DiskOk(e) && StoresOk(w.(disk := e)) && w.activity == Resting && Writer(w, s) && StartingOk(e, g, 0)
    requires forall other <- w.attempts :: !w.attempts[other].closed ==> IdleOk(e, other)
    requires forall other <- w.attempts :: Usable(w, other) ==> w.holder == Some(w.attempts[other].owner)
    requires forall other <- w.attempts ::
      Phase(w, w.attempts[other].owner, Ready) || Phase(w, w.attempts[other].owner, Shut)
    ensures Inv(w.(disk := e, attempts := w.attempts[g := Attempt(s, false)], activity := Starting(g, 0)))
  {
    hide DiskOk, StartingOk, IdleOk, StorePhaseOk;
    var w' := w.(disk := e, attempts := w.attempts[g := Attempt(s, false)], activity := Starting(g, 0));
    forall other <- w.attempts | other != g ensures Usable(w', other) == Usable(w, other) {}
  }

  lemma SyncAttemptKeeps(w: World)
    requires Inv(w) && Enabled(w, SyncAttempt)
    ensures Inv(Next(w, SyncAttempt))
  {
    var d, w', g, k := w.disk, Next(w, SyncAttempt), w.activity.g, w.activity.synced;
    var dir := if k == 0 then CellsDir else if k == 1 then CellDir(g.cell) else AttemptsDir(g.cell);
    assert StartingOk(d, g, k);
    SyncDirWithin(d, dir);
    StartingSync(d, dir, g, k);
    WriterKept(w, w', {}, g, None);
  }

  lemma StartingSync(d: Disk, dir: Path, g: Gen, k: nat)
    requires Sound(d) && StartingOk(d, g, k)
    requires dir == if k == 0 then CellsDir else if k == 1 then CellDir(g.cell) else AttemptsDir(g.cell)
    ensures if k < 2 then StartingOk(d.SyncDir(dir), g, k + 1) else IdleOk(d.SyncDir(dir), g)
  {
    var e := d.SyncDir(dir);
    SyncDirWithin(d, dir);
    forall p, v | Belongs(g, p) && p != Tree(g, []) ensures !Could(e, p, Some(v)) { assert !Could(d, p, Some(v)); }
    forall p, n | Firm(d, p, n) ensures Firm(e, p, n) { FirmWithin(d, e, {}, p, n); }
    if k == 2 {
      assert Parent(Tree(g, [])) == dir;
      assert Anchored(e, g);
      assert Belongs(g, Manifest(g));
      forall rel, n, v ensures !Could(e, Temp(Tree(g, rel), n), Some(v)) { assert Belongs(g, Temp(Tree(g, rel), n)); }
      forall rel, i | rel != [] ensures !Could(e, Tree(g, rel), Some(File(i))) { assert Belongs(g, Tree(g, rel)); }
    }
  }

  // ----- stage -----

  lemma MakeSubdirectoryDisk(d: Disk, g: Gen, rel: Rel)
    requires Sound(d) && IdleOk(d, g) && rel != [] && Tree(g, rel) !in d.now
    ensures var e := d.Put(Tree(g, rel), Some(Directory));
      Within(d, e, {Tree(g, rel)}) && Sound(e) && IdleOk(e, g) && Spares(d, {Tree(g, rel)}, Some(g))
  {
    var dir := Tree(g, rel);
    var e := d.Put(dir, Some(Directory));
    PutWithin(d, dir, Some(Directory));
    AnchoredKept(d, e, {dir}, Some(g), g);
    forall r, i | r != [] && Could(e, Tree(g, r), Some(File(i))) ensures FileSettled(e, g, r) {
      assert Could(d, Tree(g, r), Some(File(i)));
      forall j | 0 <= j <= |r| ensures Tree(g, r[..j]) !in {dir} {
        if j < |r| { assert Firm(d, Tree(g, r[..j]), Directory); } else { assert r[..j] == r; }
      }
      FileSettledWithin(d, e, {dir}, g, r);
    }
    forall r, n, v ensures !Could(e, Temp(Tree(g, r), n), Some(v)) { assert !Could(d, Temp(Tree(g, r), n), Some(v)); }
  }

  lemma MakeSubdirectoryKeeps(w: World, g: Gen, rel: Rel)
    requires Inv(w) && Enabled(w, MakeSubdirectory(g, rel))
    ensures Inv(Next(w, MakeSubdirectory(g, rel)))
  {
    IdleFacts(w, g);
    MakeSubdirectoryDisk(w.disk, g, rel);
    WriterKept(w, Next(w, MakeSubdirectory(g, rel)), {Tree(g, rel)}, g, Some(g));
  }

  lemma IdleFacts(w: World, g: Gen)
    requires Inv(w) && Usable(w, g) && w.activity == Resting
    ensures Sound(w.disk) && IdleOk(w.disk, g)
  {
  }

  /** Creating the temporary: nothing else refers to its inode. */
  lemma BegunWithin(d: Disk, t: Path, i: Inode)
    requires Sound(d) && t.Temp? && t !in d.now && i !in d.data
    ensures var e := d.Write(i, Torn(0)).Put(t, Some(File(i)));
      && Within(d, e, {t}) && Sound(e) && e.At(t) == Some(File(i)) && i in e.data && i !in e.synced
      && (forall p :: Could(e, p, Some(File(i))) ==> p == t)
      && (forall p, v :: p != t && Could(e, p, v) ==> Could(d, p, v))
  {
    WriteWithin(d, i, Torn(0));
    PutWithin(d.Write(i, Torn(0)), t, Some(File(i)));
    forall p | Could(d, p, Some(File(i))) ensures false {}
  }

  lemma BeginStageKeeps(w: World, g: Gen, rel: Rel, payload: Doc, serial: nat, i: Inode)
    requires Inv(w) && Enabled(w, BeginStage(g, rel, payload, serial, i))
    ensures Inv(Next(w, BeginStage(g, rel, payload, serial, i)))
  {
    var d, w' := w.disk, Next(w, BeginStage(g, rel, payload, serial, i));
    var t := TempOf(g, StageJob(rel, payload), serial);
    assert IdleOk(d, g);
    BegunWithin(d, t, i);
    StageFrame(d, w'.disk, t, g, []);
    forall r, n, v | Could(w'.disk, Temp(Tree(g, r), n), Some(v)) ensures Temp(Tree(g, r), n) == t {
      assert !Could(d, Temp(Tree(g, r), n), Some(v));
    }
    WriterKept(w, w', {t}, g, Some(g));
  }

  /** A change to a temporary leaves the files of the attempt alone. */
  lemma StageFrame(d: Disk, e: Disk, t: Path, g: Gen, open: Rel)
    requires Within(d, e, {t}) && t.Temp? && Anchored(d, g)
    ensures Anchored(e, g)
    ensures NoManifest(d, g) ==> NoManifest(e, g)
    ensures SettledBut(d, g, open) ==> SettledBut(e, g, open)
    ensures forall r :: e.At(Tree(g, r)) == d.At(Tree(g, r))
    ensures forall r, n :: Firm(d, Tree(g, r), n) ==> Firm(e, Tree(g, r), n)
  {
    assert e.At(RunRoot) == d.At(RunRoot);
    if SettledBut(d, g, open) {
      forall r, i | r != open && Could(e, Tree(g, r), Some(File(i))) ensures FileSettled(e, g, r) {
        assert Could(d, Tree(g, r), Some(File(i)));
        FileSettledWithin(d, e, {t}, g, r);
      }
    }
  }

  lemma SyncUpKeeps(w: World)
    requires Inv(w) && Enabled(w, SyncUp)
    ensures Inv(Next(w, SyncUp))
  {
    var d, w', g, rel, depth := w.disk, Next(w, SyncUp), w.activity.g, w.activity.rel, w.activity.depth;
    assert AscendingOk(d, g, rel, depth);
    SyncDirWithin(d, Tree(g, rel[..depth]));
    AscendingSync(d, g, rel, depth);
    WriterKept(w, w', {}, g, None);
  }

  lemma AscendingSync(d: Disk, g: Gen, rel: Rel, depth: nat)
    requires Sound(d) && AscendingOk(d, g, rel, depth)
    ensures var e := d.SyncDir(Tree(g, rel[..depth]));
      if depth == 0 then IdleOk(e, g) else AscendingOk(e, g, rel, depth - 1)
  {
    hide SettledBut, NoTemps, NoManifest, Anchored, Sound, FileSettled, Within;
    var dir := Tree(g, rel[..depth]);
    var e := d.SyncDir(dir);
    SyncDirWithin(d, dir);
    TreeSyncFrame(d, dir, g, rel);
    if depth + 1 < |rel| {
      assert rel[..depth + 1][..depth] == rel[..depth];
      assert Parent(Tree(g, rel[..depth + 1])) == dir && d.IsDirectory(Tree(g, rel[..depth + 1]));
    }
    if depth == 0 { SettledNow(e, g, rel); }
  }

  lemma TreeSyncFrame(d: Disk, dir: Path, g: Gen, open: Rel)
    requires Sound(d) && Anchored(d, g)
    ensures var e := d.SyncDir(dir);
      && Anchored(e, g)
      && (NoManifest(d, g) ==> NoManifest(e, g))
      && (NoTemps(d, g) ==> NoTemps(e, g))
      && (SettledBut(d, g, open) ==> SettledBut(e, g, open))
      && (forall r, n :: Firm(d, Tree(g, r), n) ==> Firm(e, Tree(g, r), n))
  {
    var e := d.SyncDir(dir);
    SyncDirWithin(d, dir);
    if SettledBut(d, g, open) {
      forall r, i | r != open && Could(e, Tree(g, r), Some(File(i))) ensures FileSettled(e, g, r) {
        assert Could(d, Tree(g, r), Some(File(i)));
        FileSettledWithin(d, e, {}, g, r);
      }
    }
    if NoTemps(d, g) {
      forall r, n, v ensures !Could(e, Temp(Tree(g, r), n), Some(v)) { assert !Could(d, Temp(Tree(g, r), n), Some(v)); }
    }
    if NoManifest(d, g) {
      forall v ensures !Could(e, Manifest(g), Some(v)) { assert !Could(d, Manifest(g), Some(v)); }
    }
  }

  /** Once every directory on the way is durable the new file counts as settled. */
  lemma SettledNow(d: Disk, g: Gen, rel: Rel)
    requires Anchored(d, g) && NoTemps(d, g) && SettledBut(d, g, rel) && rel != []
    requires IsFile(d, g, rel) && Firm(d, Tree(g, rel), d.now[Tree(g, rel)]) && d.now[Tree(g, rel)].inode in d.synced
    requires forall j | 1 <= j < |rel| :: Firm(d, Tree(g, rel[..j]), Directory)
    ensures Settled(d, g)
  {
    assert rel[..0] == [];
    assert FileSettled(d, g, rel);
    forall r, i | r != [] && Could(d, Tree(g, r), Some(File(i))) ensures FileSettled(d, g, r) {}
  }

  // ----- commit -----

  lemma ValidateKeeps(w: World, g: Gen, m: CommittedManifest)
    requires Inv(w) && Enabled(w, Validate(g, m))
    ensures Inv(Next(w, Validate(g, m)))
  {
    WriterKept(w, Next(w, Validate(g, m)), {}, g, None);
  }

  lemma BeginManifestDisk(d: Disk, g: Gen, m: CommittedManifest, t: Path, i: Inode)
    requires Sound(d) && IdleOk(d, g) && Lists(d, g, m) && t.Temp? && !t.dir.Tree? && t !in d.now && i !in d.data
    ensures JobOk(d.Write(i, Torn(0)).Put(t, Some(File(i))), g, ManifestJob(m), t, false)
  {
    var e := d.Write(i, Torn(0)).Put(t, Some(File(i)));
    BegunWithin(d, t, i);
    OthersKept(d, e, {t}, None);
    ListsWithin(d, e, {t}, g, m);
  }

  lemma BeginManifestKeeps(w: World, serial: nat, i: Inode)
    requires Inv(w) && Enabled(w, BeginManifest(serial, i))
    ensures Inv(Next(w, BeginManifest(serial, i)))
  {
    var d, g, m := w.disk, w.activity.g, w.activity.manifest;
    var job := ManifestJob(m);
    var t := TempOf(g, job, serial);
    BegunWithin(d, t, i);
    BeginManifestDisk(d, g, m, t, i);
    BegunKeeps(w, g, job, serial, i);
  }

  lemma BeginPointerKeeps(w: World, serial: nat, i: Inode)
    requires Inv(w) && Enabled(w, BeginPointer(serial, i))
    ensures Inv(Next(w, BeginPointer(serial, i)))
  {
    var d, g, m := w.disk, w.activity.g, w.activity.manifest;
    var job := PointerJob(m);
    var t := TempOf(g, job, serial);
    BegunWithin(d, t, i);
    SealedWithin(d, d.Write(i, Torn(0)).Put(t, Some(File(i))), {t}, RefOf(m));
    BegunKeeps(w, g, job, serial, i);
  }

  lemma BegunKeeps(w: World, g: Gen, job: Job, serial: nat, i: Inode)
    requires Inv(w) && w.activity != Resting && w.activity.g == g && !job.StageJob? &&
      FreshTemp(w.disk, g, job, serial, i)
    requires JobOk(Begun(w, g, job, serial, i).disk, g, job, TempOf(g, job, serial), false)
    ensures Inv(Begun(w, g, job, serial, i))
  {
    hide PointersOk, OwnedOk, StoresOk, AttemptsOk, RootsOk, JobOk, Within;
    var t := TempOf(g, job, serial);
    BegunWithin(w.disk, t, i);
    assert Spares(w.disk, {t}, None) && Plain({t});
    RunningKept(w, Begun(w, g, job, serial, i).disk, Writing(g, job, serial, i, Created), {t}, None);
  }

  // ----- atomic file -----

  lemma WritingFacts(w: World)
    requires Inv(w) && w.activity.Writing?
    ensures Sound(w.disk) && WritingOk(w.disk, w.activity)
  {
  }

  /** Writing or fsyncing the temporary's contents leaves every entry alone. */
  lemma JobKept(d: Disk, e: Disk, g: Gen, job: Job, t: Path)
    requires Sound(d) && Within(d, e, {}) && JobOk(d, g, job, t, false) && t.Temp?
    requires forall p, v :: Could(e, p, v) == Could(d, p, v)
    ensures JobOk(e, g, job, t, false)
  {
    OthersKept(d, e, {}, None);
    match job
    case StageJob(rel, doc) => StageFrame(d, e, t, g, []);
    case ManifestJob(m) => ListsWithin(d, e, {}, g, m);
    case PointerJob(m) =>
  }

  lemma FillKeeps(w: World)
    requires Inv(w) && Enabled(w, Fill)
    ensures Inv(Next(w, Fill))
  {
    var d, w', a := w.disk, Next(w, Fill), w.activity;
    assert WritingOk(d, a);
    WriteWithin(d, a.inode, Payload(a.job));
    JobKept(d, w'.disk, a.g, a.job, TempOf(a.g, a.job, a.serial));
    WriterKept(w, w', {}, a.g, None);
  }

  lemma FlushKeeps(w: World)
    requires Inv(w) && Enabled(w, Flush)
    ensures Inv(Next(w, Flush))
  {
    var d, w', a := w.disk, Next(w, Flush), w.activity;
    assert WritingOk(d, a);
    SyncFileWithin(d, a.inode);
    JobKept(d, w'.disk, a.g, a.job, TempOf(a.g, a.job, a.serial));
    WriterKept(w, w', {}, a.g, None);
  }

  lemma PlaceStageDisk(d: Disk, a: Activity)
    requires Sound(d) && a.Writing? && a.job.StageJob? && a.stage == Flushed && WritingOk(d, a)
    ensures var e := Publish(d, a.g, a.job, a.serial, a.inode);
      && Within(d, e, {Tree(a.g, a.job.rel), TempOf(a.g, a.job, a.serial)}) && Sound(e)
      && WritingOk(e, a.(stage := Placed))
  {
    var target, t := Tree(a.g, a.job.rel), TempOf(a.g, a.job, a.serial);
    var named := d.Put(target, Some(File(a.inode)));
    PutWithin(d, target, Some(File(a.inode)));
    PutWithin(named, t, None);
    PlacedTree(d, named.Put(t, None), a.g, a.job.rel, t);
  }

  lemma PlacedTree(d: Disk, e: Disk, g: Gen, rel: Rel, t: Path)
    requires Anchored(d, g) && NoManifest(d, g) && OnlyTemp(d, g, t) && AlongDirectories(d, g, rel) &&
      SettledBut(d, g, [])
    requires rel != [] && !d.IsDirectory(Tree(g, rel)) && t.Temp? && t.dir.Tree? && t.dir.g == g
    requires Within(d, e, {Tree(g, rel), t})
    ensures Anchored(e, g) && NoManifest(e, g) && OnlyTemp(e, g, t) && AlongDirectories(e, g, rel) &&
      SettledBut(e, g, rel)
  {
    var touched := {Tree(g, rel), t};
    AnchoredKept(d, e, touched, Some(g), g);
    forall r, i | r != rel && Could(e, Tree(g, r), Some(File(i))) ensures FileSettled(e, g, r) {
      assert Could(d, Tree(g, r), Some(File(i)));
      forall j | 0 <= j <= |r| ensures Tree(g, r[..j]) !in touched {
        if j < |r| { assert Firm(d, Tree(g, r[..j]), Directory); } else { assert r[..j] == r; }
      }
      FileSettledWithin(d, e, touched, g, r);
    }
    forall r, n, v | Could(e, Temp(Tree(g, r), n), Some(v)) ensures Temp(Tree(g, r), n) == t {
      assert Temp(Tree(g, r), n) == t || Could(d, Temp(Tree(g, r), n), Some(v));
    }
    forall j | 0 <= j < |rel| ensures e.IsDirectory(Tree(g, rel[..j])) {
      assert d.IsDirectory(Tree(g, rel[..j])) && rel[..j] != rel;
      assert e.At(Tree(g, rel[..j])) == d.At(Tree(g, rel[..j]));
    }
    forall v ensures !Could(e, Manifest(g), Some(v)) { assert !Could(d, Manifest(g), Some(v)); }
  }

  lemma JobSpares(d: Disk, a: Activity)
    requires a.Writing? && !a.job.StageJob?
    ensures var t := TempOf(a.g, a.job, a.serial); Spares(d, {t}, None) && Plain({t})
  {
  }

  lemma StageSpares(d: Disk, a: Activity)
    requires a.Writing? && a.job.StageJob? && WritingOk(d, a)
    ensures var t := TempOf(a.g, a.job, a.serial);
      && Spares(d, {Tree(a.g, a.job.rel), t}, Some(a.g)) && Plain({Tree(a.g, a.job.rel), t})
      && Spares(d, {t}, Some(a.g)) && Plain({t})
      && Anchored(d, a.g) && NoManifest(d, a.g)
  {
  }

  lemma PlaceStageKeeps(w: World)
    requires Inv(w) && w.activity.Writing? && w.activity.job.StageJob? && w.activity.stage == Flushed
    ensures var a := w.activity;
      Inv(w.(disk := Publish(w.disk, a.g, a.job, a.serial, a.inode), activity := a.(stage := Placed)))
  {
    var d, a := w.disk, w.activity;
    WritingFacts(w);
    PlaceStageDisk(d, a);
    StageSpares(d, a);
    RunningKept(w, Publish(d, a.g, a.job, a.serial, a.inode), a.(stage := Placed),
      {Tree(a.g, a.job.rel), TempOf(a.g, a.job, a.serial)}, Some(a.g));
  }

  lemma PlaceKeeps(w: World)
    requires Inv(w) && Enabled(w, Place)
    ensures Inv(Next(w, Place))
  {
    match w.activity.job
    case StageJob(_, _) => PlaceStageKeeps(w);
    case ManifestJob(_) => PlaceManifestKeeps(w);
    case PointerJob(_) => PlacePointerKeeps(w);
  }

  lemma PlaceManifestDisk(d: Disk, a: Activity)
    requires Sound(d) && a.Writing? && a.job.ManifestJob? && a.stage == Flushed && WritingOk(d, a)
    ensures var e := d.Put(Manifest(a.g), Some(File(a.inode)));
      && Within(d, e, {Manifest(a.g)}) && Sound(e) && WritingOk(e, a.(stage := Placed))
      && Spares(d, {Manifest(a.g)}, Some(a.g)) && Anchored(d, a.g) && NoManifest(d, a.g)
  {
    var e := d.Put(Manifest(a.g), Some(File(a.inode)));
    PutWithin(d, Manifest(a.g), Some(File(a.inode)));
    SettledWithin(d, e, {Manifest(a.g)}, a.g);
    ListsWithin(d, e, {Manifest(a.g)}, a.g, a.job.manifest);
  }

  lemma PlaceManifestKeeps(w: World)
    requires Inv(w) && w.activity.Writing? && w.activity.job.ManifestJob? && w.activity.stage == Flushed
    ensures var a := w.activity;
      Inv(w.(disk := w.disk.Put(Manifest(a.g), Some(File(a.inode))), activity := a.(stage := Placed)))
  {
    var d, a := w.disk, w.activity;
    WritingFacts(w);
    PlaceManifestDisk(d, a);
    RunningKept(w, d.Put(Manifest(a.g), Some(File(a.inode))), a.(stage := Placed), {Manifest(a.g)}, Some(a.g));
  }

  /** Replacing the cell pointer: from here on a crash keeps a generation it could name or the new one. */
  lemma PlacePointerDisk(d: Disk, a: Activity)
    requires Sound(d) && a.Writing? && a.job.PointerJob? && a.stage == Flushed && WritingOk(d, a)
    ensures var e := Publish(d, a.g, a.job, a.serial, a.inode);
      && Within(d, e, {Pointer(a.g.cell), TempOf(a.g, a.job, a.serial)}) && Sound(e)
      && (forall c, v :: Could(e, Pointer(c), v) ==>
           (c == a.g.cell && v == Some(File(a.inode))) || Could(d, Pointer(c), v))
      && e.At(Pointer(a.g.cell)) == Some(File(a.inode)) && e.data == d.data && e.synced == d.synced
  {
    var pointer, t := Pointer(a.g.cell), TempOf(a.g, a.job, a.serial);
    var named := d.Put(pointer, Some(File(a.inode)));
    PutWithin(d, pointer, Some(File(a.inode)));
    PutWithin(named, t, None);
  }

  lemma PlacePointerKeeps(w: World)
    requires Inv(w) && w.activity.Writing? && w.activity.job.PointerJob? && w.activity.stage == Flushed
    ensures var a := w.activity;
      Inv(w.(disk := Publish(w.disk, a.g, a.job, a.serial, a.inode), activity := a.(stage := Placed)))
  {
    var d, a := w.disk, w.activity;
    WritingFacts(w);
    PlacePointerDisk(d, a);
    var e := Publish(d, a.g, a.job, a.serial, a.inode);
    PointerFrame(w, e, {Pointer(a.g.cell), TempOf(a.g, a.job, a.serial)});
    NewPointerOk(d, e, a.g.cell, a.inode);
    InstalledKept(w, e, a.(stage := Placed));
  }

  lemma InstalledKept(w: World, e: Disk, b: Activity)
    requires Inv(w) && w.activity != Resting && b != Resting && b.g == w.activity.g
    requires Sound(e) && RootsOk(e) && OwnedOk(e) && PointersOk(e) && BusyOk(e, b)
    requires forall s <- w.stores :: StorePhaseOk(e, w.stores[s])
    requires forall g <- w.attempts :: !w.attempts[g].closed && !Active(w, g) ==> IdleOk(e, g)
    ensures Inv(w.(disk := e, activity := b))
  {
    var w' := w.(disk := e, activity := b);
    forall g <- w.attempts ensures Usable(w', g) == Usable(w, g) {}
  }

  lemma NewPointerOk(d: Disk, e: Disk, c: CellId, i: Inode)
    requires PointersOk(d) && e.data == d.data && e.synced == d.synced
    requires forall ref :: Sealed(d, ref) ==> Sealed(e, ref)
    requires forall b, v :: Could(e, Pointer(b), v) ==> (b == c && v == Some(File(i))) || Could(d, Pointer(b), v)
    requires i in d.synced && i in d.data && d.data[i].RefDoc? && d.data[i].ref.g.cell == c && Sealed(d, d.data[i].ref)
    ensures PointersOk(e)
  {
    forall b, v | Could(e, Pointer(b), Some(v)) ensures PointsAt(e, b, v) {
      if !(b == c && v == File(i)) {
        assert Could(d, Pointer(b), Some(v));
        assert PointsAt(d, b, v);
      }
    }
  }

  /** What replacing a pointer leaves alone. */
  lemma PointerFrame(w: World, e: Disk, touched: set<Path>)
    requires Inv(w) && Within(w.disk, e, touched) && Sound(e) &&
      (forall p <- touched :: p.Pointer? || (p.Temp? && !p.dir.Tree? && p.dir != Namespace))
    ensures OwnedOk(e) && RootsOk(e)
    ensures forall s <- w.stores :: StorePhaseOk(e, w.stores[s])
    ensures forall g <- w.attempts :: !w.attempts[g].closed && !Active(w, g) ==> IdleOk(e, g)
    ensures forall ref :: Sealed(w.disk, ref) ==> Sealed(e, ref)
  {
    OwnedKept(w.disk, e, touched, None);
    OthersKept(w.disk, e, touched, None);
    forall s <- w.stores ensures StorePhaseOk(e, w.stores[s]) { StoresKept(w.disk, e, touched, None, w.stores[s]); }
    RootsKept(w.disk, e, touched);
  }

  /** Removing the temporary, when it is still there. */
  lemma DropWithin(d: Disk, a: Activity)
    requires Sound(d) && a.Writing?
    ensures var e := WithoutTemp(d, a); var t := TempOf(a.g, a.job, a.serial);
      && Within(d, e, {t}) && Sound(e)
      && (forall p, v :: Could(e, p, v) ==> (p == t && v == None) || Could(d, p, v))
      && (forall p :: p != t ==> e.At(p) == d.At(p))
      && e.data == d.data && e.synced == d.synced
  {
    PutWithin(d, TempOf(a.g, a.job, a.serial), None);
  }

  lemma DropTempDisk(d: Disk, a: Activity)
    requires Sound(d) && a.Writing? && a.stage == Placed && WritingOk(d, a)
    ensures WritingOk(WithoutTemp(d, a), a)
  {
    hide Sealed, Lists, Within;
    var e, t := WithoutTemp(d, a), TempOf(a.g, a.job, a.serial);
    DropWithin(d, a);
    if a.job.ManifestJob? {
      SettledWithin(d, e, {t}, a.g);
      ListsWithin(d, e, {t}, a.g, a.job.manifest);
    } else if a.job.PointerJob? {
      SealedWithin(d, e, {t}, RefOf(a.job.manifest));
    }
  }

  lemma DropTempKeeps(w: World)
    requires Inv(w) && Enabled(w, DropTemp)
    ensures Inv(Next(w, DropTemp))
  {
    var d, w', a := w.disk, Next(w, DropTemp), w.activity;
    assert WritingOk(d, a);
    DropWithin(d, a);
    DropTempDisk(d, a);
    assert w' == w.(disk := WithoutTemp(d, a), activity := a);
    if a.job.StageJob? {
      assert w' == w;
    } else {
      JobSpares(d, a);
      RunningKept(w, WithoutTemp(d, a), a, {TempOf(a.g, a.job, a.serial)}, None);
    }
  }

  lemma SyncStageDisk(d: Disk, a: Activity)
    requires Sound(d) && a.Writing? && a.job.StageJob? && a.stage == Placed && WritingOk(d, a)
    ensures AscendingOk(d.SyncDir(Parent(Tree(a.g, a.job.rel))), a.g, a.job.rel, |a.job.rel| - 1)
  {
    var g, rel := a.g, a.job.rel;
    var dir := Parent(Tree(g, rel));
    var e := d.SyncDir(dir);
    SyncDirWithin(d, dir);
    TreeSyncFrame(d, dir, g, rel);
    forall r, n, v ensures !Could(e, Temp(Tree(g, r), n), Some(v)) {
      if Could(e, Temp(Tree(g, r), n), Some(v)) { assert Could(d, Temp(Tree(g, r), n), Some(v)); }
    }
  }

  lemma SyncManifestDisk(d: Disk, a: Activity)
    requires Sound(d) && a.Writing? && a.job.ManifestJob? && a.stage == Placed && WritingOk(d, a)
    ensures Sealed(d.SyncDir(ManifestsDir(a.g.cell)), RefOf(a.job.manifest))
  {
    var e := d.SyncDir(ManifestsDir(a.g.cell));
    SyncDirWithin(d, ManifestsDir(a.g.cell));
    SettledWithin(d, e, {}, a.g);
    ListsWithin(d, e, {}, a.g, a.job.manifest);
  }

  lemma NextAfterSync(w: World)
    requires w.activity.Writing? && (w.activity.job.StageJob? ==> w.activity.job.rel != [])
    ensures var d, a := w.disk, w.activity;
      Next(w, SyncParent) ==
      match a.job
      case StageJob(rel, _) =>
        w.(disk := d.SyncDir(Parent(Tree(a.g, rel))), activity := Ascending(a.g, rel, |rel| - 1))
      case ManifestJob(m) => w.(disk := d.SyncDir(ManifestsDir(a.g.cell)), activity := Published(a.g, m))
      case PointerJob(_) => Closing(w.(disk := d.SyncDir(CellDir(a.g.cell))), a.g)
  {
  }

  lemma SyncParentKeeps(w: World)
    requires Inv(w) && Enabled(w, SyncParent)
    ensures Inv(Next(w, SyncParent))
  {
    var d, a := w.disk, w.activity;
    WritingFacts(w);
    NextAfterSync(w);
    match a.job
    case StageJob(rel, _) => SyncStageKeeps(w);
    case ManifestJob(m) => SyncManifestKeeps(w);
    case PointerJob(_) =>
      SyncDirWithin(d, CellDir(a.g.cell));
      ClosingKeeps(w, d.SyncDir(CellDir(a.g.cell)), {}, None);
  }

  lemma SyncStageKeeps(w: World)
    requires Inv(w) && w.activity.Writing? && w.activity.job.StageJob? && w.activity.stage == Placed
    ensures var a := w.activity; var rel := a.job.rel;
      && rel != []
      && Inv(w.(disk := w.disk.SyncDir(Parent(Tree(a.g, rel))), activity := Ascending(a.g, rel, |rel| - 1)))
  {
    var d, a := w.disk, w.activity;
    WritingFacts(w);
    SyncDirWithin(d, Parent(Tree(a.g, a.job.rel)));
    SyncStageDisk(d, a);
    RunningKept(w, d.SyncDir(Parent(Tree(a.g, a.job.rel))), Ascending(a.g, a.job.rel, |a.job.rel| - 1), {}, None);
  }

  lemma SyncManifestKeeps(w: World)
    requires Inv(w) && w.activity.Writing? && w.activity.job.ManifestJob? && w.activity.stage == Placed
    ensures var a := w.activity;
      Inv(w.(disk := w.disk.SyncDir(ManifestsDir(a.g.cell)), activity := Published(a.g, a.job.manifest)))
  {
    var d, a := w.disk, w.activity;
    WritingFacts(w);
    SyncDirWithin(d, ManifestsDir(a.g.cell));
    SyncManifestDisk(d, a);
    RunningKept(w, d.SyncDir(ManifestsDir(a.g.cell)), Published(a.g, a.job.manifest), {}, None);
  }

  /** The running operation ends and its attempt is closed. */
  lemma ClosingKeeps(w: World, e: Disk, touched: set<Path>, who: Option<Gen>)
    requires Inv(w) && w.activity != Resting
    requires Within(w.disk, e, touched) && Spares(w.disk, touched, who) && who in {None, Some(w.activity.g)}
    requires who.Some? ==> Anchored(w.disk, who.value) && NoManifest(w.disk, who.value)
    requires Sound(e) && Plain(touched)
    ensures Inv(Closing(w.(disk := e), w.activity.g))
  {
    hide PointersOk, OwnedOk, StorePhaseOk, BusyOk, IdleOk;
    RestKept(w, w.(disk := e), touched, who);
    RootsKept(w.disk, e, touched);
    var w' := Closing(w.(disk := e), w.activity.g);
    forall g <- w'.attempts | Usable(w', g) ensures w'.holder == Some(w'.attempts[g].owner) { assert Usable(w, g); }
  }

  // ----- faults -----

  lemma FaultKeeps(w: World, dropTemp: bool)
    requires Inv(w) && Enabled(w, Fault(dropTemp))
    ensures Inv(Next(w, Fault(dropTemp)))
  {
    var d, a := w.disk, w.activity;
    if a.Starting? {
      ClosingKeeps(w, d, {}, None);
      ShuttingKeeps(Closing(w, a.g), w.attempts[a.g].owner);
    } else if dropTemp && a.Writing? {
      DropFaultKeeps(w);
    } else {
      ClosingKeeps(w, d, {}, None);
    }
  }

  lemma DropFaultKeeps(w: World)
    requires Inv(w) && w.activity.Writing?
    ensures Inv(Closing(w.(disk := WithoutTemp(w.disk, w.activity)), w.activity.g))
  {
    var d, a := w.disk, w.activity;
    var t := TempOf(a.g, a.job, a.serial);
    assert Sound(d) && WritingOk(d, a);
    DropWithin(d, a);
    if a.job.StageJob? {
      StageSpares(d, a);
      ClosingKeeps(w, WithoutTemp(d, a), {t}, Some(a.g));
    } else {
      JobSpares(d, a);
      ClosingKeeps(w, WithoutTemp(d, a), {t}, None);
    }
  }

  lemma ShuttingKeeps(w: World, s: StoreId)
    requires Inv(w) && s in w.stores && (w.holder == Some(s) ==> w.activity == Resting)
    ensures Inv(Shutting(w, s))
  {
    var w' := Shutting(w, s);
    forall g <- w.attempts | Usable(w', g) ensures w'.holder == Some(w'.attempts[g].owner) { assert Usable(w, g); }
    if w.activity != Resting {
      assert Usable(w, w.activity.g) && w.holder == Some(w.attempts[w.activity.g].owner);
      assert Usable(w', w.activity.g);
    }
  }

  lemma CloseAttemptKeeps(w: World, g: Gen)
    requires Inv(w) && Enabled(w, CloseAttempt(g))
    ensures Inv(Next(w, CloseAttempt(g)))
  {
    var w' := Next(w, CloseAttempt(g));
    forall h <- w'.attempts | Usable(w', h) ensures w'.holder == Some(w'.attempts[h].owner) { assert Usable(w, h); }
  }

  lemma TakeLockKeeps(w: World, s: StoreId)
    requires Inv(w) && Enabled(w, TakeLock(s))
    ensures Inv(Next(w, TakeLock(s)))
  {
    var w' := Next(w, TakeLock(s));
    forall g <- w.attempts | Usable(w', g) ensures w'.holder == Some(w'.attempts[g].owner) { assert Usable(w, g); }
    if w.activity != Resting { assert Usable(w, w.activity.g) && Usable(w', w.activity.g); }
  }

  lemma NewStoreKeeps(w: World, s: StoreId)
    requires Inv(w) && Enabled(w, NewStore(s))
    ensures Inv(Next(w, NewStore(s)))
  {
    var w' := Next(w, NewStore(s));
    forall g <- w.attempts ensures Usable(w', g) == Usable(w, g) {}
  }

  lemma CrashKeeps(w: World, e: Disk)
    requires Inv(w) && Enabled(w, Crash(e))
    ensures Inv(Next(w, Crash(e)))
  {
    var d := w.disk;
    forall p, i | Could(e, p, Some(File(i))) ensures i in e.data { assert Could(d, p, Some(File(i))); }
    forall p, v | p in {RunRoot, CellsDir} && Could(e, p, Some(v))
      ensures v == Directory
    {
      assert Could(d, p, Some(v));
    }
    forall p, v | Parent(p) == Namespace && Could(e, p, Some(v)) ensures p in {Namespace, RunRoot} {
      assert Could(d, p, Some(v));
    }
    forall g, p, v | Belongs(g, p) && p != Tree(g, []) && Could(e, p, Some(v)) ensures Anchored(e, g) {
      assert Could(d, p, Some(v));
      SurvivorHasRoot(d, e, p);
      AnchoredSurvives(d, e, g);
    }
    forall c, v | Could(e, Pointer(c), Some(v)) ensures PointsAt(e, c, v) {
      assert Could(d, Pointer(c), Some(v));
      assert PointsAt(d, c, v);
      SurvivorHasRoot(d, e, Pointer(c));
      SealedSurvives(d, e, d.data[v.inode].ref);
    }
  }
}
