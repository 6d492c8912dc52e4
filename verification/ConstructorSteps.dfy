/** The steps of a store constructor keep the invariant. */
module ConstructorSteps {
  import opened Options
  import opened PathOrder
  import opened Disk
  import opened Generations
  import opened Protocol
  import opened Invariant

  // ----- Constructor and lifecycle -----

  lemma OpenRootKeeps(w: World, s: StoreId)
    requires Inv(w) && Enabled(w, OpenRoot(s))
    ensures Inv(Next(w, OpenRoot(s)))
  {
    hide PointersOk, OwnedOk, AttemptsOk, ActivityOk;
    var d, w' := w.disk, Next(w, OpenRoot(s));
    if RunRoot !in d.now {
      PutWithin(d, RunRoot, Some(Directory));
      LifecycleKept(w, w', {RunRoot}, s);
    } else {
      assert Could(d, RunRoot, Some(d.now[RunRoot]));
      LifecycleKept(w, w', {}, s);
    }
  }

  lemma OpenSyncKeeps(w: World, s: StoreId)
    requires Inv(w) && Enabled(w, OpenSync(s))
    ensures Inv(Next(w, OpenSync(s)))
  {
    hide DiskOk, AttemptsOk, ActivityOk;
    assert StorePhaseOk(w.disk, w.stores[s]);
    if w.stores[s] == SyncNamespace {
      SyncedKeeps(w, s, Namespace, CheckIdentity);
    } else if w.stores[s] == SyncIdentity {
      SyncedKeeps(w, s, RunRoot, CheckCells);
    } else {
      SyncedKeeps(w, s, RunRoot, Ready);
    }
  }

  lemma SyncedKeeps(w: World, s: StoreId, dir: Path, next: StorePhase)
    requires Inv(w) && s in w.stores && w.stores[s] !in {Ready, Shut}
    requires w.disk.IsDirectory(RunRoot)
    requires next == CheckIdentity || (next == CheckCells && Identity in w.disk.now)
      || (next == Ready && dir == RunRoot && Identity in w.disk.now && w.disk.IsDirectory(CellsDir))
    ensures Inv(w.(disk := w.disk.SyncDir(dir), stores := w.stores[s := next]))
  {
    hide PointersOk, OwnedOk, StoresOk, AttemptsOk, ActivityOk;
    SyncDirWithin(w.disk, dir);
    LifecycleKept(w, w.(disk := w.disk.SyncDir(dir), stores := w.stores[s := next]), {}, s);
  }

  lemma NewIdentity(d: Disk, i: Inode)
    requires Sound(d) && RootsOk(d) && i !in d.data && Identity !in d.now
    ensures var e := d.Write(i, IdentityDoc).SyncFile(i).Put(Identity, Some(File(i)));
      && Within(d, e, {Identity}) && Sound(e) && RootsOk(e) && NewFilesOnly(d, e)
      && Identity in e.now && e.At(RunRoot) == d.At(RunRoot)
  {
    var written := d.Write(i, IdentityDoc);
    WriteWithin(d, i, IdentityDoc);
    SyncFileWithin(written, i);
    PutWithin(written.SyncFile(i), Identity, Some(File(i)));
  }

  lemma OpenIdentityKeeps(w: World, s: StoreId, i: Inode)
    requires Inv(w) && Enabled(w, OpenIdentity(s, i))
    ensures Inv(Next(w, OpenIdentity(s, i)))
  {
    hide PointersOk, OwnedOk, AttemptsOk, ActivityOk;
    if Identity in w.disk.now {
      LifecycleKept(w, Next(w, OpenIdentity(s, i)), {}, s);
    } else {
      NewIdentity(w.disk, i);
      LifecycleKept(w, Next(w, OpenIdentity(s, i)), {Identity}, s);
    }
  }

  lemma OpenCellsKeeps(w: World, s: StoreId)
    requires Inv(w) && Enabled(w, OpenCells(s))
    ensures Inv(Next(w, OpenCells(s)))
  {
    hide PointersOk, OwnedOk, AttemptsOk, ActivityOk;
    assert StorePhaseOk(w.disk, w.stores[s]);
    if CellsDir in w.disk.now {
      assert Could(w.disk, CellsDir, Some(w.disk.now[CellsDir]));
    } else {
      PutWithin(w.disk, CellsDir, Some(Directory));
    }
    LifecycleKept(w, Next(w, OpenCells(s)), {CellsDir} - w.disk.now.Keys, s);
  }

  /** A constructor step of store `s`: touches only fixed entries that were not there. */
  lemma LifecycleKept(w: World, w': World, touched: set<Path>, s: StoreId)
    requires Inv(w) && s in w.stores && w.stores[s] !in {Ready, Shut}
    requires w'.stores.Keys == w.stores.Keys && w'.holder == w.holder && w'.attempts == w.attempts &&
      w'.activity == w.activity
    requires forall r <- w.stores :: r != s ==> w'.stores[r] == w.stores[r]
    requires Within(w.disk, w'.disk, touched) && (forall p <- touched :: Fixed(p) && p !in w.disk.now)
    requires NewFilesOnly(w.disk, w'.disk)
    requires Sound(w'.disk) && RootsOk(w'.disk) && StorePhaseOk(w'.disk, w'.stores[s])
    ensures Inv(w')
  {
    var mid := w.(disk := w'.disk);
    RestKept(w, mid, touched, None);
    forall g <- w.attempts ensures Usable(w', g) == Usable(w, g) {}
    if w.activity != Resting { ActivityKept(w, w'.disk, touched); }
  }

  /** Contents that existed are left alone, and entries only gain contents that are new. */
  ghost predicate NewFilesOnly(d: Disk, e: Disk) {
    && (forall i <- d.data :: i in e.data && e.data[i] == d.data[i] && (i in e.synced ==> i in d.synced))
    && forall p, i :: Could(e, p, Some(File(i))) && i in d.data ==> Could(d, p, Some(File(i)))
  }

  /** The running operation does not notice another store's constructor. */
  lemma ActivityKept(w: World, e: Disk, touched: set<Path>)
    requires Inv(w) && w.activity != Resting
    requires Within(w.disk, e, touched) && (forall p <- touched :: Fixed(p) && p !in w.disk.now)
    requires NewFilesOnly(w.disk, e)
    ensures ActivityOk(w.(disk := e))
  {
    var d, a := w.disk, w.activity;
    OthersKept(d, e, touched, None);
    assert Spares(d, touched, None);
    match a
    case Starting(g, k) => StartingKept(d, e, touched, g, k);
    case Writing(_, _, _, _, _) => WritingKept(d, e, touched, a);
    case Ascending(g, rel, depth) => AscendingKept(d, e, touched, g, rel, depth);
    case Validated(g, m) =>
      SparesOthers(d, touched, None, g);
      ListsWithin(d, e, touched, g, m);
    case Published(g, m) =>
  }

  lemma StartingKept(d: Disk, e: Disk, touched: set<Path>, g: Gen, k: nat)
    requires StartingOk(d, g, k) && Within(d, e, touched) && forall p <- touched :: Fixed(p) && p !in d.now
    ensures StartingOk(e, g, k)
  {
    var c := g.cell;
    assert touched !! {RunRoot, CellsDir, CellDir(c), AttemptsDir(c), ManifestsDir(c), Tree(g, [])};
    assert forall p | p in {RunRoot, CellsDir, CellDir(c), AttemptsDir(c), ManifestsDir(c), Tree(g, [])} ::
      e.At(p) == d.At(p);
    forall p, v | Belongs(g, p) && p != Tree(g, []) ensures !Could(e, p, Some(v)) {
      assert p !in touched;
      assert !Could(d, p, Some(v));
    }
  }

  lemma SettledButKept(d: Disk, e: Disk, touched: set<Path>, g: Gen, rel: Rel)
    requires Anchored(d, g) && Within(d, e, touched) && (forall p <- touched :: Fixed(p) && p !in d.now)
    ensures Anchored(e, g)
    ensures NoManifest(d, g) ==> NoManifest(e, g)
    ensures NoTemps(d, g) ==> NoTemps(e, g)
    ensures SettledBut(d, g, rel) ==> SettledBut(e, g, rel)
    ensures forall r, v :: r != [] && Could(e, Tree(g, r), v) ==> Could(d, Tree(g, r), v)
    ensures forall r :: e.At(Tree(g, r)) == d.At(Tree(g, r))
  {
    SparesOthers(d, touched, None, g);
    AnchoredWithin(d, e, touched, g);
    assert Foot(g, Manifest(g));
    forall r ensures Tree(g, r) !in touched && e.At(Tree(g, r)) == d.At(Tree(g, r)) { assert Foot(g, Tree(g, r)); }
    forall r, n ensures Temp(Tree(g, r), n) !in touched { assert Foot(g, Temp(Tree(g, r), n)); }
    if NoTemps(d, g) {
      forall r, n, v ensures !Could(e, Temp(Tree(g, r), n), Some(v)) { assert !Could(d, Temp(Tree(g, r), n), Some(v)); }
    }
    if SettledBut(d, g, rel) {
      forall r, i | r != rel && Could(e, Tree(g, r), Some(File(i))) ensures FileSettled(e, g, r) {
        assert Could(d, Tree(g, r), Some(File(i)));
        FileSettledWithin(d, e, touched, g, r);
      }
    }
  }

  lemma WritingKept(d: Disk, e: Disk, touched: set<Path>, a: Activity)
    requires a.Writing? && Sound(d) && WritingOk(d, a) && Within(d, e, touched)
    requires (forall p <- touched :: Fixed(p) && p !in d.now) && NewFilesOnly(d, e)
    ensures WritingOk(e, a)
  {
    var t, target := TempOf(a.g, a.job, a.serial), Target(a.g, a.job);
    SparesOthers(d, touched, None, a.g);
    OthersKept(d, e, touched, None);
    assert t !in touched;
    match a.job
    case StageJob(rel, doc) =>
      SettledButKept(d, e, touched, a.g, if a.stage == Placed then rel else []);
      forall r, n, v | Could(e, Temp(Tree(a.g, r), n), Some(v)) ensures Temp(Tree(a.g, r), n) == t {
        assert Foot(a.g, Temp(Tree(a.g, r), n));
        assert Could(d, Temp(Tree(a.g, r), n), Some(v));
      }
    case ManifestJob(m) =>
      SettledWithin(d, e, touched, a.g);
      ListsWithin(d, e, touched, a.g, m);
      assert Foot(a.g, Manifest(a.g));
    case PointerJob(m) =>
  }

  lemma AscendingKept(d: Disk, e: Disk, touched: set<Path>, g: Gen, rel: Rel, depth: nat)
    requires AscendingOk(d, g, rel, depth) && Within(d, e, touched) && forall p <- touched :: Fixed(p) && p !in d.now
    ensures AscendingOk(e, g, rel, depth)
  {
    SettledButKept(d, e, touched, g, rel);
    forall j | depth + 2 <= j < |rel| ensures Firm(e, Tree(g, rel[..j]), Directory) {
      assert Firm(d, Tree(g, rel[..j]), Directory);
      assert rel[..j] != [];
    }
  }
}
