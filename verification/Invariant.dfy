/** The invariant every step of the store keeps. */
module Invariant {
  import opened Options
  import opened PathOrder
  import opened Disk
  import opened Generations
  import opened Protocol

  // ----- The invariant -----

  ghost predicate PointsAt(d: Disk, c: CellId, v: Node) {
    && v.File? && v.inode in d.synced && v.inode in d.data
    && d.data[v.inode].RefDoc?
    && d.data[v.inode].ref.g.cell == c
    && Sealed(d, d.data[v.inode].ref)
  }

  /** Every value a cell's pointer may have after a crash names a complete generation of the cell. */
  ghost predicate PointersOk(d: Disk) {
    forall c, v :: Could(d, Pointer(c), Some(v)) ==> PointsAt(d, c, v)
  }

  /** Nothing below an attempt directory, and no manifest, outlives the directories it rests on. */
  ghost predicate OwnedOk(d: Disk) {
    forall g, p, v :: Belongs(g, p) && p != Tree(g, []) && Could(d, p, Some(v)) ==> Anchored(d, g)
  }

  ghost predicate RootsOk(d: Disk) {
    && (forall p, v :: p in {RunRoot, CellsDir} && Could(d, p, Some(v)) ==> v == Directory)
    && (forall p, v :: Parent(p) == Namespace && Could(d, p, Some(v)) ==> p in {Namespace, RunRoot})
  }

  ghost predicate StorePhaseOk(d: Disk, phase: StorePhase) {
    match phase
    case CheckRoot => true
    case Shut => true
    case SyncNamespace => d.IsDirectory(RunRoot)
    case CheckIdentity => d.IsDirectory(RunRoot)
    case SyncIdentity => d.IsDirectory(RunRoot) && Identity in d.now
    case CheckCells => d.IsDirectory(RunRoot) && Identity in d.now
    case SyncCells => d.IsDirectory(RunRoot) && Identity in d.now && d.IsDirectory(CellsDir)
    case Ready =>
      d.IsDirectory(RunRoot) && Identity in d.now && Firm(d, Identity, d.now[Identity]) && Firm(d, CellsDir, Directory)
  }

  ghost predicate StoresOk(w: World) {
    && (forall s <- w.stores :: StorePhaseOk(w.disk, w.stores[s]))
    && (w.holder.Some? ==> Phase(w, w.holder.value, Ready))
  }

  ghost predicate IdleOk(d: Disk, g: Gen) { Settled(d, g) && NoManifest(d, g) }

  predicate Active(w: World, g: Gen) { w.activity != Resting && w.activity.g == g }

  ghost predicate AttemptsOk(w: World) {
    && (forall g <- w.attempts :: !w.attempts[g].closed && !Active(w, g) ==> IdleOk(w.disk, g))
    && (forall g <- w.attempts :: Usable(w, g) ==> w.holder == Some(w.attempts[g].owner))
    && (forall g <- w.attempts :: Phase(w, w.attempts[g].owner, Ready) || Phase(w, w.attempts[g].owner, Shut))
  }

  ghost predicate Untouched(d: Disk, g: Gen) {
    forall p, v :: Belongs(g, p) && p != Tree(g, []) ==> !Could(d, p, Some(v))
  }

  ghost predicate StartingOk(d: Disk, g: Gen, synced: nat) {
    && synced <= 2 && d.IsDirectory(RunRoot) && Firm(d, CellsDir, Directory)
    && d.IsDirectory(CellDir(g.cell)) && d.IsDirectory(AttemptsDir(g.cell)) && d.IsDirectory(ManifestsDir(g.cell))
    && (synced >= 1 ==> Firm(d, CellDir(g.cell), Directory))
    && (synced >= 2 ==> Firm(d, AttemptsDir(g.cell), Directory) && Firm(d, ManifestsDir(g.cell), Directory))
    && d.IsDirectory(Tree(g, [])) && Untouched(d, g)
  }

  ghost predicate OnlyTemp(d: Disk, g: Gen, t: Path) {
    forall rel, n, v :: Could(d, Temp(Tree(g, rel), n), Some(v)) ==> Temp(Tree(g, rel), n) == t
  }

  predicate AlongDirectories(d: Disk, g: Gen, rel: Rel) {
    forall j | 0 <= j < |rel| :: d.IsDirectory(Tree(g, rel[..j]))
  }

  ghost predicate JobOk(d: Disk, g: Gen, job: Job, t: Path, placed: bool) {
    match job
    case StageJob(rel, doc) =>
      && rel != [] && doc.Bytes? && Anchored(d, g) && NoManifest(d, g) && OnlyTemp(d, g, t)
      && AlongDirectories(d, g, rel) && SettledBut(d, g, if placed then rel else [])
      && (if placed then t !in d.now else !d.IsDirectory(Tree(g, rel)))
    case ManifestJob(m) => Settled(d, g) && Lists(d, g, m) && (!placed ==> NoManifest(d, g))
    case PointerJob(m) => m.g == g && Sealed(d, RefOf(m))
  }

  ghost predicate WritingOk(d: Disk, a: Activity)
    requires a.Writing?
  {
    var t := TempOf(a.g, a.job, a.serial);
    && a.inode in d.data
    && (a.inode in d.synced <==> a.stage in {Flushed, Placed})
    && (a.stage != Created ==> d.data[a.inode] == Payload(a.job))
    && (if a.stage == Placed then d.At(Target(a.g, a.job)) == Some(File(a.inode))
        else d.At(t) == Some(File(a.inode)) && forall p :: Could(d, p, Some(File(a.inode))) ==> p == t)
    && JobOk(d, a.g, a.job, t, a.stage == Placed)
  }

  ghost predicate AscendingOk(d: Disk, g: Gen, rel: Rel, depth: nat) {
    && depth < |rel| && Anchored(d, g) && NoManifest(d, g) && NoTemps(d, g) && SettledBut(d, g, rel)
    && IsFile(d, g, rel) && Firm(d, Tree(g, rel), d.now[Tree(g, rel)]) && d.now[Tree(g, rel)].inode in d.synced
    && AlongDirectories(d, g, rel)
    && forall j | depth + 2 <= j < |rel| :: Firm(d, Tree(g, rel[..j]), Directory)
  }

  ghost predicate BusyOk(d: Disk, a: Activity) {
    match a
    case Resting => true
    case Starting(g, k) => StartingOk(d, g, k)
    case Writing(_, _, _, _, _) => WritingOk(d, a)
    case Ascending(g, rel, depth) => AscendingOk(d, g, rel, depth)
    case Validated(g, m) => IdleOk(d, g) && Lists(d, g, m)
    case Published(g, m) => m.g == g && Sealed(d, RefOf(m))
  }

  ghost predicate ActivityOk(w: World) {
    w.activity != Resting ==> Usable(w, w.activity.g) && BusyOk(w.disk, w.activity)
  }

  ghost predicate DiskOk(d: Disk) {
    Sound(d) && RootsOk(d) && PointersOk(d) && OwnedOk(d)
  }

  ghost predicate Inv(w: World) {
    DiskOk(w.disk) && StoresOk(w) && AttemptsOk(w) && ActivityOk(w)
  }

  // ----- Frames for the whole invariant -----

  /** Entries that, once there, are never written again. */
  predicate Fixed(p: Path) {
    || p in {RunRoot, Identity, CellsDir}
    || p.CellDir? || p.AttemptsDir? || p.ManifestsDir?
    || (p.Tree? && p.rel == [])
  }

  /** What a step may touch without disturbing anyone but `g`: entries no generation rests on, fixed
      entries that are not there yet, and entries of `g` itself. */
  predicate Spares(d: Disk, touched: set<Path>, g: Option<Gen>) {
    forall p <- touched ::
      || p.Pointer? || (p.Temp? && !p.dir.Tree?)
      || (Fixed(p) && p !in d.now)
      || (g.Some? && Belongs(g.value, p) && !Fixed(p))
  }

  /** Nothing a pointer or the directories of the run rest on. */
  predicate Plain(touched: set<Path>) {
    forall p <- touched :: !p.Pointer? && p != CellsDir && Parent(p) != Namespace
  }

  lemma RootsKept(d: Disk, e: Disk, touched: set<Path>)
    requires RootsOk(d) && Within(d, e, touched) && forall p <- touched :: p != CellsDir && Parent(p) != Namespace
    ensures RootsOk(e)
  {
    forall p, v | p in {RunRoot, CellsDir} && Could(e, p, Some(v))
      ensures v == Directory
    {
      assert Could(d, p, Some(v));
    }
    forall p, v | Parent(p) == Namespace && Could(e, p, Some(v)) ensures p in {Namespace, RunRoot} {
      assert Could(d, p, Some(v));
    }
  }

  lemma SparesOthers(d: Disk, touched: set<Path>, g: Option<Gen>, other: Gen)
    requires Spares(d, touched, g) && Anchored(d, other) && g != Some(other)
    ensures Apart(other, touched)
  {
  }

  lemma OthersKept(d: Disk, e: Disk, touched: set<Path>, g: Option<Gen>)
    requires Sound(d) && Within(d, e, touched) && Spares(d, touched, g)
    ensures forall other :: IdleOk(d, other) && g != Some(other) ==> IdleOk(e, other)
    ensures forall ref :: Sealed(d, ref) && g != Some(ref.g) ==> Sealed(e, ref)
  {
    forall other | IdleOk(d, other) && g != Some(other) ensures IdleOk(e, other) {
      SparesOthers(d, touched, g, other);
      SettledWithin(d, e, touched, other);
      assert Foot(other, Manifest(other));
    }
    forall ref | Sealed(d, ref) && g != Some(ref.g) ensures Sealed(e, ref) {
      SparesOthers(d, touched, g, ref.g);
      SealedWithin(d, e, touched, ref);
    }
  }

  lemma StoresKept(d: Disk, e: Disk, touched: set<Path>, g: Option<Gen>, phase: StorePhase)
    requires Within(d, e, touched) && Spares(d, touched, g) && StorePhaseOk(d, phase)
    ensures StorePhaseOk(e, phase)
  {
    forall p | Fixed(p) && p in d.now && (p in {RunRoot, Identity, CellsDir})
      ensures e.At(p) == d.At(p) && p !in touched
    {
    }
    assert e.At(RunRoot) == d.At(RunRoot) || RunRoot !in d.now;
    assert e.At(Identity) == d.At(Identity) || Identity !in d.now;
    assert e.At(CellsDir) == d.At(CellsDir) || CellsDir !in d.now;
  }

  lemma AnchoredKept(d: Disk, e: Disk, touched: set<Path>, g: Option<Gen>, other: Gen)
    requires Within(d, e, touched) && Spares(d, touched, g) && Anchored(d, other)
    ensures Anchored(e, other)
  {
    var c := other.cell;
    assert touched !! {RunRoot, CellsDir, CellDir(c), AttemptsDir(c), ManifestsDir(c), Tree(other, [])};
  }

  lemma OwnedKept(d: Disk, e: Disk, touched: set<Path>, g: Option<Gen>)
    requires OwnedOk(d) && Within(d, e, touched) && Spares(d, touched, g)
    requires g.Some? ==> Anchored(d, g.value)
    ensures OwnedOk(e)
  {
    forall h, p, v | Belongs(h, p) && p != Tree(h, []) && Could(e, p, Some(v)) ensures Anchored(e, h) {
      if p !in touched {
        assert Could(d, p, Some(v));
      } else {
        assert g == Some(h);
      }
      AnchoredKept(d, e, touched, g, h);
    }
  }

  /** The part of the disk invariant that speaks about generations. */
  lemma PointersKept(d: Disk, e: Disk, touched: set<Path>, g: Option<Gen>)
    requires Sound(d) && PointersOk(d) && Within(d, e, touched) && Spares(d, touched, g)
    requires g.Some? ==> NoManifest(d, g.value)
    requires forall p <- touched :: !p.Pointer?
    ensures PointersOk(e)
  {
    OthersKept(d, e, touched, g);
    forall c, v | Could(e, Pointer(c), Some(v)) ensures PointsAt(e, c, v) {
      assert Could(d, Pointer(c), Some(v));
      assert PointsAt(d, c, v);
      var ref := d.data[v.inode].ref;
      assert Could(d, Manifest(ref.g), Some(d.now[Manifest(ref.g)]));
    }
  }

  /** All of it at once, for a step that leaves stores and attempts as they are. */
  lemma RestKept(w: World, w': World, touched: set<Path>, g: Option<Gen>)
    requires Inv(w) && w'.stores == w.stores && w'.holder == w.holder && w'.attempts == w.attempts
    requires Within(w.disk, w'.disk, touched) && Spares(w.disk, touched, g)
    requires g.Some? ==> Anchored(w.disk, g.value) && NoManifest(w.disk, g.value)
    requires forall p <- touched :: !p.Pointer?
    ensures PointersOk(w'.disk) && OwnedOk(w'.disk) && StoresOk(w')
    ensures forall other <- w.attempts ::
      !w.attempts[other].closed && !Active(w, other) && g != Some(other) ==> IdleOk(w'.disk, other)
    ensures forall other <- w.attempts :: Usable(w', other) ==> w'.holder == Some(w'.attempts[other].owner)
  {
    PointersKept(w.disk, w'.disk, touched, g);
    OwnedKept(w.disk, w'.disk, touched, g);
    OthersKept(w.disk, w'.disk, touched, g);
    forall s <- w.stores ensures StorePhaseOk(w'.disk, w.stores[s]) {
      StoresKept(w.disk, w'.disk, touched, g, w.stores[s]);
    }
    forall other <- w.attempts ensures Usable(w', other) == Usable(w, other) {}
  }
}
