/** Stores and the attempts they issue, with the fields their methods update. */
module ArtifactStores {
  import opened Options
  import opened PathOrder
  import opened ArtifactWalk
  import opened Disk
  import opened Generations
  import opened Protocol
  import opened Invariant
  import opened AttemptSteps
  import opened StoreTheorems
  import opened StoreHost
  import opened AttemptListing

  datatype FailureKind =
    | AttemptClosed | StoreClosed | WriterBusy | IdentityMissing | UnsafePath | NotADirectory | Io
    | Corrupt(kind: LoadError)

  datatype Outcome<+T> = Done(value: T) | Raised(kind: FailureKind)

  class ArtifactStore {
    const host: RunHost
    const id: StoreId
    var closed: bool
    var lockHeld: bool

    /** The fields agree with the machine, and no operation is under way. */
    ghost predicate Valid()
      reads this, host
    {
      && host.Valid() && Inv(host.w) && host.w.activity == Resting
      && Phase(host.w, id, if closed then Shut else Ready)
      && (lockHeld <==> host.w.holder == Some(id))
    }

    constructor (host: RunHost, id: StoreId)
      requires host.Valid() && Inv(host.w) && host.w.activity == Resting && Phase(host.w, id, Ready)
      ensures Valid() && this.host == host && this.id == id && !closed
    {
      this.host, this.id, closed := host, id, false;
      lockHeld := host.w.holder == Some(id);
    }

    /** Makes or checks the run root, its identity and the cells directory. Commits are never touched. The
        store that comes back rests on a durable run root exactly when this call made the root or the root
        was durable already; one that somebody else left unsynced stays that way. */
    static method Open(host: RunHost, id: StoreId) returns (r: Outcome<ArtifactStore>)
      requires host.Valid() && Inv(host.w) && host.w.activity == Resting && id !in host.w.stores
      modifies host
      ensures host.Valid() && Inv(host.w) && host.w.activity == Resting
      ensures Undisturbed(old(host.w), host.w)
      ensures r.Done? ==>
        fresh(r.value) && r.value.Valid() && r.value.host == host && r.value.id == id && !r.value.closed
      ensures r.Raised? ==> Phase(host.w, id, Shut)
      ensures RootKept(old(host.w.disk), host.w.disk, false)
      ensures r.Done? ==> RunRoot in host.w.disk.now
      ensures r.Done? ==>
        (Firm(host.w.disk, RunRoot, Directory) <==>
         RunRoot !in old(host.w.disk.now) || Firm(old(host.w.disk), RunRoot, Directory))
      ensures r.Raised? ==> r.kind in {Io, IdentityMissing}
      ensures host.faults == old(host.faults) + if r == Raised(Io) then 1 else 0
      ensures Identity in old(host.w.disk.now) || CellsDir !in old(host.w.disk.now) ==> r != Raised(IdentityMissing)
      ensures Identity !in old(host.w.disk.now) && CellsDir in old(host.w.disk.now) ==> r.Raised?
    {
      hide Inv, Sealed, PointerDoc, Next, Firm, Run;
      var kind := OpenRunRoot(host, id);
      if kind == None { kind := OpenIdentityFile(host, id); }
      if kind == None { kind := OpenCellsDir(host, id); }
      if kind.Some? { return Raised(kind.value); }
      var store := new ArtifactStore(host, id);
      return Done(store);
    }

    /** Ends the store's lifetime: the lock goes back, and every attempt it issued becomes unusable. */
    method Close()
      requires Valid()
      modifies this, host
      ensures Valid() && closed && !lockHeld
      ensures host.w == Shutting(old(host.w), id)
      ensures forall g <- host.w.attempts :: host.w.attempts[g].owner == id ==> !Usable(host.w, g)
      ensures host.faults == old(host.faults)
    {
      hide DiskOk, StoresOk, BusyOk, Sealed, PointerDoc;
      host.Do(CloseStore(id));
      closed, lockHeld := true, false;
    }

    /** Begins an attempt under the first drawn directory name that is not taken; random names run into a
        free one sooner or later. A failure past the lock poisons the store and lets the lock go. */
    method Begin(cell: CellId, draws: nat -> Uuid) returns (r: Outcome<ArtifactAttempt>)
      requires Valid() && exists k: nat :: Free(host.w.disk, cell, draws(k))
      modifies this, host
      ensures Valid()
      ensures SealedKept(old(host.w.disk), host.w.disk) && SamePointers(old(host.w.disk), host.w.disk)
      ensures old(closed) ==> r == Raised(StoreClosed) && host.w == old(host.w) && closed
      ensures !old(closed) && SafeCell(cell) && old(host.w.holder) !in {None, Some(id)} ==>
        r == Raised(WriterBusy) && host.w == old(host.w) && !closed
      ensures r.Done? ==>
        && fresh(r.value) && r.value.Valid() && r.value.store == this && r.value.g.cell == cell && !r.value.closed
        && r.value.artifactRef == None && lockHeld && !closed && forall rel :: !IsFile(host.w.disk, r.value.g, rel)
      ensures r.Done? ==> FirstFree(old(host.w.disk), cell, draws, r.value.g.attempt)
      ensures r == Raised(Io) ==> closed && !lockHeld
      ensures !old(closed) && !SafeCell(cell) ==> r == Raised(UnsafePath) && host.w == old(host.w) && !closed
      ensures !old(closed) && SafeCell(cell) && old(host.w.holder) in {None, Some(id)} ==> r.Done? || r == Raised(Io)
      ensures host.faults == old(host.faults) + if r == Raised(Io) then 1 else 0
    {
      hide Inv, Run, Sealed, PointerDoc, Next;
      if closed { return Raised(StoreClosed); }
      if !SafeCell(cell) { return Raised(UnsafePath); }
      if host.w.holder != None && host.w.holder != Some(id) { return Raised(WriterBusy); }
      TakeWriterLock(host, id);
      lockHeld := true;
      var raised := MakeCellDirs(host, id, cell);
      if !raised {
        var uuid := Draw(host.w.disk, cell, draws);
        raised := StartAttempt(host, id, Gen(cell, uuid));
        if !raised {
          var attempt := new ArtifactAttempt(this, Gen(cell, uuid));
          return Done(attempt);
        }
      }
      closed, lockHeld := true, false;
      return Raised(Io);
    }
  }

  // ----- begin -----

  /** No attempt of the cell has this directory name. */
  predicate Free(d: Disk, cell: CellId, uuid: Uuid) { Tree(Gen(cell, uuid), []) !in d.now }

  ghost predicate FirstFree(d: Disk, cell: CellId, draws: nat -> Uuid, uuid: Uuid) {
    Free(d, cell, uuid) && exists k: nat :: draws(k) == uuid && forall j: nat | j < k :: !Free(d, cell, draws(j))
  }

  /** `mkdir` on one drawn name after another, as long as it finds the name taken. */
  method Draw(d: Disk, cell: CellId, draws: nat -> Uuid) returns (uuid: Uuid)
    requires exists k: nat :: Free(d, cell, draws(k))
    ensures FirstFree(d, cell, draws, uuid)
  {
    ghost var free: nat :| Free(d, cell, draws(free));
    var k := 0;
    while !Free(d, cell, draws(k))
      invariant k <= free && forall j: nat | j < k :: !Free(d, cell, draws(j))
      decreases free - k
    {
      k := k + 1;
    }
    return draws(k);
  }

  predicate SafeCell(cell: CellId) { cell != "" && '\0' !in cell }

  method TakeWriterLock(host: RunHost, id: StoreId)
    requires host.Valid() && Inv(host.w) && host.w.activity == Resting && Phase(host.w, id, Ready)
    requires host.w.holder in {None, Some(id)}
    modifies host
    ensures host.Valid() && Inv(host.w) && host.w == old(host.w).(holder := Some(id))
    ensures host.faults == old(host.faults)
  {
    host.Do(TakeLock(id));
  }

  /** The store is the writer; its lock, phase and attempts have not moved. */
  ghost predicate Writing(w: World, w': World, id: StoreId) {
    && Writer(w', id) && w'.activity == Resting && w'.attempts == w.attempts
    && SealedKept(w.disk, w'.disk) && SamePointers(w.disk, w'.disk)
  }

  /** The store gave up: closed and without the lock, nothing committed was disturbed. */
  ghost predicate Poisoned(w: World, w': World, id: StoreId) {
    && Phase(w', id, Shut) && w'.holder == None && w'.activity == Resting
    && SealedKept(w.disk, w'.disk) && SamePointers(w.disk, w'.disk)
  }

  lemma MakeCellNext(w: World, id: StoreId, dir: Path)
    requires Inv(w) && Writer(w, id) && w.activity == Resting && dir !in w.disk.now && w.disk.IsDirectory(Parent(dir))
    requires dir.CellDir? || dir.AttemptsDir? || dir.ManifestsDir?
    ensures Enabled(w, MakeCell(id, dir)) && Next(w, MakeCell(id, dir)) == w.(disk := w.disk.Put(dir, Some(Directory)))
  {
  }

  /** `_ensure_directory` refuses what is no directory, which nothing at these places ever is. */
  lemma CellsAreDirectories(host: RunHost, dir: Path)
    requires host.Valid() && dir in host.w.disk.now && (dir.CellDir? || dir.AttemptsDir? || dir.ManifestsDir?)
    ensures host.w.disk.IsDirectory(dir)
  {
    host.Facts();
    assert Could(host.w.disk, dir, Some(host.w.disk.now[dir]));
  }

  /** `_ensure_directory` for one directory: there already, made, or the store gives up. */
  method EnsureDirectory(host: RunHost, id: StoreId, dir: Path) returns (raised: bool)
    requires host.Valid() && Inv(host.w) && Writer(host.w, id) && host.w.activity == Resting
    requires host.w.disk.IsDirectory(Parent(dir)) && (dir.CellDir? || dir.AttemptsDir? || dir.ManifestsDir?)
    modifies host
    ensures host.Valid() && Inv(host.w)
    ensures raised ==> Poisoned(old(host.w), host.w, id)
    ensures !raised ==> Writing(old(host.w), host.w, id) && host.w.disk.IsDirectory(dir)
    ensures !raised ==>
      forall p | p in old(host.w.disk.now) :: p in host.w.disk.now && host.w.disk.now[p] == old(host.w.disk.now[p])
    ensures !raised ==> forall g :: Tree(g, []) in host.w.disk.now <==> Tree(g, []) in old(host.w.disk.now)
    ensures host.faults == old(host.faults) + if raised then 1 else 0
  {
    hide Inv, Run, Sealed, PointerDoc;
    if dir in host.w.disk.now {
      CellsAreDirectories(host, dir);
      return false;
    }
    raised := host.Invoke("mkdir");
    if raised {
      host.Do(CloseStore(id));
    } else {
      MakeCellNext(host.w, id, dir);
      host.Do(MakeCell(id, dir));
    }
  }

  method MakeCellDirs(host: RunHost, id: StoreId, cell: CellId) returns (raised: bool)
    requires host.Valid() && Inv(host.w) && Writer(host.w, id) && host.w.activity == Resting
    modifies host
    ensures host.Valid() && Inv(host.w)
    ensures if raised then Poisoned(old(host.w), host.w, id) else Writing(old(host.w), host.w, id)
    ensures !raised ==> host.w.disk.IsDirectory(CellDir(cell)) && host.w.disk.IsDirectory(AttemptsDir(cell))
    ensures !raised ==> host.w.disk.IsDirectory(ManifestsDir(cell))
    ensures !raised ==> forall g :: Tree(g, []) in host.w.disk.now <==> Tree(g, []) in old(host.w.disk.now)
    ensures host.faults == old(host.faults) + if raised then 1 else 0
  {
    hide Inv, Run, Sealed, PointerDoc, Next;
    ReadyHasCells(host.w, id);
    raised := EnsureDirectory(host, id, CellDir(cell));
    if raised { return; }
    raised := EnsureDirectory(host, id, AttemptsDir(cell));
    if raised { return; }
    raised := EnsureDirectory(host, id, ManifestsDir(cell));
  }

  lemma ReadyHasCells(w: World, id: StoreId)
    requires Inv(w) && Phase(w, id, Ready)
    ensures w.disk.IsDirectory(CellsDir)
  {
    hide DiskOk, AttemptsOk, BusyOk;
    assert StorePhaseOk(w.disk, w.stores[id]);
  }

  lemma StartNext(w: World, id: StoreId, g: Gen)
    requires Inv(w) && Writer(w, id) && w.activity == Resting && Tree(g, []) !in w.disk.now
    requires w.disk.IsDirectory(AttemptsDir(g.cell)) && w.disk.IsDirectory(ManifestsDir(g.cell)) &&
      w.disk.IsDirectory(CellDir(g.cell))
    ensures Enabled(w, MakeAttempt(id, g))
    ensures var w' := Next(w, MakeAttempt(id, g));
      w'.activity == Starting(g, 0) && w'.stores == w.stores && w'.holder == w.holder
      && w'.attempts == w.attempts[g := Attempt(id, false)]
  {
  }

  lemma SyncNext(w: World)
    requires Inv(w) && w.activity.Starting?
    ensures var w', k := Next(w, SyncAttempt), w.activity.synced;
      w'.stores == w.stores && w'.holder == w.holder && w'.attempts == w.attempts && w'.disk.now == w.disk.now
      && w'.activity == (if k < 2 then Starting(w.activity.g, k + 1) else Resting)
    ensures forall rel :: !IsFile(w.disk, w.activity.g, rel)
  {
    hide DiskOk, StoresOk;
    var d, g := w.disk, w.activity.g;
    assert StartingOk(d, g, w.activity.synced);
    forall rel ensures !IsFile(d, g, rel) {
      assert rel != [] && Tree(g, rel) in d.now ==>
        Belongs(g, Tree(g, rel)) && Could(d, Tree(g, rel), Some(d.now[Tree(g, rel)]));
    }
  }

  /** The attempt directory and the three fsyncs above it. */
  method StartAttempt(host: RunHost, id: StoreId, g: Gen) returns (raised: bool)
    requires host.Valid() && Inv(host.w) && Writer(host.w, id) && host.w.activity == Resting &&
      Tree(g, []) !in host.w.disk.now
    requires host.w.disk.IsDirectory(AttemptsDir(g.cell)) && host.w.disk.IsDirectory(ManifestsDir(g.cell))
    requires host.w.disk.IsDirectory(CellDir(g.cell))
    modifies host
    ensures host.Valid() && Inv(host.w)
    ensures SealedKept(old(host.w.disk), host.w.disk) && SamePointers(old(host.w.disk), host.w.disk)
    ensures raised ==> Poisoned(old(host.w), host.w, id)
    ensures !raised ==> Writer(host.w, id) && host.w.activity == Resting
    ensures !raised ==> host.w.attempts == old(host.w.attempts)[g := Attempt(id, false)]
    ensures !raised ==> forall rel :: !IsFile(host.w.disk, g, rel)
    ensures host.faults == old(host.faults) + if raised then 1 else 0
  {
    hide Inv, Run, Sealed, PointerDoc, Next, IsFile;
    StartNext(host.w, id, g);
    host.Do(MakeAttempt(id, g));
    for k := 0 to 3
      invariant host.Valid() && Inv(host.w) && Writer(host.w, id)
      invariant host.w.attempts == old(host.w.attempts)[g := Attempt(id, false)]
      invariant host.w.activity == (if k < 3 then Starting(g, k) else Resting) && host.faults == old(host.faults)
      invariant SealedKept(old(host.w.disk), host.w.disk) && SamePointers(old(host.w.disk), host.w.disk)
      invariant k == 3 ==> forall rel :: !IsFile(host.w.disk, g, rel)
    {
      raised := host.Invoke("fsync");
      if raised {
        BeginFault(host.w, id);
        host.Do(Fault(false));
        return;
      }
      SyncNext(host.w);
      ghost var d := host.w.disk;
      host.Do(SyncAttempt);
      SameFiles(d, host.w.disk, g);
    }
    raised := false;
  }

  lemma SameFiles(d: Disk, e: Disk, g: Gen)
    requires e.now == d.now
    ensures forall rel :: IsFile(e, g, rel) == IsFile(d, g, rel)
  {
  }

  lemma BeginFault(w: World, id: StoreId)
    requires w.activity.Starting? && Writer(w, id) && w.activity.g in w.attempts && w.attempts[w.activity.g].owner == id
    ensures var w' := Next(w, Fault(false)); Phase(w', id, Shut) && w'.holder == None && w'.activity == Resting
  {
  }

  // ----- Constructor steps -----

  /** Commits, attempts and the lock are as before. */
  ghost predicate Undisturbed(w: World, w': World) {
    && SealedKept(w.disk, w'.disk) && SamePointers(w.disk, w'.disk)
    && w'.attempts == w.attempts && w'.holder == w.holder && w'.activity == w.activity
  }

  /** Where a constructor stands after its next step. */
  function Opened(w: World, step: Step): StorePhase {
    match step
    case NewStore(_) => CheckRoot
    case OpenRoot(_) => if RunRoot in w.disk.now then CheckIdentity else SyncNamespace
    case OpenSync(s) =>
      if Phase(w, s, SyncNamespace) then CheckIdentity else if Phase(w, s, SyncIdentity) then CheckCells else Ready
    case OpenIdentity(_, _) => if Identity in w.disk.now then CheckCells else SyncIdentity
    case OpenCells(_) => SyncCells
    case _ => Shut
  }

  lemma OpeningNext(w: World, step: Step)
    requires ConstructorStep(step) && Inv(w)
    requires match step
      case NewStore(s) => s !in w.stores
      case OpenRoot(s) => Phase(w, s, CheckRoot)
      case OpenSync(s) => s in w.stores && w.stores[s] in {SyncNamespace, SyncIdentity, SyncCells}
      case OpenIdentity(s, i) => Phase(w, s, CheckIdentity) &&
        (Identity in w.disk.now || (i !in w.disk.data && CellsDir !in w.disk.now))
      case OpenCells(s) => Phase(w, s, CheckCells)
    ensures Enabled(w, step)
    ensures var w' := Next(w, step);
      w'.stores == w.stores[step.s := Opened(w, step)] && w'.holder == w.holder && w'.attempts == w.attempts &&
        w'.activity == w.activity
      && (step.NewStore? ==> w'.disk == w.disk)
      && (step.OpenSync? ==> w'.disk.now == w.disk.now)
      && (step.OpenRoot? ==> forall p | p != RunRoot :: p in w'.disk.now <==> p in w.disk.now)
  {
    hide DiskOk, AttemptsOk, BusyOk;
  }

  method GiveUp(host: RunHost, id: StoreId)
    requires host.Valid() && Inv(host.w) && id in host.w.stores && host.w.holder != Some(id)
    modifies host
    ensures host.Valid() && Inv(host.w) && Undisturbed(old(host.w), host.w)
    ensures host.w.stores == old(host.w.stores)[id := Shut] && host.w.disk == old(host.w.disk)
    ensures RootKept(old(host.w.disk), host.w.disk, false)
    ensures host.faults == old(host.faults)
  {
    hide Inv, Run, Sealed, PointerDoc, Firm;
    host.Do(CloseStore(id));
  }

  /** The constructor's next directory fsync; a fault there ends the constructor. */
  method Synced(host: RunHost, id: StoreId) returns (raised: bool)
    requires host.Valid() && Inv(host.w) && id in host.w.stores && host.w.holder != Some(id)
    requires host.w.stores[id] in {SyncNamespace, SyncIdentity, SyncCells}
    modifies host
    ensures host.Valid() && Inv(host.w)
    ensures Undisturbed(old(host.w), host.w)
    ensures host.w.stores == old(host.w.stores)[id := if raised then Shut else Opened(old(host.w), OpenSync(id))]
    ensures RootKept(old(host.w.disk), host.w.disk, !raised && Phase(old(host.w), id, SyncNamespace))
    ensures Phase(old(host.w), id, SyncNamespace) ==> RunRoot in host.w.disk.now
    ensures host.w.disk.now == old(host.w.disk.now)
    ensures host.faults == old(host.faults) + if raised then 1 else 0
  {
    hide Inv, Run, Sealed, PointerDoc, Firm;
    if Phase(host.w, id, SyncNamespace) { SyncingRoot(host.w, OpenSync(id)); }
    raised := host.Invoke("fsync");
    if raised {
      GiveUp(host, id);
    } else {
      OpeningNext(host.w, OpenSync(id));
      host.Do(OpenSync(id));
    }
  }

  method OpenRunRoot(host: RunHost, id: StoreId) returns (kind: Option<FailureKind>)
    requires host.Valid() && Inv(host.w) && id !in host.w.stores
    modifies host
    ensures host.Valid() && Inv(host.w) && Undisturbed(old(host.w), host.w)
    ensures host.w.stores == old(host.w.stores)[id := if kind == None then CheckIdentity else Shut]
    ensures RootKept(old(host.w.disk), host.w.disk, false)
    ensures kind == None ==> RunRoot in host.w.disk.now
    ensures kind == None && RunRoot !in old(host.w.disk.now) ==> Firm(host.w.disk, RunRoot, Directory)
    ensures Identity in host.w.disk.now <==> Identity in old(host.w.disk.now)
    ensures CellsDir in host.w.disk.now <==> CellsDir in old(host.w.disk.now)
    ensures kind in {None, Some(Io)}
    ensures host.faults == old(host.faults) + if kind == Some(Io) then 1 else 0
  {
    hide Inv, Run, Sealed, PointerDoc, Next, Firm;
    FreeOfLock(host.w, id);
    OpeningNext(host.w, NewStore(id));
    host.Do(NewStore(id));
    OpeningNext(host.w, OpenRoot(id));
    host.Do(OpenRoot(id));
    if host.w.stores[id] == SyncNamespace {
      SyncingRoot(host.w, OpenSync(id));
      var raised := Synced(host, id);
      if raised { return Some(Io); }
    }
    return None;
  }

  lemma FreeOfLock(w: World, id: StoreId)
    requires Inv(w) && (id !in w.stores || w.stores[id] != Ready)
    ensures w.holder != Some(id)
  {
    hide DiskOk, AttemptsOk, BusyOk;
  }

  /** Publishes the identity, or refuses a run root that has content but no identity. */
  method OpenIdentityFile(host: RunHost, id: StoreId) returns (kind: Option<FailureKind>)
    requires host.Valid() && Inv(host.w) && Phase(host.w, id, CheckIdentity)
    modifies host
    ensures host.Valid() && Inv(host.w) && Undisturbed(old(host.w), host.w)
    ensures host.w.stores == old(host.w.stores)[id := if kind == None then CheckCells else Shut]
    ensures RootKept(old(host.w.disk), host.w.disk, false)
    ensures kind == Some(IdentityMissing) <==> Identity !in old(host.w.disk.now) && CellsDir in old(host.w.disk.now)
    ensures kind in {None, Some(Io), Some(IdentityMissing)}
    ensures host.faults == old(host.faults) + if kind == Some(Io) then 1 else 0
  {
    hide Inv, Run, Sealed, PointerDoc, Next;
    FreeOfLock(host.w, id);
    if Identity !in host.w.disk.now && CellsDir in host.w.disk.now {
      GiveUp(host, id);
      return Some(IdentityMissing);
    }
    if Identity !in host.w.disk.now {
      var raised := host.Invoke("link");
      if raised {
        GiveUp(host, id);
        return Some(Io);
      }
    }
    FreshFile(host.w.disk, RunRoot);
    var inode: nat :| inode !in host.w.disk.data.Keys;
    OpeningNext(host.w, OpenIdentity(id, inode));
    host.Do(OpenIdentity(id, inode));
    if host.w.stores[id] == SyncIdentity {
      var raised := Synced(host, id);
      if raised { return Some(Io); }
    }
    return None;
  }

  method OpenCellsDir(host: RunHost, id: StoreId) returns (kind: Option<FailureKind>)
    requires host.Valid() && Inv(host.w) && Phase(host.w, id, CheckCells)
    modifies host
    ensures host.Valid() && Inv(host.w) && Undisturbed(old(host.w), host.w)
    ensures host.w.stores == old(host.w.stores)[id := if kind == None then Ready else Shut]
    ensures RootKept(old(host.w.disk), host.w.disk, false)
    ensures kind in {None, Some(Io)}
    ensures host.faults == old(host.faults) + if kind == Some(Io) then 1 else 0
  {
    hide Inv, Run, Sealed, PointerDoc, Next;
    FreeOfLock(host.w, id);
    OpeningNext(host.w, OpenCells(id));
    host.Do(OpenCells(id));
    var raised := Synced(host, id);
    if raised { return Some(Io); }
    return None;
  }

  // ----- Attempts -----

  class ArtifactAttempt {
    const store: ArtifactStore
    const g: Gen
    var closed: bool
    var artifactRef: Option<ArtifactRef>

    /** The fields agree with the machine; a recovered reference stands for a complete generation. */
    ghost predicate Valid()
      reads this, store, store.host
    {
      && store.Valid()
      && g in store.host.w.attempts && store.host.w.attempts[g] == Attempt(store.id, closed)
      && (artifactRef.Some? ==> artifactRef.value.g == g && Sealed(store.host.w.disk, artifactRef.value))
    }

    constructor (store: ArtifactStore, g: Gen)
      requires store.Valid() && g in store.host.w.attempts && store.host.w.attempts[g] == Attempt(store.id, false)
      ensures Valid() && this.store == store && this.g == g && !closed && artifactRef == None
    {
      this.store, this.g, closed, artifactRef := store, g, false, None;
    }

    /** `stage_bytes`, or `stage_file` once its source is known to be a regular file with these bytes.
        Stages them under a relative path: parents made, file published atomically, every directory up
        to the attempt root fsynced. Unless an operation is made to fail, the path alone decides. A failure
        once publication began poisons the attempt. */
    method Stage(path: string, payload: seq<bv8>, fromFile: bool) returns (r: Outcome<Rel>)
      requires Valid()
      modifies this, store.host
      ensures Valid() && artifactRef == old(artifactRef)
      ensures SealedKept(old(store.host.w.disk), store.host.w.disk) &&
        SamePointers(old(store.host.w.disk), store.host.w.disk)
      ensures old(closed) ==> r == Raised(AttemptClosed) && closed && store.host.w == old(store.host.w)
      ensures !old(closed) && store.closed ==> r == Raised(StoreClosed) && !closed && store.host.w == old(store.host.w)
      ensures !old(closed) && !store.closed ==>
        (r == Raised(UnsafePath) <==> SafeRelativePath(path).PathSafety?)
        && (r == Raised(UnsafePath) ==> !closed && store.host.w == old(store.host.w))
        && (r == Raised(NotADirectory) ==> !closed && FilesKept(old(store.host.w.disk), store.host.w.disk, None))
        && (closed <==> r == Raised(Io))
      ensures r.Done? ==>
        && SafeRelativePath(path) == Accepted(r.value)
        && Contents(store.host.w.disk, g, r.value) == Some(Bytes(payload))
        && FilesKept(old(store.host.w.disk), store.host.w.disk, Some((g, r.value)))
      ensures store.host.faults == old(store.host.faults) || r in {Raised(Io), Raised(NotADirectory)}
      ensures r == Raised(Io) ==> store.host.faults > old(store.host.faults)
      ensures
        (!old(closed) && !store.closed && SafeRelativePath(path).Accepted?
         && store.host.faults == old(store.host.faults)) ==>
          if Blocked(old(store.host.w.disk), g, SafeRelativePath(path).rel) then r == Raised(NotADirectory)
          else r == Done(SafeRelativePath(path).rel)
    {
      hide Inv, Run, Sealed, Settled, PointerDoc, Next, Held;
      if closed { return Raised(AttemptClosed); }
      if store.closed { return Raised(StoreClosed); }
      var checked := SafeRelativePath(path);
      if checked.PathSafety? { return Raised(UnsafePath); }
      var rel := checked.rel;
      SafeRelativePathExact(path, rel);
      var ready := MakeParents(store, g, rel);
      TargetUntouched(old(store.host.w.disk), store.host.w.disk, g, rel);
      if !ready || store.host.w.disk.IsDirectory(Tree(g, rel)) { return Raised(NotADirectory); }
      var raised := PublishStaged(store, g, rel, Bytes(payload), fromFile);
      if raised {
        closed := true;
        return Raised(Io);
      }
      return Done(rel);
    }

    /** Whether the cell's pointer names this attempt, and with which reference. */
    ghost predicate Published(d: Disk, ref: ArtifactRef) {
      ref.g == g && PointerDoc(d, g.cell) == Some(RefDoc(ref)) && Sealed(d, ref)
    }

    /** Asks the disk what became of an interrupted commit: this attempt's exact reference when the
        pointer names it, nothing when the cell pointer names another generation or none, a failure when
        the generation it names cannot be loaded. The disk is only read. */
    method Reconcile() returns (r: Outcome<Option<ArtifactRef>>)
      requires Valid()
      modifies this
      ensures Valid() && closed == old(closed)
      ensures store.closed ==> r == Raised(StoreClosed) && artifactRef == old(artifactRef)
      ensures !store.closed ==> (r.Done? ==> r.value == artifactRef)
      ensures !store.closed && old(artifactRef.Some?) ==> r == Done(old(artifactRef)) && artifactRef == old(artifactRef)
      ensures !store.closed && old(artifactRef) == None ==>
        match LoadCurrent(store.host.w.disk, g.cell)
        case NoCurrent => r == Done(None)
        case CurrentRef(ref) => r == Done(if ref.g == g then Some(ref) else None)
        case Unloadable(kind) => r == Raised(Corrupt(kind)) && artifactRef == None
      ensures r.Done? && r.value.Some? && old(artifactRef) == None ==> Published(store.host.w.disk, r.value.value)
    {
      hide Sealed, LoadRef, PointersOk, OwnedOk, StoresOk, AttemptsOk;
      if store.closed { return Raised(StoreClosed); }
      if artifactRef.Some? { return Done(artifactRef); }
      CurrentExactly(store.host.w, g.cell);
      match LoadCurrent(store.host.w.disk, g.cell) {
        case Unloadable(kind) => return Raised(Corrupt(kind));
        case NoCurrent => return Done(None);
        case CurrentRef(ref) =>
          if ref.g.attempt == g.attempt { artifactRef := Some(ref); }
          return Done(artifactRef);
      }
    }

    /** The cell pointer as it was, and no reference recovered; or this attempt's complete generation named
        by the cell pointer, and recovered whenever it can be loaded. */
    ghost predicate Interrupted(d: Disk, e: Disk)
      reads this
    {
      || (SamePointers(d, e) && artifactRef == None)
      || (PointerDoc(e, g.cell).Some? && PointerDoc(e, g.cell).value.RefDoc?
          && var ref := PointerDoc(e, g.cell).value.ref;
          && Published(e, ref)
          && (forall c :: c != g.cell ==> PointerDoc(e, c) == PointerDoc(d, c))
          && artifactRef == if Readable(ref.manifest.doc.manifest) then Some(ref) else None)
    }

    /** Validates the attempt, publishes its immutable manifest and then the cell's pointer. Unless an
        operation is made to fail this succeeds. A failure closes the attempt and asks the disk which side
        of the replace it fell on. */
    method Commit() returns (r: Outcome<ArtifactRef>)
      requires Valid()
      modifies this, store.host
      ensures Valid()
      ensures store.host.w.stores == old(store.host.w.stores) && store.host.w.holder == old(store.host.w.holder)
      ensures SealedKept(old(store.host.w.disk), store.host.w.disk)
      ensures FilesKept(old(store.host.w.disk), store.host.w.disk, None)
      ensures old(closed) ==>
        r == Raised(AttemptClosed) && store.host.w == old(store.host.w) && artifactRef == old(artifactRef)
      ensures !old(closed) && store.closed ==> r == Raised(StoreClosed) && store.host.w == old(store.host.w) && !closed
      ensures !old(closed) && !store.closed ==> closed
      ensures r.Done? ==> !old(closed) && !store.closed
      ensures r.Done? ==>
        && artifactRef == Some(r.value) && Published(store.host.w.disk, r.value)
        && Lists(old(store.host.w.disk), g, r.value.manifest.doc.manifest)
        && (forall c :: c != g.cell ==> PointerDoc(store.host.w.disk, c) == PointerDoc(old(store.host.w.disk), c))
        && (forall v :: Could(store.host.w.disk, Pointer(g.cell), v) ==> v == store.host.w.disk.At(Pointer(g.cell)))
      ensures r.Raised? && !old(closed) && !store.closed && old(artifactRef) == None ==>
        Interrupted(old(store.host.w.disk), store.host.w.disk)
      ensures store.host.faults == old(store.host.faults) + if r == Raised(Io) then 1 else 0
      ensures !old(closed) && !store.closed ==> r.Done? || r == Raised(Io)
    {
      hide Inv, Run, Sealed, Settled, PointerDoc, LoadRef, Next, Held, Contents;
      if closed { return Raised(AttemptClosed); }
      if store.closed { return Raised(StoreClosed); }
      ghost var before := store.host.w;
      var m := TryCommit(store, g);
      if m.Some? {
        artifactRef, closed := Some(RefOf(m.value)), true;
        return Done(RefOf(m.value));
      }
      closed := true;
      RecoveredAs(before, store.host.w, g);
      var _ := Reconcile();
      return Raised(Io);
    }
  }

  // ----- stage -----

  /** Only the disk changed, and on it no pointer, no complete generation and no staged file. */
  ghost predicate OnlyDirectories(w: World, w': World) {
    && w' == w.(disk := w'.disk)
    && SealedKept(w.disk, w'.disk) && SamePointers(w.disk, w'.disk) && FilesKept(w.disk, w'.disk, None)
  }

  /** A parent of `rel` is a file. */
  predicate ParentIsFile(d: Disk, g: Gen, rel: Rel) {
    exists j | 1 <= j < |rel| :: Tree(g, rel[..j]) in d.now && d.now[Tree(g, rel[..j])] != Directory
  }

  /** Nothing can be staged at `rel`. */
  predicate Blocked(d: Disk, g: Gen, rel: Rel) { ParentIsFile(d, g, rel) || d.IsDirectory(Tree(g, rel)) }

  /** At most parents of `rel` have been made. */
  ghost predicate ParentsMade(d: Disk, e: Disk, g: Gen, rel: Rel) {
    forall p :: e.At(p) == d.At(p)
      || (p !in d.now && e.At(p) == Some(Directory) && exists j | 1 <= j < |rel| :: p == Tree(g, rel[..j]))
  }

  /** Makes the parents of `rel` that are missing; refuses a component that is a file. */
  method MakeParents(store: ArtifactStore, g: Gen, rel: Rel) returns (ok: bool)
    requires store.Valid() && Usable(store.host.w, g) && SafeRel(rel)
    modifies store.host
    ensures store.Valid() && OnlyDirectories(old(store.host.w), store.host.w)
    ensures ok ==> AlongDirectories(store.host.w.disk, g, rel)
    ensures ParentsMade(old(store.host.w.disk), store.host.w.disk, g, rel)
    ensures ok ==> store.host.faults == old(store.host.faults)
    ensures store.host.faults == old(store.host.faults) ==> (ok <==> !ParentIsFile(old(store.host.w.disk), g, rel))
  {
    hide Inv, Run, Sealed, Settled, PointerDoc, Held, Contents, Next;
    var host := store.host;
    AttemptRoot(host.w, g);
    var j := 1;
    while j < |rel|
      invariant 1 <= j <= |rel|
      invariant store.Valid() && OnlyDirectories(old(host.w), host.w) && Usable(host.w, g)
      invariant forall k | 0 <= k < j :: host.w.disk.IsDirectory(Tree(g, rel[..k]))
      invariant ParentsMade(old(host.w.disk), host.w.disk, g, rel) && host.faults == old(host.faults)
    {
      var dir := Tree(g, rel[..j]);
      if dir !in host.w.disk.now {
        var raised := host.Invoke("mkdir");
        if raised { return false; }
        SubdirectoryNext(host.w, g, rel, j);
        ghost var d := host.w.disk;
        host.Do(MakeSubdirectory(g, rel[..j]));
        assert forall k | 0 <= k < j :: rel[..k] != rel[..j] && d.IsDirectory(Tree(g, rel[..k]));
        OneMoreParent(old(host.w.disk), d, g, rel, j);
      } else if host.w.disk.now[dir] != Directory {
        FileInTheWay(old(host.w.disk), host.w.disk, g, rel, j);
        return false;
      }
      j := j + 1;
    }
    NoFileInTheWay(old(host.w.disk), host.w.disk, g, rel);
    return true;
  }

  lemma OneMoreParent(d: Disk, e: Disk, g: Gen, rel: Rel, j: nat)
    requires ParentsMade(d, e, g, rel) && 1 <= j < |rel| && Tree(g, rel[..j]) !in e.now
    ensures ParentsMade(d, e.Put(Tree(g, rel[..j]), Some(Directory)), g, rel)
  {
    assert e.At(Tree(g, rel[..j])) == None;
  }

  lemma FileInTheWay(d: Disk, e: Disk, g: Gen, rel: Rel, j: nat)
    requires ParentsMade(d, e, g, rel) && 1 <= j < |rel|
    requires Tree(g, rel[..j]) in e.now && e.now[Tree(g, rel[..j])] != Directory
    ensures ParentIsFile(d, g, rel)
  {
    assert e.At(Tree(g, rel[..j])) == d.At(Tree(g, rel[..j]));
  }

  lemma NoFileInTheWay(d: Disk, e: Disk, g: Gen, rel: Rel)
    requires ParentsMade(d, e, g, rel) && AlongDirectories(e, g, rel)
    ensures !ParentIsFile(d, g, rel)
  {
    forall j | 1 <= j < |rel|
      ensures Tree(g, rel[..j]) in d.now ==> d.now[Tree(g, rel[..j])] == Directory
    {
      assert e.IsDirectory(Tree(g, rel[..j]));
      assert e.At(Tree(g, rel[..j])) == d.At(Tree(g, rel[..j])) || Tree(g, rel[..j]) !in d.now;
    }
  }

  lemma TargetUntouched(d: Disk, e: Disk, g: Gen, rel: Rel)
    requires ParentsMade(d, e, g, rel)
    ensures e.IsDirectory(Tree(g, rel)) == d.IsDirectory(Tree(g, rel))
  {
    assert forall j | 1 <= j < |rel| :: |rel[..j]| < |rel|;
    assert e.At(Tree(g, rel)) == d.At(Tree(g, rel));
  }

  lemma AttemptRoot(w: World, g: Gen)
    requires Inv(w) && Usable(w, g) && w.activity == Resting
    ensures w.disk.IsDirectory(Tree(g, []))
  {
    hide DiskOk, StoresOk;
    IdleFacts(w, g);
  }

  lemma SubdirectoryNext(w: World, g: Gen, rel: Rel, j: nat)
    requires Usable(w, g) && w.activity == Resting && SafeRel(rel) && 1 <= j < |rel|
    requires Tree(g, rel[..j]) !in w.disk.now && w.disk.IsDirectory(Tree(g, rel[..j - 1]))
    ensures Enabled(w, MakeSubdirectory(g, rel[..j]))
    ensures Next(w, MakeSubdirectory(g, rel[..j])) == w.(disk := w.disk.Put(Tree(g, rel[..j]), Some(Directory)))
  {
    assert rel[..j][..j - 1] == rel[..j - 1];
    assert forall n <- rel[..j] :: n in rel;
  }

  /** Publishes one staged file and fsyncs upward to the attempt root. */
  method PublishStaged(store: ArtifactStore, g: Gen, rel: Rel, payload: Doc, fromFile: bool) returns (raised: bool)
    requires store.Valid() && Usable(store.host.w, g) && SafeRel(rel) && payload.Bytes?
    requires AlongDirectories(store.host.w.disk, g, rel) && !store.host.w.disk.IsDirectory(Tree(g, rel))
    modifies store.host
    ensures store.Valid() && Kept(old(store.host.w), store.host.w, Some((g, rel)))
    ensures SamePointers(old(store.host.w.disk), store.host.w.disk)
    ensures store.host.w.attempts == if raised then Closing(old(store.host.w), g).attempts
      else old(store.host.w.attempts)
    ensures !raised ==> Contents(store.host.w.disk, g, rel) == Some(payload)
    ensures store.host.faults == old(store.host.faults) + if raised then 1 else 0
  {
    hide Inv, Run, Sealed, Settled, PointerDoc, Held, Contents, Next;
    var host := store.host;
    raised := AtomicFile(host, g, StageJob(rel, payload), fromFile);
    if raised { return; }
    ghost var published := host.w;
    raised := Climb(host, g, rel, payload);
    KeptTransitive(old(host.w), published, host.w, Some((g, rel)), None, Some((g, rel)));
  }

  lemma ClimbNext(w: World)
    requires w.activity.Ascending?
    ensures var w', a := Next(w, SyncUp), w.activity;
      w'.stores == w.stores && w'.holder == w.holder && w'.attempts == w.attempts
      && w'.activity == if a.depth == 0 then Resting else a.(depth := a.depth - 1)
  {
  }

  /** The directory fsyncs from the file's parent up to the attempt root. */
  method Climb(host: RunHost, g: Gen, rel: Rel, payload: Doc) returns (raised: bool)
    requires host.Valid() && Inv(host.w) && rel != [] && host.w.activity == Ascending(g, rel, |rel| - 1)
    requires Held(host.w.disk, g, rel) && Contents(host.w.disk, g, rel) == Some(payload)
    modifies host
    ensures host.Valid() && Inv(host.w) && host.w.activity == Resting && Kept(old(host.w), host.w, None)
    ensures SamePointers(old(host.w.disk), host.w.disk)
    ensures host.w.attempts == if raised then Closing(old(host.w), g).attempts else old(host.w.attempts)
    ensures Contents(host.w.disk, g, rel) == Some(payload)
    ensures host.faults == old(host.faults) + if raised then 1 else 0
  {
    hide Inv, Run, Sealed, PointerDoc, Held, Contents, Next;
    raised := false;
    var depth := |rel|;
    while depth > 0
      invariant 0 <= depth <= |rel|
      invariant host.Valid() && Inv(host.w) && Kept(old(host.w), host.w, None)
      invariant SamePointers(old(host.w.disk), host.w.disk) && host.w.attempts == old(host.w.attempts)
      invariant host.faults == old(host.faults)
      invariant host.w.activity == if depth == 0 then Resting else Ascending(g, rel, depth - 1)
      invariant Held(host.w.disk, g, rel) && Contents(host.w.disk, g, rel) == Some(payload)
    {
      raised := host.Invoke("fsync");
      if raised {
        FaultAbandons(host.w);
        host.Do(Fault(false));
        return;
      }
      ClimbNext(host.w);
      host.Do(SyncUp);
      depth := depth - 1;
    }
  }

  // ----- commit -----

  /** What reconciling finds after an interrupted commit. */
  lemma RecoveredAs(before: World, w: World, g: Gen)
    requires Inv(before) && Inv(w) && Usable(before, g) && before.activity == Resting
    ensures SamePointers(before.disk, w.disk) ==>
      LoadCurrent(w.disk, g.cell).CurrentRef? ==> LoadCurrent(w.disk, g.cell).ref.g != g
    ensures forall m: CommittedManifest | m.g == g && Repointed(before.disk, w.disk, m) ::
      LoadCurrent(w.disk, g.cell) == if Readable(m) then CurrentRef(RefOf(m)) else Unloadable(LoadError.ArtifactOrder)
  {
    hide DiskOk, StoresOk, AttemptsOk, BusyOk, Sealed, LoadRef;
    NeverNamed(before, g);
    CurrentExactly(w, g.cell);
  }

  lemma SoundFact(w: World)
    requires Inv(w)
    ensures Sound(w.disk)
  {
  }

  lemma CloseNext(w: World, g: Gen)
    requires g in w.attempts && w.activity == Resting
    ensures Next(w, CloseAttempt(g)) == Closing(w, g)
  {
  }

  /** An open attempt is not what any pointer names. */
  lemma NeverNamed(w: World, g: Gen)
    requires Inv(w) && Usable(w, g) && w.activity == Resting
    ensures PointerDoc(w.disk, g.cell).Some? && PointerDoc(w.disk, g.cell).value.RefDoc? ==>
      PointerDoc(w.disk, g.cell).value.ref.g != g
  {
    hide OwnedOk, StoresOk;
    CurrentExactly(w, g.cell);
    IdleFacts(w, g);
    var m := Manifest(g);
    assert m in w.disk.now ==> Could(w.disk, m, Some(w.disk.now[m]));
  }

  lemma ValidateNext(w: World, g: Gen, m: CommittedManifest)
    ensures Next(w, Validate(g, m)) == w.(activity := Validated(g, m))
  {
  }

  lemma SealedByCommit(w: World, g: Gen, m: CommittedManifest)
    requires Inv(w) && w.activity == Activity.Published(g, m)
    ensures Sealed(w.disk, RefOf(m)) && m.g == g && Usable(w, g)
  {
  }

  /** The manifest, then the cell pointer. */
  method PublishBoth(store: ArtifactStore, g: Gen, m: CommittedManifest) returns (raised: bool)
    requires store.Valid() && Usable(store.host.w, g) && Lists(store.host.w.disk, g, m)
    modifies store.host
    ensures store.Valid() && Kept(old(store.host.w), store.host.w, None)
    ensures store.host.w.attempts == Closing(old(store.host.w), g).attempts
    ensures (raised && SamePointers(old(store.host.w.disk), store.host.w.disk))
      || (Repointed(old(store.host.w.disk), store.host.w.disk, m) && Sealed(store.host.w.disk, RefOf(m)))
    ensures !raised ==>
      Repointed(old(store.host.w.disk), store.host.w.disk, m) && Delivered(store.host.w.disk, g, PointerJob(m))
    ensures store.host.faults == old(store.host.faults) + if raised then 1 else 0
  {
    hide Inv, Run, Sealed, Settled, PointerDoc, Next, Held, Contents;
    var host := store.host;
    ValidateNext(host.w, g, m);
    host.Do(Validate(g, m));
    raised := AtomicFile(host, g, ManifestJob(m), false);
    if raised { return; }
    SealedByCommit(host.w, g, m);
    raised := AtomicFile(host, g, PointerJob(m), false);
  }

  lemma StagedNamesAreSafe(host: RunHost, g: Gen)
    requires host.Valid()
    ensures forall rel :: IsFile(host.w.disk, g, rel) ==> SafeRel(rel)
  {
    host.Facts();
    forall rel | IsFile(host.w.disk, g, rel)
      ensures SafeRel(rel)
    {
      assert Could(host.w.disk, Tree(g, rel), Some(host.w.disk.now[Tree(g, rel)]));
    }
  }

  /** All of `commit` that can raise: the manifest committed, or nothing after a failure. Either way
      the attempt is closed. */
  method TryCommit(store: ArtifactStore, g: Gen) returns (m: Option<CommittedManifest>)
    requires store.Valid() && Usable(store.host.w, g)
    modifies store.host
    ensures store.Valid() && Kept(old(store.host.w), store.host.w, None)
    ensures store.host.w.attempts == Closing(old(store.host.w), g).attempts
    ensures m == None ==>
      (SamePointers(old(store.host.w.disk), store.host.w.disk)
       || exists n: CommittedManifest ::
            n.g == g && Repointed(old(store.host.w.disk), store.host.w.disk, n) && Sealed(store.host.w.disk, RefOf(n)))
    ensures m.Some? ==>
      && Lists(old(store.host.w.disk), g, m.value)
      && Repointed(old(store.host.w.disk), store.host.w.disk, m.value) && Sealed(store.host.w.disk, RefOf(m.value))
      && Delivered(store.host.w.disk, g, PointerJob(m.value))
    ensures store.host.faults == old(store.host.faults) + if m == None then 1 else 0
  {
    hide Inv, Run, Sealed, Settled, PointerDoc, Next, Held, Contents;
    var raised := store.host.Invoke("read");
    m := None;
    if !raised {
      SoundFact(store.host.w);
      m := ListAttempt(store.host.w.disk, g);
      StagedNamesAreSafe(store.host, g);
    }
    if m == None {
      CloseNext(store.host.w, g);
      store.host.Do(CloseAttempt(g));
    } else {
      raised := PublishBoth(store, g, m.value);
      if raised { m := None; }
    }
  }
}
