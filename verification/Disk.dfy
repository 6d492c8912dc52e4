/** The file system under one run root, with what a host crash may undo.

    A directory entry changed since its directory was last fsynced is in limbo: a crash keeps the
    present value or brings back any value it had since. File contents survive once the file itself
    was fsynced; before that they may come back as anything. */
module Disk {
  import opened Options
  import opened PathOrder

  // ----- Names -----

  type CellId = string
  type Uuid = string

  /** One generation of one cell: the attempt that produced it. */
  datatype Gen = Gen(cell: CellId, attempt: Uuid)

  datatype Path =
    | Namespace
    | RunRoot
    | Identity
    | CellsDir
    | CellDir(cell: CellId)
    | Pointer(cell: CellId)
    | AttemptsDir(cell: CellId)
    | ManifestsDir(cell: CellId)
    | Manifest(g: Gen)
    | Tree(g: Gen, rel: Rel)
    | Temp(dir: Path, serial: nat)

  function Parent(p: Path): Path {
    match p
    case Namespace => Namespace
    case RunRoot => Namespace
    case Identity => RunRoot
    case CellsDir => RunRoot
    case CellDir(_) => CellsDir
    case Pointer(c) => CellDir(c)
    case AttemptsDir(c) => CellDir(c)
    case ManifestsDir(c) => CellDir(c)
    case Manifest(g) => ManifestsDir(g.cell)
    case Tree(g, rel) => if rel == [] then AttemptsDir(g.cell) else Tree(g, rel[..|rel| - 1])
    case Temp(dir, _) => dir
  }

  // ----- Contents -----

  type Inode = nat
  datatype Node = Directory | File(inode: Inode)

  datatype Doc =
    | Bytes(payload: seq<bv8>)
    | ManifestDoc(manifest: CommittedManifest)
    | RefDoc(ref: ArtifactRef)
    | IdentityDoc
    | Torn(garbage: nat)

  /** SHA-256, taken as injective: a digest is its preimage. */
  datatype Digest = Sha256(doc: Doc)

  datatype FileRecord = FileRecord(rel: Rel, size: nat, digest: Digest)
  datatype CommittedManifest = CommittedManifest(g: Gen, files: seq<FileRecord>)
  datatype ArtifactRef = ArtifactRef(g: Gen, manifest: Digest)

  function Size(d: Doc): nat {
    if d.Bytes? then |d.payload| else 0
  }

  function RefOf(m: CommittedManifest): ArtifactRef {
    ArtifactRef(m.g, Sha256(ManifestDoc(m)))
  }

  // ----- The disk -----

  datatype Disk = Disk(
    now: map<Path, Node>,
    limbo: set<(Path, Option<Node>)>,
    data: map<Inode, Doc>,
    synced: set<Inode>)
  {
    function At(p: Path): Option<Node> {
      if p in now then Some(now[p]) else None
    }

    predicate IsDirectory(p: Path) { p in now && now[p] == Directory }

    // Changes one entry; the value it had goes to limbo.
    function Put(p: Path, v: Option<Node>): Disk {
      this.(now := if v.Some? then now[p := v.value] else now - {p}, limbo := limbo + {(p, At(p))})
    }

    function Write(i: Inode, doc: Doc): Disk { this.(data := data[i := doc]) }

    function SyncFile(i: Inode): Disk { this.(synced := synced + {i}) }

    function SyncDir(dir: Path): Disk { this.(limbo := set e | e in limbo && Parent(e.0) != dir) }
  }

  /** The value `v` of entry `p` may be the one found after a crash. */
  predicate Could(d: Disk, p: Path, v: Option<Node>) {
    d.At(p) == v || (p, v) in d.limbo
  }

  /** Entry `p` reads `n` now and after any crash that keeps its directory. */
  ghost predicate Firm(d: Disk, p: Path, n: Node) {
    d.At(p) == Some(n) && forall v :: (p, v) in d.limbo ==> v == Some(n)
  }

  /** A disk as a host crash may leave it: every entry takes one of its possible values on its own,
      nothing survives below a lost directory, and contents survive where they were fsynced. */
  ghost predicate CrashImage(d: Disk, e: Disk) {
    && e.limbo == {} && e.IsDirectory(Namespace)
    && (forall p, n :: e.At(p) == Some(n) ==> Could(d, p, Some(n)) && (p == Namespace || e.IsDirectory(Parent(p))))
    && (forall p :: e.At(p) == None ==> Could(d, p, None) || !e.IsDirectory(Parent(p)))
    && e.data.Keys == d.data.Keys == e.synced
    && (forall i <- d.synced :: i in e.data && i in d.data && e.data[i] == d.data[i])
  }

  ghost predicate Sound(d: Disk) {
    && Firm(d, Namespace, Directory)
    && d.synced <= d.data.Keys
    && forall p, i :: Could(d, p, Some(File(i))) ==> i in d.data
  }

  // ----- Frames -----

  /** Outside `touched` no entry changed or became less certain, and no fsynced content changed. */
  ghost predicate Within(d: Disk, e: Disk, touched: set<Path>) {
    && (forall p :: p !in touched ==> e.At(p) == d.At(p))
    && (forall p, v :: p !in touched && (p, v) in e.limbo ==> (p, v) in d.limbo)
    && d.data.Keys <= e.data.Keys
    && d.synced <= e.synced
    && forall i <- d.synced :: i in d.data && i in e.data && e.data[i] == d.data[i]
  }

  lemma PutWithin(d: Disk, p: Path, v: Option<Node>)
    requires Sound(d) && p != Namespace && (v.Some? && v.value.File? ==> v.value.inode in d.data)
    ensures Within(d, d.Put(p, v), {p}) && Sound(d.Put(p, v))
    ensures d.Put(p, v).At(p) == v
    ensures forall q, u :: Could(d.Put(p, v), q, u) ==> (q == p && u == v) || Could(d, q, u)
  {
    var e := d.Put(p, v);
    forall q, u | Could(e, q, u) ensures (q == p && u == v) || Could(d, q, u) {}
    forall q, i | Could(e, q, Some(File(i))) ensures i in e.data {
      assert (q == p && Some(File(i)) == v) || Could(d, q, Some(File(i)));
    }
  }

  lemma WriteWithin(d: Disk, i: Inode, doc: Doc)
    requires Sound(d) && i !in d.synced
    ensures Within(d, d.Write(i, doc), {}) && Sound(d.Write(i, doc))
    ensures forall q, u :: Could(d.Write(i, doc), q, u) == Could(d, q, u)
  {
    forall q, j | Could(d.Write(i, doc), q, Some(File(j))) ensures j in d.data { assert Could(d, q, Some(File(j))); }
  }

  lemma SyncFileWithin(d: Disk, i: Inode)
    requires Sound(d) && i in d.data
    ensures Within(d, d.SyncFile(i), {}) && Sound(d.SyncFile(i))
    ensures forall q, u :: Could(d.SyncFile(i), q, u) == Could(d, q, u)
  {
    forall q, j | Could(d.SyncFile(i), q, Some(File(j))) ensures j in d.data { assert Could(d, q, Some(File(j))); }
  }

  lemma SyncDirWithin(d: Disk, dir: Path)
    requires Sound(d)
    ensures Within(d, d.SyncDir(dir), {}) && Sound(d.SyncDir(dir))
    ensures forall p | Parent(p) == dir && p in d.now :: Firm(d.SyncDir(dir), p, d.now[p])
    ensures forall p, v :: Parent(p) == dir && Could(d.SyncDir(dir), p, v) ==> v == d.At(p)
    ensures forall q, u :: Could(d.SyncDir(dir), q, u) ==> Could(d, q, u)
  {
    forall q, j | Could(d.SyncDir(dir), q, Some(File(j))) ensures j in d.data { assert Could(d, q, Some(File(j))); }
  }

  lemma FirmWithin(d: Disk, e: Disk, touched: set<Path>, p: Path, n: Node)
    requires Within(d, e, touched) && p !in touched && Firm(d, p, n)
    ensures Firm(e, p, n)
  {
  }

  lemma FirmSurvives(d: Disk, e: Disk, p: Path, n: Node)
    requires CrashImage(d, e) && Firm(d, p, n) && e.IsDirectory(Parent(p))
    ensures Firm(e, p, n)
  {
    if e.At(p) == None { assert Could(d, p, None); }
  }

  function Depth(p: Path): nat
    decreases p
  {
    match p
    case Namespace => 0
    case RunRoot => 1
    case Identity => 2
    case CellsDir => 2
    case CellDir(_) => 3
    case Pointer(_) => 4
    case AttemptsDir(_) => 4
    case ManifestsDir(_) => 4
    case Manifest(_) => 5
    case Tree(_, rel) => 5 + |rel|
    case Temp(dir, _) => 1 + Depth(dir)
  }

  /** Whatever survives below the run root survives with the run root. */
  lemma {:induction false} SurvivorHasRoot(d: Disk, e: Disk, p: Path)
    requires CrashImage(d, e) && p in e.now && p != Namespace && p != RunRoot
    requires p.Temp? ==> p.dir.Tree?
    ensures e.IsDirectory(RunRoot)
    decreases Depth(p)
  {
    assert e.At(p) == Some(e.now[p]);
    if Parent(p) != RunRoot { SurvivorHasRoot(d, e, Parent(p)); }
  }
}
