/** Committed generations on the disk: what makes one complete, and loading it back. */
module Generations {
  import opened Options
  import opened PathOrder
  import opened ArtifactWalk
  import opened Disk

  // ----- One attempt directory -----

  /** The directories above an attempt hold after any crash that keeps the run root. */
  ghost predicate Anchored(d: Disk, g: Gen) {
    && d.IsDirectory(RunRoot)
    && Firm(d, CellsDir, Directory)
    && Firm(d, CellDir(g.cell), Directory)
    && Firm(d, AttemptsDir(g.cell), Directory)
    && Firm(d, ManifestsDir(g.cell), Directory)
    && Firm(d, Tree(g, []), Directory)
  }

  /** The file at `rel` and every directory on the way to it are durable. */
  ghost predicate FileSettled(d: Disk, g: Gen, rel: Rel) {
    && d.At(Tree(g, rel)).Some? && d.now[Tree(g, rel)].File?
    && Firm(d, Tree(g, rel), d.now[Tree(g, rel)])
    && d.now[Tree(g, rel)].inode in d.synced
    && forall j | 0 <= j < |rel| :: Firm(d, Tree(g, rel[..j]), Directory)
  }

  /** No file below the attempt is uncertain, apart from the one at `open`. */
  ghost predicate SettledBut(d: Disk, g: Gen, open: Rel) {
    forall rel, i :: rel != open && Could(d, Tree(g, rel), Some(File(i))) ==> FileSettled(d, g, rel)
  }

  ghost predicate NoTemps(d: Disk, g: Gen) {
    forall rel, n, v :: !Could(d, Temp(Tree(g, rel), n), Some(v))
  }

  ghost predicate Settled(d: Disk, g: Gen) {
    Anchored(d, g) && NoTemps(d, g) && SettledBut(d, g, [])
  }

  ghost predicate NoManifest(d: Disk, g: Gen) {
    forall v :: !Could(d, Manifest(g), Some(v))
  }

  // ----- Listings -----

  predicate IsFile(d: Disk, g: Gen, rel: Rel) {
    Tree(g, rel) in d.now && d.now[Tree(g, rel)].File?
  }

  predicate Names(m: CommittedManifest, rel: Rel) {
    exists k | 0 <= k < |m.files| :: m.files[k].rel == rel
  }

  function Contents(d: Disk, g: Gen, rel: Rel): Option<Doc> {
    if IsFile(d, g, rel) && d.now[Tree(g, rel)].inode in d.data
    then Some(d.data[d.now[Tree(g, rel)].inode]) else None
  }

  predicate RecordMatches(d: Disk, g: Gen, f: FileRecord) {
    var doc := Contents(d, g, f.rel);
    doc.Some? && f.digest == Sha256(doc.value) && f.size == Size(doc.value)
  }

  function Rels(m: CommittedManifest): (r: seq<Rel>)
    ensures |r| == |m.files| && forall k | 0 <= k < |r| :: r[k] == m.files[k].rel
  {
    seq(|m.files|, k requires 0 <= k < |m.files| => m.files[k].rel)
  }

  /** What `validate` returns for the attempt: every file, walked in order, with size and hash. */
  ghost predicate Lists(d: Disk, g: Gen, m: CommittedManifest) {
    && m.g == g
    && RelsAscend(Rels(m))
    && (forall k | 0 <= k < |m.files| :: SafeRel(m.files[k].rel) && RecordMatches(d, g, m.files[k]))
    && forall rel :: IsFile(d, g, rel) ==> Names(m, rel)
  }

  /** The entries as the manifest document spells them. */
  function Written(m: CommittedManifest): (r: seq<Entry<Digest>>)
    ensures |r| == |m.files|
    ensures forall k | 0 <= k < |r| ::
      r[k] == Entry(Join(m.files[k].rel), m.files[k].size, m.files[k].digest, FILE_MODE)
  {
    seq(|m.files|, k requires 0 <= k < |m.files| =>
      Entry(Join(m.files[k].rel), m.files[k].size, m.files[k].digest, FILE_MODE))
  }

  /** The parser accepts the document. */
  predicate Readable(m: CommittedManifest) {
    PathsAscend(Written(m)) && forall e <- Written(m) :: EntrySound(e)
  }

  // ----- Complete generations -----

  /** Everything the reference names is on disk, durable, and is all there is. */
  ghost predicate Sealed(d: Disk, ref: ArtifactRef) {
    && ref.manifest.doc.ManifestDoc?
    && var m := ref.manifest.doc.manifest;
    && ref == RefOf(m)
    && d.At(Manifest(ref.g)).Some? && d.now[Manifest(ref.g)].File?
    && Firm(d, Manifest(ref.g), d.now[Manifest(ref.g)])
    && d.now[Manifest(ref.g)].inode in d.synced
    && d.now[Manifest(ref.g)].inode in d.data
    && d.data[d.now[Manifest(ref.g)].inode] == ManifestDoc(m)
    && Settled(d, ref.g)
    && Lists(d, ref.g, m)
  }

  datatype LoadError = Missing | CellMismatch | ArtifactOrder | HashMismatch | ArtifactSet | ArtifactHash
  datatype Loaded = Found(manifest: CommittedManifest) | Failed(kind: LoadError)

  predicate HoldsExtra(d: Disk, m: CommittedManifest) {
    || (exists p <- d.now.Keys :: p.Tree? && p.g == m.g && d.now[p].File? && !Names(m, p.rel))
    || (exists p <- d.now.Keys :: p.Temp? && p.dir.Tree? && p.dir.g == m.g)
  }

  /** `load_ref`: the manifest the reference names, checked against the files it names. */
  function LoadRef(d: Disk, ref: ArtifactRef): Loaded {
    var dirs := [CellDir(ref.g.cell), AttemptsDir(ref.g.cell), ManifestsDir(ref.g.cell)];
    if (exists p <- dirs :: !d.IsDirectory(p)) || d.At(Manifest(ref.g)) == None then Failed(Missing)
    else if d.now[Manifest(ref.g)] == Directory || d.now[Manifest(ref.g)].inode !in d.data then Failed(Missing)
    else
      var doc := d.data[d.now[Manifest(ref.g)].inode];
      if !doc.ManifestDoc? then Failed(Missing)
      else
        var m := doc.manifest;
        if m.g.cell != ref.g.cell then Failed(CellMismatch)
        else if !Readable(m) then Failed(LoadError.ArtifactOrder)
        else if m.g != ref.g || Sha256(ManifestDoc(m)) != ref.manifest then Failed(HashMismatch)
        else if !d.IsDirectory(Tree(m.g, [])) then Failed(Missing)
        else if HoldsExtra(d, m) || (exists f <- m.files :: !IsFile(d, m.g, f.rel)) then Failed(ArtifactSet)
        else if exists f <- m.files :: !RecordMatches(d, m.g, f) then Failed(LoadError.ArtifactHash)
        else Found(m)
  }

  /** A complete generation loads as exactly the manifest it was sealed with, when and only when the
      parser accepts what the walk wrote. */
  lemma SealedLoads(d: Disk, ref: ArtifactRef)
    requires Sealed(d, ref)
    ensures var m := ref.manifest.doc.manifest;
      LoadRef(d, ref) == if Readable(m) then Found(m) else Failed(LoadError.ArtifactOrder)
  {
    var m := ref.manifest.doc.manifest;
    assert !HoldsExtra(d, m) by {
      if p :| p in d.now.Keys && p.Tree? && p.g == m.g && d.now[p].File? && !Names(m, p.rel) {
        assert IsFile(d, m.g, p.rel);
      }
      if p :| p in d.now.Keys && p.Temp? && p.dir.Tree? && p.dir.g == m.g {
        assert Could(d, Temp(Tree(m.g, p.dir.rel), p.serial), Some(d.now[p]));
      }
    }
  }

  /** Read one artifact of a generation. */
  function ReadArtifact(d: Disk, ref: ArtifactRef, rel: Rel): Option<Doc> {
    if LoadRef(d, ref).Found? && Names(LoadRef(d, ref).manifest, rel) then Contents(d, ref.g, rel) else None
  }

  /** A complete generation reads back exactly the bytes whose hash was committed. */
  lemma SealedReads(d: Disk, ref: ArtifactRef, k: nat)
    requires Sealed(d, ref) && Readable(ref.manifest.doc.manifest)
    requires k < |ref.manifest.doc.manifest.files|
    ensures var f := ref.manifest.doc.manifest.files[k];
      ReadArtifact(d, ref, f.rel) == Some(f.digest.doc)
  {
    SealedLoads(d, ref);
    assert RecordMatches(d, ref.g, ref.manifest.doc.manifest.files[k]);
  }

  // ----- What keeps a generation complete -----

  /** The entries a generation rests on. */
  predicate Foot(g: Gen, p: Path) {
    || p in {RunRoot, CellsDir, CellDir(g.cell), AttemptsDir(g.cell), ManifestsDir(g.cell)}
    || Belongs(g, p)
  }

  /** The entries only this attempt ever writes. */
  predicate Belongs(g: Gen, p: Path) {
    || p == Manifest(g)
    || (p.Tree? && p.g == g)
    || (p.Temp? && p.dir.Tree? && p.dir.g == g)
  }

  ghost predicate Apart(g: Gen, touched: set<Path>) {
    forall p <- touched :: !Foot(g, p)
  }

  /** As `Apart`, but the manifest of the attempt may be written. */
  ghost predicate ApartFiles(g: Gen, touched: set<Path>) {
    forall p <- touched :: !Foot(g, p) || p == Manifest(g)
  }

  lemma AnchoredWithin(d: Disk, e: Disk, touched: set<Path>, g: Gen)
    requires Anchored(d, g) && Within(d, e, touched) && ApartFiles(g, touched)
    ensures Anchored(e, g)
  {
    assert Foot(g, RunRoot) && Foot(g, CellsDir) && Foot(g, CellDir(g.cell));
    assert Foot(g, AttemptsDir(g.cell)) && Foot(g, ManifestsDir(g.cell)) && Foot(g, Tree(g, []));
  }

  lemma FileSettledWithin(d: Disk, e: Disk, touched: set<Path>, g: Gen, rel: Rel)
    requires FileSettled(d, g, rel) && Within(d, e, touched)
    requires forall j | 0 <= j <= |rel| :: Tree(g, rel[..j]) !in touched
    ensures FileSettled(e, g, rel)
    ensures d.synced <= d.data.Keys ==> Contents(e, g, rel) == Contents(d, g, rel)
  {
    assert rel[..|rel|] == rel;
  }

  lemma SettledWithin(d: Disk, e: Disk, touched: set<Path>, g: Gen)
    requires Settled(d, g) && Within(d, e, touched) && ApartFiles(g, touched)
    ensures Settled(e, g)
  {
    AnchoredWithin(d, e, touched, g);
    forall rel, i | Could(e, Tree(g, rel), Some(File(i))) ensures FileSettled(e, g, rel) {
      assert Foot(g, Tree(g, rel));
      assert Could(d, Tree(g, rel), Some(File(i)));
      forall j | 0 <= j <= |rel| ensures Tree(g, rel[..j]) !in touched { assert Foot(g, Tree(g, rel[..j])); }
      FileSettledWithin(d, e, touched, g, rel);
    }
    forall rel, n, v ensures !Could(e, Temp(Tree(g, rel), n), Some(v)) {
      assert Foot(g, Temp(Tree(g, rel), n));
      assert !Could(d, Temp(Tree(g, rel), n), Some(v));
    }
  }

  lemma ListsWithin(d: Disk, e: Disk, touched: set<Path>, g: Gen, m: CommittedManifest)
    requires Sound(d) && Settled(d, g) && Lists(d, g, m) && Within(d, e, touched) && ApartFiles(g, touched)
    ensures Lists(e, g, m)
  {
    forall rel ensures IsFile(e, g, rel) == IsFile(d, g, rel) {
      assert Foot(g, Tree(g, rel));
      assert e.At(Tree(g, rel)) == d.At(Tree(g, rel));
    }
    forall k | 0 <= k < |m.files| ensures RecordMatches(e, g, m.files[k]) {
      var rel := m.files[k].rel;
      assert RecordMatches(d, g, m.files[k]);
      assert Could(d, Tree(g, rel), Some(File(d.now[Tree(g, rel)].inode)));
      forall j | 0 <= j <= |rel| ensures Tree(g, rel[..j]) !in touched { assert Foot(g, Tree(g, rel[..j])); }
      FileSettledWithin(d, e, touched, g, rel);
    }
  }

  lemma SealedWithin(d: Disk, e: Disk, touched: set<Path>, ref: ArtifactRef)
    requires Sound(d) && Sealed(d, ref) && Within(d, e, touched) && Apart(ref.g, touched)
    ensures Sealed(e, ref)
  {
    assert Foot(ref.g, Manifest(ref.g));
    SettledWithin(d, e, touched, ref.g);
    ListsWithin(d, e, touched, ref.g, ref.manifest.doc.manifest);
  }

  // ----- Crashes -----

  lemma AnchoredSurvives(d: Disk, e: Disk, g: Gen)
    requires CrashImage(d, e) && Anchored(d, g) && e.IsDirectory(RunRoot)
    ensures Anchored(e, g)
  {
    FirmSurvives(d, e, CellsDir, Directory);
    FirmSurvives(d, e, CellDir(g.cell), Directory);
    FirmSurvives(d, e, AttemptsDir(g.cell), Directory);
    FirmSurvives(d, e, ManifestsDir(g.cell), Directory);
    FirmSurvives(d, e, Tree(g, []), Directory);
  }

  lemma {:induction false} PathSurvives(d: Disk, e: Disk, g: Gen, rel: Rel, j: nat)
    requires CrashImage(d, e) && Firm(e, Tree(g, []), Directory) && j <= |rel|
    requires forall k | 0 <= k < j :: Firm(d, Tree(g, rel[..k]), Directory)
    ensures forall k | 0 <= k < j :: Firm(e, Tree(g, rel[..k]), Directory)
  {
    if j > 1 {
      PathSurvives(d, e, g, rel, j - 1);
      assert Parent(Tree(g, rel[..j - 1])) == Tree(g, rel[..j - 2]) by {
        assert rel[..j - 1][..j - 2] == rel[..j - 2];
      }
      FirmSurvives(d, e, Tree(g, rel[..j - 1]), Directory);
    } else if j == 1 {
      assert rel[..0] == [];
    }
  }

  lemma FileSurvives(d: Disk, e: Disk, g: Gen, rel: Rel)
    requires CrashImage(d, e) && FileSettled(d, g, rel) && Firm(e, Tree(g, []), Directory)
    ensures FileSettled(e, g, rel)
    ensures Contents(e, g, rel) == Contents(d, g, rel)
  {
    PathSurvives(d, e, g, rel, |rel|);
    if rel != [] { FirmSurvives(d, e, Tree(g, rel), d.now[Tree(g, rel)]); }
  }

  lemma SettledSurvives(d: Disk, e: Disk, g: Gen)
    requires CrashImage(d, e) && Settled(d, g) && e.IsDirectory(RunRoot)
    ensures Settled(e, g)
  {
    AnchoredSurvives(d, e, g);
    forall rel, i | Could(e, Tree(g, rel), Some(File(i))) ensures FileSettled(e, g, rel) {
      assert Could(d, Tree(g, rel), Some(File(i)));
      FileSurvives(d, e, g, rel);
    }
    forall rel, n, v ensures !Could(e, Temp(Tree(g, rel), n), Some(v)) {
      assert !Could(d, Temp(Tree(g, rel), n), Some(v));
    }
  }

  lemma SealedSurvives(d: Disk, e: Disk, ref: ArtifactRef)
    requires Sound(d) && CrashImage(d, e) && Sealed(d, ref) && e.IsDirectory(RunRoot)
    ensures Sealed(e, ref)
  {
    var g, m := ref.g, ref.manifest.doc.manifest;
    SettledSurvives(d, e, g);
    FirmSurvives(d, e, Manifest(g), d.now[Manifest(g)]);
    forall rel | IsFile(e, g, rel) ensures Names(m, rel) {
      assert Could(e, Tree(g, rel), Some(e.now[Tree(g, rel)]));
      assert Could(d, Tree(g, rel), Some(e.now[Tree(g, rel)]));
      assert IsFile(d, g, rel);
    }
    forall k | 0 <= k < |m.files| ensures RecordMatches(e, g, m.files[k]) {
      var rel := m.files[k].rel;
      assert RecordMatches(d, g, m.files[k]);
      assert Could(d, Tree(g, rel), Some(File(d.now[Tree(g, rel)].inode)));
      FileSurvives(d, e, g, rel);
    }
  }
}
