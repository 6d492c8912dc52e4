/** `validate`: the sorted listing of an attempt, and what it has to do with the recursive walk. */
module AttemptListing {
  import opened Options
  import opened PathOrder
  import opened ArtifactWalk
  import opened Disk
  import opened Generations

  lemma {:induction false} WalkTrichotomy(a: Rel, b: Rel)
    ensures WalkLess(a, b) || a == b || WalkLess(b, a)
  {
    if a != [] && b != [] {
      LessTrichotomy(a[0], b[0]);
      WalkTrichotomy(a[1..], b[1..]);
      assert a == [a[0]] + a[1..] && b == [b[0]] + b[1..];
    }
  }

  lemma {:induction false} WalkTransitive(a: Rel, b: Rel, c: Rel)
    requires WalkLess(a, b) && WalkLess(b, c)
    ensures WalkLess(a, c)
  {
    if a == [] {
    } else {
      LessTrichotomy(a[0], b[0]);
      if a[0] != b[0] {
        if b[0] != c[0] { LessTransitive(a[0], b[0], c[0]); }
      } else if b[0] == c[0] {
        WalkTransitive(a[1..], b[1..], c[1..]);
      }
    }
  }

  predicate RecordsAscend(fs: seq<FileRecord>) {
    forall i, j | 0 <= i < j < |fs| :: WalkLess(fs[i].rel, fs[j].rel)
  }

  function InsertRecord(f: FileRecord, fs: seq<FileRecord>): (r: seq<FileRecord>)
    requires RecordsAscend(fs) && forall x <- fs :: x.rel != f.rel
    ensures RecordsAscend(r)
    ensures forall x :: x in r <==> x == f || x in fs
  {
    if fs == [] then [f]
    else
      WalkTrichotomy(f.rel, fs[0].rel);
      if WalkLess(f.rel, fs[0].rel) then
        PrependRecord(f, fs);
        [f] + fs
      else
        var rest := InsertRecord(f, fs[1..]);
        assert forall x <- rest :: WalkLess(fs[0].rel, x.rel);
        assert forall x :: x in fs <==> x == fs[0] || x in fs[1..];
        [fs[0]] + rest
  }

  lemma PrependRecord(f: FileRecord, fs: seq<FileRecord>)
    requires fs != [] && RecordsAscend(fs) && WalkLess(f.rel, fs[0].rel)
    ensures RecordsAscend([f] + fs)
  {
    forall j | 0 < j < |fs| ensures WalkLess(f.rel, fs[j].rel) { WalkTransitive(f.rel, fs[0].rel, fs[j].rel); }
  }

  /** Walks, checks and hashes every file of the attempt; refuses only a name the guard refuses. */
  method ListAttempt(d: Disk, g: Gen) returns (m: Option<CommittedManifest>)
    requires Sound(d)
    ensures m.Some? ==> Lists(d, g, m.value)
    ensures m == None <==> exists p <- d.now :: p.Tree? && p.g == g && d.now[p].File? && !SafeRel(p.rel)
  {
    var files := set p | p in d.now && p.Tree? && p.g == g && d.now[p].File?;
    var rest, records := files, [];
    while rest != {}
      invariant rest <= files
      invariant RecordsAscend(records)
      invariant forall f <- records :: Tree(g, f.rel) in files - rest && SafeRel(f.rel) && RecordMatches(d, g, f)
      invariant forall p <- files - rest :: exists f <- records :: f.rel == p.rel
      decreases |rest|
    {
      var p :| p in rest;
      if !SafeRel(p.rel) { return None; }
      assert Could(d, p, Some(File(d.now[p].inode)));
      var doc := d.data[d.now[p].inode];
      var f := FileRecord(p.rel, Size(doc), Sha256(doc));
      assert p == Tree(g, p.rel);
      ghost var before := records;
      records := InsertRecord(f, records);
      assert forall x <- before :: x in records;
      assert f in records;
      rest := rest - {p};
    }
    var manifest := CommittedManifest(g, records);
    forall rel | IsFile(d, g, rel) ensures Names(manifest, rel) {
      assert Tree(g, rel) in files;
      var f :| f in records && f.rel == rel;
      var k :| 0 <= k < |records| && records[k] == f;
    }
    forall k | 0 <= k < |manifest.files|
      ensures SafeRel(manifest.files[k].rel) && RecordMatches(d, g, manifest.files[k])
    {
      assert manifest.files[k] in records;
    }
    forall p | p in d.now && p.Tree? && p.g == g && d.now[p].File? ensures SafeRel(p.rel) {
      assert p in files;
      var f :| f in records && f.rel == p.rel;
    }
    m := Some(manifest);
  }

  // ----- The listing is the walk -----

  lemma {:induction false} AscendingRelsUnique(a: seq<Rel>, b: seq<Rel>)
    requires RelsAscend(a) && RelsAscend(b)
    requires forall r :: r in a <==> r in b
    ensures a == b
  {
    assert b != [] ==> b[0] in b;
    if a != [] {
      assert a[0] in b;
      FirstRelLeast(a, b[0]);
      FirstRelLeast(b, a[0]);
      if a[0] != b[0] { WalkAsymmetric(a[0], b[0]); }
      forall r ensures r in a[1..] <==> r in b[1..] {
        WalkIrreflexive(a[0]);
        TailExcludes(a); TailExcludes(b);
        assert r in a <==> r == a[0] || r in a[1..];
        assert r in b <==> r == b[0] || r in b[1..];
      }
      AscendingRelsUnique(a[1..], b[1..]);
      assert a == [a[0]] + a[1..] && b == [b[0]] + b[1..];
    }
  }

  lemma {:induction false} FirstRelLeast(a: seq<Rel>, r: Rel)
    requires RelsAscend(a) && r in a
    ensures r == a[0] || WalkLess(a[0], r)
  {
  }

  lemma TailExcludes(a: seq<Rel>)
    requires RelsAscend(a) && a != []
    ensures a[0] !in a[1..]
  {
    WalkIrreflexive(a[0]);
  }

  /** For the directory tree the attempt's entries spell, the listing is the recursive walk, so the
      manifest is readable exactly when no directory of the attempt holds a clash. */
  lemma {:induction false} ListingIsWalk(d: Disk, g: Gen, m: CommittedManifest, t: AttemptTree)
    requires Lists(d, g, m) && t.Dir? && SafeTree(t)
    requires forall rel :: FileAt(t, rel) <==> IsFile(d, g, rel)
    ensures Rels(m) == Walk(t, [])
    ensures Readable(m) <==> !Clash(t)
  {
    forall rel ensures rel in Rels(m) <==> rel in Walk(t, []) {
      WalkMembers(t, [], rel);
      assert rel[0..] == rel;
      if rel in Rels(m) {
        var k :| 0 <= k < |Rels(m)| && Rels(m)[k] == rel;
        assert RecordMatches(d, g, m.files[k]);
      }
      if IsFile(d, g, rel) {
        var k :| 0 <= k < |m.files| && m.files[k].rel == rel;
        assert Rels(m)[k] == rel;
      }
    }
    WalkAscends(t, []);
    AscendingRelsUnique(Rels(m), Walk(t, []));
    ManifestParsesExactly(t, Written(m));
  }
}
