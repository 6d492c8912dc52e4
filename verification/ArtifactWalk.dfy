/** The recursive artifact walk, and the parser that later reads its listing back. */
module ArtifactWalk {
  import opened PathOrder

  /** What an attempt directory holds. A directory has no order of its own. */
  datatype AttemptTree = RegularFile | Dir(children: map<string, AttemptTree>)

  predicate SafeTree(t: AttemptTree) {
    t.Dir? ==> forall n <- t.children :: SafeName(n) && SafeTree(t.children[n])
  }

  /** There is a regular file at `rel` below `t`. */
  predicate FileAt(t: AttemptTree, rel: Rel) {
    if rel == [] then t.RegularFile?
    else t.Dir? && rel[0] in t.children && FileAt(t.children[rel[0]], rel[1..])
  }

  ghost predicate HoldsFile(t: AttemptTree) { exists rel :: FileAt(t, rel) }

  // ----- Sorting one directory -----

  predicate NamesAscend(names: seq<string>) {
    forall i, j | 0 <= i < j < |names| :: Less(names[i], names[j])
  }

  function Insert(x: string, names: seq<string>): (r: seq<string>)
    requires NamesAscend(names) && x !in names
    ensures NamesAscend(r)
    ensures forall n :: n in r <==> n == x || n in names
  {
    if names == [] then [x]
    else
      LessTrichotomy(x, names[0]);
      if Less(x, names[0]) then
        PrependAscends(x, names);
        [x] + names
      else
        var rest := Insert(x, names[1..]);
        assert forall n <- rest :: Less(names[0], n);
        assert forall n :: n in names <==> n == names[0] || n in names[1..];
        [names[0]] + rest
  }

  lemma {:induction false} PrependAscends(x: string, names: seq<string>)
    requires names != [] && NamesAscend(names) && Less(x, names[0])
    ensures NamesAscend([x] + names)
  {
    forall j | 0 < j < |names| ensures Less(x, names[j]) { LessTransitive(x, names[0], names[j]); }
  }

  ghost function SortedNames(names: set<string>): (r: seq<string>)
    ensures NamesAscend(r)
    ensures forall n :: n in r <==> n in names
  {
    if names == {} then [] else var x :| x in names; Insert(x, SortedNames(names - {x}))
  }

  lemma {:induction false} FirstIsLeast(a: seq<string>, n: string)
    requires NamesAscend(a) && n in a
    ensures n == a[0] || Less(a[0], n)
  {
  }

  /** An ascending listing of a set is unique, so the order `iterdir` yields does not matter. */
  lemma {:induction false} AscendingUnique(a: seq<string>, b: seq<string>)
    requires NamesAscend(a) && NamesAscend(b)
    requires forall n :: n in a <==> n in b
    ensures a == b
  {
    assert b != [] ==> b[0] in b;
    if a != [] {
      assert a[0] in b;
      assert b[0] in a;
      LessTrichotomy(a[0], b[0]);
      FirstIsLeast(a, b[0]);
      FirstIsLeast(b, a[0]);
      assert forall n | n in a[1..] :: Less(a[0], n);
      assert forall n | n in b[1..] :: Less(b[0], n);
      forall n ensures n in a[1..] <==> n in b[1..] {
        LessTrichotomy(a[0], n);
        assert n in a <==> n == a[0] || n in a[1..];
        assert n in b <==> n == b[0] || n in b[1..];
      }
      AscendingUnique(a[1..], b[1..]);
      assert a == [a[0]] + a[1..] && b == [b[0]] + b[1..];
    }
  }

  method SortDirectory(names: set<string>) returns (listing: seq<string>)
    ensures listing == SortedNames(names)
  {
    listing := [];
    var rest := names;
    while rest != {}
      invariant rest <= names
      invariant NamesAscend(listing)
      invariant forall n :: n in listing <==> n in names - rest
      decreases |rest|
    {
      var n :| n in rest;
      listing := Insert(n, listing);
      rest := rest - {n};
    }
    AscendingUnique(listing, SortedNames(names));
  }

  // ----- The walk -----

  /** The listing `visit` appends for a tree met at `prefix`. */
  ghost function Walk(t: AttemptTree, prefix: Rel): seq<Rel>
    decreases t, 1, 0
  {
    if t.RegularFile? then [prefix] else WalkNames(t, SortedNames(t.children.Keys), prefix)
  }

  ghost function WalkNames(t: AttemptTree, names: seq<string>, prefix: Rel): seq<Rel>
    requires t.Dir? && forall n <- names :: n in t.children
    decreases t, 0, |names|
  {
    if names == [] then []
    else Walk(t.children[names[0]], prefix + [names[0]]) + WalkNames(t, names[1..], prefix)
  }

  /** The `visit` loop: appends the files of one directory to the shared result list. */
  method Visit(t: AttemptTree, prefix: Rel, soFar: seq<Rel>) returns (result: seq<Rel>)
    ensures result == soFar + Walk(t, prefix)
    decreases t
  {
    if t.RegularFile? { return soFar + [prefix]; }
    result := soFar;
    var listing := SortDirectory(t.children.Keys);
    for i := 0 to |listing|
      invariant result + WalkNames(t, listing[i..], prefix) == soFar + Walk(t, prefix)
    {
      ghost var before := result;
      result := Visit(t.children[listing[i]], prefix + [listing[i]], result);
      assert listing[i..][1..] == listing[i + 1..];
    }
  }

  /** The walk lists exactly the regular files. */
  lemma {:induction false} WalkMembers(t: AttemptTree, prefix: Rel, rel: Rel)
    ensures rel in Walk(t, prefix) <==> prefix <= rel && FileAt(t, rel[|prefix|..])
    decreases t, 1, 0
  {
    if t.Dir? {
      WalkNamesMembers(t, SortedNames(t.children.Keys), prefix, rel);
    } else if prefix <= rel && rel[|prefix|..] == [] {
      assert rel == prefix;
    }
  }

  lemma {:induction false} WalkNamesMembers(t: AttemptTree, names: seq<string>, prefix: Rel, rel: Rel)
    requires t.Dir? && forall n <- names :: n in t.children
    ensures rel in WalkNames(t, names, prefix)
      <==> prefix < rel && rel[|prefix|] in names && FileAt(t, rel[|prefix|..])
    decreases t, 0, |names|
  {
    if names == [] {
    } else {
      var first := prefix + [names[0]];
      WalkMembers(t.children[names[0]], first, rel);
      WalkNamesMembers(t, names[1..], prefix, rel);
      if prefix < rel && rel[|prefix|] == names[0] {
        assert first == rel[..|first|];
        assert rel[|prefix|..][1..] == rel[|first|..];
      }
      assert names == [names[0]] + names[1..];
    }
  }

  predicate RelsAscend(rels: seq<Rel>) {
    forall i, j | 0 <= i < j < |rels| :: WalkLess(rels[i], rels[j])
  }

  lemma {:induction false} WalkLessShared(p: Rel, a: Rel, b: Rel)
    ensures WalkLess(p + a, p + b) <==> WalkLess(a, b)
  {
    if p == [] {
      assert p + a == a && p + b == b;
    } else {
      assert (p + a)[1..] == p[1..] + a && (p + b)[1..] == p[1..] + b;
      LessTrichotomy(p[0], p[0]);
      WalkLessShared(p[1..], a, b);
    }
  }

  /** The walk ascends strictly, component by component, so it lists no file twice. */
  lemma {:induction false} WalkAscends(t: AttemptTree, prefix: Rel)
    ensures RelsAscend(Walk(t, prefix))
    decreases t, 1, 0
  {
    if t.Dir? { WalkNamesAscend(t, SortedNames(t.children.Keys), prefix); }
  }

  lemma {:induction false} WalkNamesAscend(t: AttemptTree, names: seq<string>, prefix: Rel)
    requires t.Dir? && forall n <- names :: n in t.children
    requires NamesAscend(names)
    ensures RelsAscend(WalkNames(t, names, prefix))
    decreases t, 0, |names|
  {
    if names == [] {
    } else {
      var first := Walk(t.children[names[0]], prefix + [names[0]]);
      var rest := WalkNames(t, names[1..], prefix);
      WalkAscends(t.children[names[0]], prefix + [names[0]]);
      WalkNamesAscend(t, names[1..], prefix);
      forall a <- first, b <- rest ensures WalkLess(a, b) {
        WalkMembers(t.children[names[0]], prefix + [names[0]], a);
        WalkNamesMembers(t, names[1..], prefix, b);
        assert a == prefix + a[|prefix|..] && b == prefix + b[|prefix|..];
        WalkLessShared(prefix, a[|prefix|..], b[|prefix|..]);
      }
    }
  }

  // ----- Where the walk order and the text order disagree -----

  /** A directory that holds files below `x` beside an undercutting sibling that is or holds a file. */
  ghost predicate Clash(t: AttemptTree) {
    t.Dir? &&
    ((exists x, y | x in t.children && y in t.children ::
        Undercuts(x, y) && t.children[x].Dir? && HoldsFile(t.children[x]) && HoldsFile(t.children[y]))
     || exists n | n in t.children :: Clash(t.children[n]))
  }

  lemma {:induction false} InvertedGivesClash(t: AttemptTree, a: Rel, b: Rel)
    requires FileAt(t, a) && FileAt(t, b) && Inverted(a, b)
    ensures Clash(t)
    decreases t
  {
    if a[0] == b[0] {
      InvertedGivesClash(t.children[a[0]], a[1..], b[1..]);
    } else {
      assert FileAt(t.children[a[0]], a[1..]) && FileAt(t.children[b[0]], b[1..]);
    }
  }

  lemma {:induction false} ClashGivesInverted(t: AttemptTree) returns (a: Rel, b: Rel)
    requires SafeTree(t) && Clash(t)
    ensures FileAt(t, a) && FileAt(t, b) && Inverted(a, b) && WalkLess(a, b)
    decreases t
  {
    if n :| n in t.children && Clash(t.children[n]) {
      var a', b' := ClashGivesInverted(t.children[n]);
      a, b := [n] + a', [n] + b';
      assert a[1..] == a' && b[1..] == b';
    } else {
      var x, y :| x in t.children && y in t.children && Undercuts(x, y) && t.children[x].Dir?
        && HoldsFile(t.children[x]) && HoldsFile(t.children[y]);
      a, b := InvertedBelow(t, x, y);
    }
  }

  lemma InvertedBelow(t: AttemptTree, x: string, y: string) returns (a: Rel, b: Rel)
    requires t.Dir? && x in t.children && y in t.children && Undercuts(x, y) && t.children[x].Dir?
    requires HoldsFile(t.children[x]) && HoldsFile(t.children[y])
    ensures FileAt(t, a) && FileAt(t, b) && Inverted(a, b) && WalkLess(a, b)
  {
    var a' :| FileAt(t.children[x], a');
    var b' :| FileAt(t.children[y], b');
    a, b := [x] + a', [y] + b';
    assert a[1..] == a' && b[1..] == b';
    LessShared(x, "", y[|x|..]);
    assert x + "" == x && x + y[|x|..] == y;
  }

  // ----- Parsing a manifest back -----

  datatype Entry<D> = Entry(path: string, size: int, digest: D, mode: int)

  /** A member of the `artifacts` list: the four fields with values of the right type, or anything else. */
  datatype Raw<D> = Shaped(entry: Entry<D>) | Misshapen

  datatype ParseError = PathSafety | ArtifactOrder | ArtifactShape | ArtifactHash | ArtifactMode
  datatype Parsed<D> = Ok(entries: seq<Entry<D>>) | Refused(kind: ParseError)

  const FILE_MODE := 0x1a4  // 0644

  /** The checks the parser makes on one entry, in its order. */
  function EntryError<D>(raw: Raw<D>, previous: string, isDigest: D -> bool): (r: seq<ParseError>) {
    if raw.Misshapen? then [ArtifactShape]
    else if SafeRelativePath(raw.entry.path).PathSafety? then [ParseError.PathSafety]
    else if !Less(previous, raw.entry.path) then [ArtifactOrder]
    else if raw.entry.size < 0 then [ArtifactShape]
    else if !isDigest(raw.entry.digest) then [ArtifactHash]
    else if raw.entry.mode != FILE_MODE then [ArtifactMode]
    else []
  }

  predicate PathsAscend<D>(es: seq<Entry<D>>) {
    forall i, j | 0 <= i < j < |es| :: Less(es[i].path, es[j].path)
  }

  predicate EntrySound<D>(e: Entry<D>) {
    SafeRelativePath(e.path).Accepted? && e.size >= 0 && e.mode == FILE_MODE
  }

  /** All of the list is entries, and these are they. */
  ghost predicate Unwrapped<D>(raws: seq<Raw<D>>, es: seq<Entry<D>>) {
    |es| == |raws| && forall i | 0 <= i < |raws| :: raws[i] == Shaped(es[i])
  }

  lemma RefusedEntry<D>(raws: seq<Raw<D>>, es: seq<Entry<D>>, i: nat, previous: string, isDigest: D -> bool)
    requires Unwrapped(raws, es) && i < |raws| && previous == (if i == 0 then "" else es[i - 1].path)
    requires EntryError(raws[i], previous, isDigest) != []
    ensures !(PathsAscend(es) && forall e <- es :: EntrySound(e) && isDigest(e.digest))
    ensures EntryError(raws[i], previous, isDigest) == [ArtifactOrder] ==> !PathsAscend(es)
  {
    assert raws[i] == Shaped(es[i]) && es[i] in es;
    assert i == 0 && SafeRelativePath(es[i].path).Accepted? ==> Less("", es[i].path);
    hide SafeRelativePath, Less;
    if PathsAscend(es) && i > 0 { assert Less(es[i - 1].path, es[i].path); }
  }

  /** The loop over `artifacts`: it compares each path with the one before only, and that is enough. The
      list parses as `es` exactly when it spells `es` and these are sound and strictly ascending. */
  method ParseArtifacts<D>(raws: seq<Raw<D>>, isDigest: D -> bool) returns (r: Parsed<D>)
    ensures forall es :: Unwrapped(raws, es) ==>
      (r == Ok(es) <==> PathsAscend(es) && forall e <- es :: EntrySound(e) && isDigest(e.digest))
    ensures r.Ok? ==> Unwrapped(raws, r.entries)
    ensures r == Refused(ArtifactOrder) ==> forall es :: Unwrapped(raws, es) ==> !PathsAscend(es)
  {
    hide SafeRelativePath, Less;
    var entries: seq<Entry<D>> := [];
    var previous := "";
    for i := 0 to |raws|
      invariant Unwrapped(raws[..i], entries)
      invariant previous == if i == 0 then "" else entries[i - 1].path
      invariant forall e <- entries :: EntrySound(e) && isDigest(e.digest)
      invariant PathsAscend(entries)
    {
      var errors := EntryError(raws[i], previous, isDigest);
      if errors != [] {
        forall es | Unwrapped(raws, es)
          ensures errors == [ArtifactOrder] ==> !PathsAscend(es)
          ensures !(PathsAscend(es) && forall e <- es :: EntrySound(e) && isDigest(e.digest))
        {
          if i > 0 { assert raws[..i][i - 1] == Shaped(entries[i - 1]) == raws[i - 1]; }
          RefusedEntry(raws, es, i, previous, isDigest);
        }
        return Refused(errors[0]);
      }
      var entry := raws[i].entry;
      forall j | 0 <= j < i ensures Less(entries[j].path, entry.path) {
        if j < i - 1 { LessTransitive(entries[j].path, previous, entry.path); }
      }
      entries, previous := entries + [entry], entry.path;
    }
    assert raws[..|raws|] == raws;
    forall es | Unwrapped(raws, es)
      ensures es == entries
    {
      assert forall k | 0 <= k < |raws| :: raws[k] == Shaped(es[k]) == Shaped(entries[k]);
    }
    return Ok(entries);
  }

  predicate NoInversion(rels: seq<Rel>) {
    forall i, j | 0 <= i < j < |rels| :: !Inverted(rels[i], rels[j])
  }

  /** A listing whose components are safe and ascend parses exactly when no pair is inverted. */
  lemma WalkedListingParses<D>(rels: seq<Rel>, raws: seq<Entry<D>>)
    requires RelsAscend(rels) && |raws| == |rels|
    requires forall i | 0 <= i < |rels| :: SafeRel(rels[i]) && raws[i].path == Join(rels[i])
    ensures PathsAscend(raws) <==> NoInversion(rels)
  {
    forall i, j | 0 <= i < j < |rels| ensures Less(raws[i].path, raws[j].path) <==> !Inverted(rels[i], rels[j]) {
      JoinedOrderExact(rels[i], rels[j]);
    }
  }

  /** A clash shows in the listing, */
  lemma {:induction false} ClashIsListed(t: AttemptTree)
    requires SafeTree(t) && Clash(t)
    ensures !NoInversion(Walk(t, []))
  {
    var a, b := ClashGivesInverted(t);
    var i := WalkIndex(t, a);
    var j := WalkIndex(t, b);
    ListedInOrder(t, i, j);
  }

  lemma {:induction false} ListedInOrder(t: AttemptTree, i: nat, j: nat)
    requires i < |Walk(t, [])| && j < |Walk(t, [])|
    requires WalkLess(Walk(t, [])[i], Walk(t, [])[j])
    ensures i < j
  {
    WalkAscends(t, []);
    WalkIrreflexive(Walk(t, [])[i]);
    WalkAsymmetric(Walk(t, [])[i], Walk(t, [])[j]);
  }

  /** and an inverted pair in the listing comes from a clash. */
  lemma {:induction false} InversionIsClash(t: AttemptTree, i: nat, j: nat)
    requires i < |Walk(t, [])| && j < |Walk(t, [])| && Inverted(Walk(t, [])[i], Walk(t, [])[j])
    ensures Clash(t)
  {
    WalkFileAt(t, i);
    WalkFileAt(t, j);
    InvertedGivesClash(t, Walk(t, [])[i], Walk(t, [])[j]);
  }

  lemma {:induction false} WalkFileAt(t: AttemptTree, i: nat)
    requires i < |Walk(t, [])|
    ensures FileAt(t, Walk(t, [])[i])
  {
    WalkMembers(t, [], Walk(t, [])[i]);
    assert Walk(t, [])[i] in Walk(t, []);
    assert Walk(t, [])[i][0..] == Walk(t, [])[i];
  }

  lemma WalkIndex(t: AttemptTree, a: Rel) returns (i: nat)
    requires FileAt(t, a)
    ensures i < |Walk(t, [])| && Walk(t, [])[i] == a
  {
    WalkMembers(t, [], a);
    assert a[0..] == a;
    i :| 0 <= i < |Walk(t, [])| && Walk(t, [])[i] == a;
  }

  lemma {:induction false} WalkListsSafePaths(t: AttemptTree)
    requires t.Dir? && SafeTree(t)
    ensures forall rel <- Walk(t, []) :: SafeRel(rel)
  {
    forall rel <- Walk(t, []) ensures SafeRel(rel) {
      WalkMembers(t, [], rel);
      assert rel[0..] == rel;
      FilesAreSafe(t, rel);
    }
  }

  /** The entries `commit` writes for a tree: one per walked file, in walk order. */
  ghost predicate Describes<D>(t: AttemptTree, raws: seq<Entry<D>>) {
    var rels := Walk(t, []);
    && |raws| == |rels|
    && forall i | 0 <= i < |raws| ::
      raws[i].path == Join(rels[i]) && raws[i].size >= 0 && raws[i].mode == FILE_MODE
  }

  lemma {:induction false} EntriesSound<D>(t: AttemptTree, raws: seq<Entry<D>>)
    requires t.Dir? && SafeTree(t) && Describes(t, raws)
    ensures forall e <- raws :: EntrySound(e)
  {
    var rels := Walk(t, []);
    WalkListsSafePaths(t);
    forall e <- raws ensures EntrySound(e) {
      var i :| 0 <= i < |raws| && raws[i] == e;
      assert rels[i] in rels;
      SafeRelativePathExact(e.path, rels[i]);
    }
  }

  /** The manifest written for an attempt tree is readable exactly when no directory holds a clash. */
  lemma {:induction false} ManifestParsesExactly<D>(t: AttemptTree, raws: seq<Entry<D>>)
    requires t.Dir? && SafeTree(t) && Describes(t, raws)
    ensures (PathsAscend(raws) && forall e <- raws :: EntrySound(e)) <==> !Clash(t)
  {
    var rels := Walk(t, []);
    WalkAscends(t, []);
    WalkListsSafePaths(t);
    EntriesSound(t, raws);
    assert forall i | 0 <= i < |rels| :: rels[i] in rels;
    WalkedListingParses(rels, raws);
    if Clash(t) { ClashIsListed(t); }
    if i, j :| 0 <= i < j < |rels| && Inverted(rels[i], rels[j]) { InversionIsClash(t, i, j); }
  }

  lemma {:induction false} FilesAreSafe(t: AttemptTree, rel: Rel)
    requires SafeTree(t) && FileAt(t, rel) && t.Dir?
    ensures SafeRel(rel)
  {
    if t.children[rel[0]].Dir? { FilesAreSafe(t.children[rel[0]], rel[1..]); }
    assert rel == [rel[0]] + rel[1..];
  }

  /** `a/x` beside `a.txt` */
  const CLASHING := Dir(map["a" := Dir(map["x" := RegularFile]), "a.txt" := RegularFile])

  lemma ClashingTree()
    ensures SafeTree(CLASHING) && Clash(CLASHING)
  {
    var t := CLASHING;
    var x := Dir(map["x" := RegularFile]);
    assert FileAt(x, ["x"]) && FileAt(RegularFile, []);
    assert "a.txt"[..1] == "a";
    assert "a" in t.children && "a.txt" in t.children && Undercuts("a", "a.txt") && t.children["a"] == x;
  }

  /** The smallest tree `commit` accepts and `load_ref` refuses: what is written for it is sound, entry by
      entry, and out of order. */
  lemma ClashExample<D>(digest: D) returns (raws: seq<Entry<D>>)
    ensures SafeTree(CLASHING) && Clash(CLASHING)
    ensures Describes(CLASHING, raws) && (forall e <- raws :: EntrySound(e)) && !PathsAscend(raws)
  {
    ClashingTree();
    hide SafeTree, Clash, Walk, EntrySound, PathsAscend;
    var rels := Walk(CLASHING, []);
    raws := seq(|rels|, i requires 0 <= i < |rels| => Entry(Join(rels[i]), 0, digest, FILE_MODE));
    EntriesSound(CLASHING, raws);
    ManifestParsesExactly(CLASHING, raws);
  }
}
