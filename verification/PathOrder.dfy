/** The two orders an artifact manifest lives between: the walk sorts one directory at a time,
    the manifest parser compares whole relative paths by code point. */
module PathOrder {

  /** A relative path as its components, e.g. `previews/a.pfm` is `["previews", "a.pfm"]`. */
  type Rel = seq<string>

  // ----- Text order -----

  /** `s < t` on strings: code points, first difference decides, a proper prefix is smaller. */
  predicate Less(s: string, t: string) {
    t != "" && (s == "" || s[0] < t[0] || (s[0] == t[0] && Less(s[1..], t[1..])))
  }

  lemma {:induction false} LessTrichotomy(s: string, t: string)
    ensures Less(s, t) || s == t || Less(t, s)
    ensures !(Less(s, t) && Less(t, s))
    ensures !Less(s, s)
  {
    if s != "" { LessTrichotomy(s[1..], s[1..]); }
    if s != "" && t != "" {
      LessTrichotomy(s[1..], t[1..]);
      assert s == [s[0]] + s[1..] && t == [t[0]] + t[1..];
    }
  }

  lemma {:induction false} LessTransitive(s: string, t: string, u: string)
    requires Less(s, t) && Less(t, u)
    ensures Less(s, u)
  {
    if s != "" && s[0] == t[0] && t[0] == u[0] { LessTransitive(s[1..], t[1..], u[1..]); }
  }

  /** What follows a shared prefix decides. */
  lemma {:induction false} LessShared(p: string, s: string, t: string)
    ensures Less(p + s, p + t) <==> Less(s, t)
  {
    if p == "" {
      assert p + s == s && p + t == t;
    } else {
      assert (p + s)[1..] == p[1..] + s && (p + t)[1..] == p[1..] + t;
      LessShared(p[1..], s, t);
    }
  }

  // ----- Component names and joined paths -----

  /** A component `_safe_relative_path` lets through. */
  predicate SafeName(n: string) {
    && n != "" && n != "." && n != ".."
    && forall c <- n :: c != '/' && c != '\\' && c != '\0'
  }

  predicate SafeRel(r: Rel) {
    r != [] && forall n <- r :: SafeName(n)
  }

  function Join(r: Rel): string {
    if r == [] then "" else if |r| == 1 then r[0] else r[0] + "/" + Join(r[1..])
  }

  /** Splits at every separator; never empty, exactly like `str.split("/")`. */
  function Split(s: string): (r: Rel)
    ensures r != []
    ensures Join(r) == s
  {
    if s == "" then [""]
    else
      var rest := Split(s[1..]);
      if s[0] == '/' then [""] + rest
      else
        assert ([s[0]] + rest[0]) + (if |rest| == 1 then "" else "/" + Join(rest[1..])) == s;
        [[s[0]] + rest[0]] + rest[1..]
  }

  datatype Checked = Accepted(rel: Rel) | PathSafety

  /** `_safe_relative_path`: the guard that every staged, walked or parsed name passes through. */
  function SafeRelativePath(name: string): Checked {
    if name == "" || '\0' in name || '\\' in name || name[0] == '/' then PathSafety
    else
      var parts := Split(name);
      if exists p <- parts :: p in ["", ".", ".."] then PathSafety else Accepted(parts)
  }

  lemma {:induction false} SplitNames(s: string)
    ensures forall p, c | p in Split(s) && c in p :: c in s && c != '/'
  {
    if s == "" {
    } else {
      SplitNames(s[1..]);
    }
  }

  lemma {:induction false} SplitPlain(s: string)
    requires '/' !in s
    ensures Split(s) == [s]
  {
    if s == "" {
    } else {
      SplitPlain(s[1..]);
      assert s == [s[0]] + s[1..];
    }
  }

  lemma {:induction false} SplitAtSeparator(p: string, s: string)
    requires '/' !in p
    ensures Split(p + "/" + s) == [p] + Split(s)
  {
    if p == "" {
      assert (p + "/" + s)[1..] == s;
    } else {
      assert (p + "/" + s)[1..] == p[1..] + "/" + s;
      SplitAtSeparator(p[1..], s);
      assert p == [p[0]] + p[1..];
    }
  }

  lemma {:induction false} SplitJoin(r: Rel)
    requires SafeRel(r)
    ensures Split(Join(r)) == r
  {
    assert r[0] in r;
    if |r| == 1 {
      SplitPlain(r[0]);
    } else {
      SplitAtSeparator(r[0], Join(r[1..]));
      SplitJoin(r[1..]);
    }
  }

  /** The guard accepts exactly the joined paths of safe components, and yields those components. */
  lemma {:induction false} SafeRelativePathExact(name: string, r: Rel)
    ensures SafeRelativePath(name) == Accepted(r) <==> SafeRel(r) && name == Join(r)
  {
    hide SafeRelativePath, SafeRel;
    if SafeRelativePath(name) == Accepted(r) { AcceptedIsSafe(name, r); }
    if SafeRel(r) && name == Join(r) { SafeIsAccepted(r); }
  }

  lemma {:induction false} AcceptedIsSafe(name: string, r: Rel)
    requires SafeRelativePath(name) == Accepted(r)
    ensures SafeRel(r) && name == Join(r)
  {
    SplitNames(name);
    hide Split, Join;
    assert r == Split(name);
  }

  lemma {:induction false} SafeIsAccepted(r: Rel)
    requires SafeRel(r)
    ensures SafeRelativePath(Join(r)) == Accepted(r)
  {
    SplitJoin(r);
    JoinClean(r);
    hide Split, Join;
    assert r[0] in r && SafeName(r[0]);
    forall p <- r ensures p !in ["", ".", ".."] { assert SafeName(p); }
  }

  lemma {:induction false} JoinClean(r: Rel)
    requires SafeRel(r)
    ensures r[0] != "" && Join(r) != "" && Join(r)[0] == r[0][0]
    ensures forall c <- Join(r) :: c != '\\' && c != '\0'
  {
    assert r[0] in r && SafeName(r[0]);
    if |r| > 1 { JoinClean(r[1..]); }
  }

  // ----- The order of the walk -----

  /** Component by component, each compared as text. */
  predicate WalkLess(a: Rel, b: Rel) {
    b != [] && (a == [] || Less(a[0], b[0]) || (a[0] == b[0] && WalkLess(a[1..], b[1..])))
  }

  /** `y` is `x` followed by a character that sorts below the separator. */
  predicate Undercuts(x: string, y: string) {
    |x| < |y| && y[..|x|] == x && y[|x|] < '/'
  }

  /** The pair the two orders disagree about: where the paths part, one goes on below a directory
      `x` and the other has the sibling `y` that undercuts `x`. */
  predicate Inverted(a: Rel, b: Rel) {
    a != [] && b != [] &&
    if a[0] == b[0] then Inverted(a[1..], b[1..]) else |a| > 1 && Undercuts(a[0], b[0])
  }

  /** The first names differ: where the text order of the joined paths comes from. */
  lemma {:induction false} JoinLessAtFirst(x: string, y: string, s: string, t: string)
    requires SafeName(x) && SafeName(y) && x != y && Less(x, y)
    requires s == "" || s[0] == '/'
    requires t == "" || t[0] == '/'
    ensures Less(x + s, y + t) <==> !(s != "" && Undercuts(x, y))
  {
    var k := FirstDifference(x, y);
    LessShared(x[..k], x[k..] + s, y[k..] + t);
    SplitAt(x, s, k);
    SplitAt(y, t, k);
    var u, v := x[k..] + s, y[k..] + t;
    assert v[0] == y[k] && y[k] in y;
    if k == |x| { assert u == s; } else { assert u[0] == x[k]; }
  }

  lemma SplitAt(x: string, s: string, k: nat)
    requires k <= |x|
    ensures x + s == x[..k] + (x[k..] + s)
  {
  }

  lemma {:induction false} FirstDifference(x: string, y: string) returns (k: nat)
    requires Less(x, y)
    ensures k <= |x| && k < |y| && x[..k] == y[..k]
    ensures k == |x| || x[k] < y[k]
  {
    if x == "" || x[0] != y[0] {
      k := 0;
    } else {
      var j := FirstDifference(x[1..], y[1..]);
      k := j + 1;
      assert x[..k] == [x[0]] + x[1..][..j] && y[..k] == [y[0]] + y[1..][..j];
    }
  }

  /** Between two paths in walk order, the joined text is in order too exactly when the pair is not
      inverted. */
  lemma {:induction false} JoinedOrderExact(a: Rel, b: Rel)
    requires SafeRel(a) && SafeRel(b) && WalkLess(a, b)
    ensures Less(Join(a), Join(b)) <==> !Inverted(a, b)
    ensures Join(a) != Join(b)
  {
    assert a[0] in a && b[0] in b;
    if Join(a) == Join(b) {
      SplitJoin(a); SplitJoin(b); WalkIrreflexive(a);
      assert false;
    }
    var s := if |a| == 1 then "" else "/" + Join(a[1..]);
    var t := if |b| == 1 then "" else "/" + Join(b[1..]);
    assert Join(a) == a[0] + s && Join(b) == b[0] + t;
    if a[0] != b[0] {
      JoinLessAtFirst(a[0], b[0], s, t);
    } else {
      LessTrichotomy(a[0], a[0]);
      LessShared(a[0], s, t);
      if |a| > 1 {
        LessShared("/", Join(a[1..]), Join(b[1..]));
        JoinedOrderExact(a[1..], b[1..]);
      }
    }
  }

  lemma {:induction false} WalkIrreflexive(a: Rel)
    ensures !WalkLess(a, a)
  {
    if a == [] {
    } else {
      LessTrichotomy(a[0], a[0]);
      WalkIrreflexive(a[1..]);
    }
  }

  lemma {:induction false} WalkAsymmetric(a: Rel, b: Rel)
    requires WalkLess(a, b)
    ensures !WalkLess(b, a)
  {
    if a == [] {
    } else {
      LessTrichotomy(a[0], b[0]);
      if a[0] == b[0] { WalkAsymmetric(a[1..], b[1..]); }
    }
  }
}
