/** Planning the matrix: explicit selections are normalised to the order of the protocol and the corpus
    and expanded to their Cartesian product. */
module Matrix {
  import opened Options
  import opened Arith

  datatype Result<T> = Ok(value: T) | Failure(kind: string)

  datatype CellKey = CellKey(candidate: string, shot: string, conditioning: string, cap: string, provider: string,
                             hostLoad: string)

  datatype Provider = Provider(token: string, environment: string, capTokens: seq<string>)
  datatype Cap = Cap(token: string, lattice: Option<(int, int)>, megapixels: real)
  datatype Constraint = Constraint(candidate: string, providers: seq<string>, caps: seq<string>, required: (int, int),
                                   sixteenByNine: bool)
  datatype Protocol = Protocol(v2: bool, candidates: seq<string>, shippingRoles: set<string>, conditioning: seq<string>,
                               caps: seq<Cap>,
                               providers: seq<Provider>, constraints: seq<Constraint>)

  datatype Entry = Entry(candidate: string, eligible: bool, measurable: bool, measurementProviders: Option<seq<string>>)

  datatype Shot = Shot(id: string, caseId: string, width: int, height: int, aspect: real)

  /** One requested provider: its host loads and the optional arena limit. */
  datatype Request = Request(token: string, hostLoads: seq<string>, limit: Option<int>)

  datatype Selections = Selections(candidates: seq<string>, shots: seq<string>, conditioning: seq<string>,
                                   caps: seq<string>, providers: seq<Request>)

  /** The normalised selection; `matrix_sha256` is an injective function of it. */
  datatype Selector = Selector(candidates: seq<string>, shots: seq<string>, conditioning: seq<string>,
                               caps: seq<string>, providers: seq<Request>)
  datatype Digest = Sha256(payload: Selector)

  datatype MatrixPlan = MatrixPlan(selector: Selector, digest: Digest, cells: seq<CellKey>, excluded: seq<string>)

  // ----- Selecting in a fixed order -----

  predicate Distinct<T(==)>(s: seq<T>) {
    forall i, j :: 0 <= i < j < |s| ==> s[i] != s[j]
  }

  function Filter(s: seq<string>, keep: set<string>): (r: seq<string>)
    ensures forall x :: x in r <==> x in s && x in keep
  {
    if s == [] then [] else Filter(s[..|s| - 1], keep) + if s[|s| - 1] in keep then [s[|s| - 1]] else []
  }

  function Members(s: seq<string>): set<string> { set x | x in s }

  function ListFault(requested: seq<string>): string {
    if requested == [] then "empty_selection"
    else if "" in requested then "invalid_value"
    else if !Distinct(requested) then "duplicate_selection"
    else ""
  }

  /** `_ordered_ids` */
  function OrderedIds(requested: seq<string>, available: seq<string>): Result<seq<string>> {
    if ListFault(requested) != "" then Failure(ListFault(requested))
    else if exists x <- requested :: x !in available then Failure("unknown_selection")
    else
      var selected := Filter(available, Members(requested));
      if selected == [] then Failure("empty_selection") else Ok(selected)
  }

  /** The first requested candidate that may not be selected. */
  function CandidateFault(requested: seq<string>, admitted: seq<string>, refused: seq<string>, v2: bool): string {
    if requested == [] then ""
    else if requested[0] in refused then (if v2 then "unavailable_candidate" else "excluded_candidate")
    else if requested[0] !in admitted then "unknown_candidate"
    else CandidateFault(requested[1..], admitted, refused, v2)
  }

  /** `_candidate_selection` and `_measurement_candidate_selection` */
  function CandidateSelection(requested: seq<string>, admitted: seq<string>, refused: seq<string>,
                              v2: bool): Result<seq<string>> {
    if ListFault(requested) != "" then Failure(ListFault(requested))
    else
      var fault := CandidateFault(requested, admitted, refused, v2);
      if fault != "" then Failure(fault) else Ok(Filter(admitted, Members(requested)))
  }

  lemma {:induction false} FilterDistinct(s: seq<string>, keep: set<string>)
    requires Distinct(s)
    ensures Distinct(Filter(s, keep))
  {
    if s == [] {
    } else {
      FilterDistinct(s[..|s| - 1], keep);
      assert s[|s| - 1] !in s[..|s| - 1];
    }
  }

  lemma {:induction false} NoCandidateFault(requested: seq<string>, admitted: seq<string>, refused: seq<string>,
                                            v2: bool)
    ensures CandidateFault(requested, admitted, refused, v2) == "" <==>
      forall x <- requested :: x !in refused && x in admitted
  {
    if requested == [] {
    } else {
      NoCandidateFault(requested[1..], admitted, refused, v2);
      assert requested == [requested[0]] + requested[1..];
    }
  }

  lemma DistinctAppend(s: seq<string>, x: string)
    ensures Distinct(s + [x]) <==> Distinct(s) && x !in s
  {
    var t := s + [x];
    assert t[|s|] == x && forall i :: 0 <= i < |s| ==> t[i] == s[i];
  }

  lemma SameMembers(a: seq<string>, b: seq<string>)
    requires multiset(a) == multiset(b)
    ensures Members(a) == Members(b) && forall x :: x in a <==> x in b
  {
    forall x
      ensures x in a <==> x in b
    {
      assert x in a <==> x in multiset(a);
      assert x in b <==> x in multiset(b);
    }
  }

  lemma DistinctIsCounted(a: seq<string>)
    ensures Distinct(a) <==> forall x :: multiset(a)[x] <= 1
  {
    if Distinct(a) {
      forall x
        ensures multiset(a)[x] <= 1
      {
        CountedOnce(a, x);
      }
    } else {
      var i, j :| 0 <= i < j < |a| && a[i] == a[j];
      assert a == a[..j] + a[j..];
      assert a[i] in a[..j] && a[i] in a[j..] by { assert a[..j][i] == a[i] && a[j..][0] == a[j]; }
      assert multiset(a) == multiset(a[..j]) + multiset(a[j..]);
      assert multiset(a)[a[i]] >= 2;
    }
  }

  lemma {:induction false} CountedOnce(a: seq<string>, x: string)
    requires Distinct(a)
    ensures multiset(a)[x] <= 1
  {
    if a == [] {
    } else {
      var n := |a| - 1;
      CountedOnce(a[..n], x);
      assert a == a[..n] + [a[n]];
      if a[n] == x { assert x !in a[..n]; }
    }
  }

  /** A list stays fit for selection, or unfit in the same way, when it is permuted. */
  lemma ListFaultForgetsOrder(a: seq<string>, b: seq<string>)
    requires multiset(a) == multiset(b)
    ensures ListFault(a) == ListFault(b)
  {
    assert |a| == |multiset(a)| == |multiset(b)| == |b|;
    SameMembers(a, b);
    DistinctIsCounted(a);
    DistinctIsCounted(b);
  }

  lemma OrderedIdsForgetsOrder(a: seq<string>, b: seq<string>, available: seq<string>)
    requires multiset(a) == multiset(b)
    ensures OrderedIds(a, available) == OrderedIds(b, available)
  {
    ListFaultForgetsOrder(a, b);
    SameMembers(a, b);
  }

  lemma CandidatesForgetOrder(a: seq<string>, b: seq<string>, admitted: seq<string>, refused: seq<string>, v2: bool)
    requires multiset(a) == multiset(b)
    ensures CandidateSelection(a, admitted, refused, v2).Ok? <==> CandidateSelection(b, admitted, refused, v2).Ok?
    ensures CandidateSelection(a, admitted, refused, v2).Ok? ==>
      CandidateSelection(a, admitted, refused, v2) == CandidateSelection(b, admitted, refused, v2)
  {
    ListFaultForgetsOrder(a, b);
    SameMembers(a, b);
    NoCandidateFault(a, admitted, refused, v2);
    NoCandidateFault(b, admitted, refused, v2);
  }

  /** Both a refused candidate and an unknown one are requested. */
  predicate TwoFaults(requested: seq<string>, admitted: seq<string>, refused: seq<string>) {
    (exists x <- requested :: x in refused) && (exists y <- requested :: y !in refused && y !in admitted)
  }

  /** With one kind of bad candidate, whatever the order, that kind is reported. */
  lemma {:induction false} OneKindOfFault(requested: seq<string>, admitted: seq<string>, refused: seq<string>, v2: bool)
    requires !TwoFaults(requested, admitted, refused)
    ensures CandidateFault(requested, admitted, refused, v2) ==
      if exists x <- requested :: x in refused then (if v2 then "unavailable_candidate" else "excluded_candidate")
      else if exists y <- requested :: y !in admitted then "unknown_candidate"
      else ""
  {
    if requested == [] {
    } else {
      OneKindOfFault(requested[1..], admitted, refused, v2);
      assert requested == [requested[0]] + requested[1..];
    }
  }

  /** Any requested candidate can be asked for first. */
  lemma BroughtToFront(a: seq<string>, x: string) returns (b: seq<string>)
    requires x in a
    ensures multiset(b) == multiset(a) && b != [] && b[0] == x
  {
    var i :| 0 <= i < |a| && a[i] == x;
    b := [x] + (a[..i] + a[i + 1..]);
    assert a == a[..i] + ([a[i]] + a[i + 1..]);
  }

  /** Permuting a request keeps the result, the reported refusal included, exactly when the list itself is
      faulty or it does not mix refused with unknown candidates. */
  lemma RefusalForgetsOrderExactly(a: seq<string>, admitted: seq<string>, refused: seq<string>, v2: bool)
    ensures
      (forall b | multiset(b) == multiset(a) ::
         CandidateSelection(b, admitted, refused, v2) == CandidateSelection(a, admitted, refused, v2))
      <==> ListFault(a) != "" || !TwoFaults(a, admitted, refused)
  {
    if ListFault(a) != "" || !TwoFaults(a, admitted, refused) {
      forall b | multiset(b) == multiset(a)
        ensures CandidateSelection(b, admitted, refused, v2) == CandidateSelection(a, admitted, refused, v2)
      {
        ListFaultForgetsOrder(a, b);
        SameMembers(a, b);
        if ListFault(a) == "" {
          OneKindOfFault(a, admitted, refused, v2);
          OneKindOfFault(b, admitted, refused, v2);
        }
      }
    } else {
      var x :| x in a && x in refused;
      var y :| y in a && y !in refused && y !in admitted;
      var first := BroughtToFront(a, x);
      var second := BroughtToFront(a, y);
      ListFaultForgetsOrder(a, first);
      ListFaultForgetsOrder(a, second);
      assert CandidateSelection(first, admitted, refused, v2) != CandidateSelection(second, admitted, refused, v2);
    }
  }

  /** So the same two candidates can be refused for two reasons. */
  lemma RefusalDependsOnOrder()
    ensures CandidateSelection(["x", "y"], ["z"], ["x"], false) == Failure("excluded_candidate")
    ensures CandidateSelection(["y", "x"], ["z"], ["x"], false) == Failure("unknown_candidate")
  {
    assert ["x", "y"][0] == "x" && ["y", "x"][0] == "y";
    assert Distinct(["x", "y"]) && Distinct(["y", "x"]);
  }

  // ----- Expansion -----

  /** `itertools.product` of two axes. */
  function Cross<A, B>(a: seq<A>, b: seq<B>): (r: seq<(A, B)>)
  {
    if a == [] then []
    else
      var last := a[|a| - 1];
      Cross(a[..|a| - 1], b) + seq(|b|, j requires 0 <= j < |b| => (last, b[j]))
  }

  lemma {:induction false} CrossLength<A, B>(a: seq<A>, b: seq<B>)
    ensures |Cross(a, b)| == |a| * |b|
  {
    if a == [] {
    } else {
      CrossLength(a[..|a| - 1], b);
      assert |a| * |b| == (|a| - 1) * |b| + |b|;
    }
  }

  /** The pair of the `i`-th and the `j`-th value is at `i * |b| + j`. */
  lemma {:induction false} CrossAt<A, B>(a: seq<A>, b: seq<B>, i: nat, j: nat)
    requires i < |a| && j < |b|
    ensures i * |b| + j < |Cross(a, b)| == |a| * |b| && Cross(a, b)[i * |b| + j] == (a[i], b[j])
  {
    CrossLength(a, b);
    CrossLength(a[..|a| - 1], b);
    var n := |a| - 1;
    assert |a| * |b| == n * |b| + |b|;
    if i < n {
      CrossAt(a[..n], b, i, j);
    }
  }

  lemma {:induction false} CrossMember<A, B>(a: seq<A>, b: seq<B>, x: (A, B))
    requires x in Cross(a, b)
    ensures x.0 in a && x.1 in b
  {
    if a == [] {
    } else if x in Cross(a[..|a| - 1], b) {
      CrossMember(a[..|a| - 1], b, x);
    }
  }

  /** And nowhere else, when no axis repeats a value. */
  lemma {:induction false} CrossDistinct<A, B>(a: seq<A>, b: seq<B>)
    requires Distinct(a) && Distinct(b)
    ensures Distinct(Cross(a, b))
  {
    CrossLength(a, b);
    forall p, q | 0 <= p < q < |Cross(a, b)|
      ensures Cross(a, b)[p] != Cross(a, b)[q]
    {
      var i, j := Split(p, |a|, |b|);
      var i', j' := Split(q, |a|, |b|);
      CrossAt(a, b, i, j);
      CrossAt(a, b, i', j');
    }
  }

  lemma Split(p: nat, m: nat, n: nat) returns (i: nat, j: nat)
    requires p < m * n
    ensures i < m && j < n && p == i * n + j
  {
    i, j := p / n, p % n;
    assert p == i * n + j;
    if i >= m { Grows(m, i, n); }
  }

  type Tuple = ((((string, string), string), string), (string, string))

  function KeyOf(t: Tuple): CellKey { CellKey(t.0.0.0.0, t.0.0.0.1, t.0.0.1, t.0.1, t.1.0, t.1.1) }

  function Cells(candidates: seq<string>, shots: seq<string>, conditioning: seq<string>, caps: seq<string>,
                 loads: seq<(string, string)>): (r: seq<CellKey>)
  {
    var tuples: seq<Tuple> := Cross(Cross(Cross(Cross(candidates, shots), conditioning), caps), loads);
    seq(|tuples|, i requires 0 <= i < |tuples| => KeyOf(tuples[i]))
  }

  /** The index of a tuple, in mixed radix with the host loads varying fastest. */
  function Index(c: nat, s: nat, k: nat, p: nat, l: nat, shots: nat, conditioning: nat, caps: nat, loads: nat): nat {
    (((c * shots + s) * conditioning + k) * caps + p) * loads + l
  }

  lemma {:induction false} CellsAre(candidates: seq<string>, shots: seq<string>, conditioning: seq<string>,
                                    caps: seq<string>, loads: seq<(string, string)>)
    ensures var cells, tuples := Cells(candidates, shots, conditioning, caps, loads),
        Cross(Cross(Cross(Cross(candidates, shots), conditioning), caps), loads);
      |cells| == |tuples| && forall i :: 0 <= i < |cells| ==> cells[i] == KeyOf(tuples[i])
  {
  }

  /** Every tuple of selected values is the cell at its mixed-radix index, and there are no other cells. */
  lemma CellAt(candidates: seq<string>, shots: seq<string>, conditioning: seq<string>, caps: seq<string>,
               loads: seq<(string, string)>,
               c: nat, s: nat, k: nat, p: nat, l: nat)
    requires c < |candidates| && s < |shots| && k < |conditioning| && p < |caps| && l < |loads|
    ensures var cells, i := Cells(candidates, shots, conditioning, caps, loads),
      Index(c, s, k, p, l, |shots|, |conditioning|, |caps|, |loads|);
      && |cells| == |candidates| * |shots| * |conditioning| * |caps| * |loads| && i < |cells|
      && cells[i] == CellKey(candidates[c], shots[s], conditioning[k], caps[p], loads[l].0, loads[l].1)
  {
    var first := Cross(candidates, shots);
    var second := Cross(first, conditioning);
    var third := Cross(second, caps);
    CellsAre(candidates, shots, conditioning, caps, loads);
    hide Cross, Cells;
    CrossAt(candidates, shots, c, s);
    CrossAt(first, conditioning, c * |shots| + s, k);
    CrossAt(second, caps, (c * |shots| + s) * |conditioning| + k, p);
    CrossAt(third, loads, ((c * |shots| + s) * |conditioning| + k) * |caps| + p, l);
  }

  /** No cell appears twice. */
  lemma CellsDistinct(candidates: seq<string>, shots: seq<string>, conditioning: seq<string>, caps: seq<string>,
                      loads: seq<(string, string)>)
    requires Distinct(candidates) && Distinct(shots) && Distinct(conditioning) && Distinct(caps) && Distinct(loads)
    ensures Distinct(Cells(candidates, shots, conditioning, caps, loads))
  {
    var first := Cross(candidates, shots);
    var second := Cross(first, conditioning);
    var third := Cross(second, caps);
    CrossDistinct(candidates, shots);
    CrossDistinct(first, conditioning);
    CrossDistinct(second, caps);
    CrossDistinct(third, loads);
    var tuples := Cross(third, loads);
    var cells := Cells(candidates, shots, conditioning, caps, loads);
    hide Cross;
    forall i, j | 0 <= i < j < |cells|
      ensures cells[i] != cells[j]
    {
      assert tuples[i] != tuples[j];
    }
  }

  // ----- Providers -----

  function Tokens(requests: seq<Request>): (r: seq<string>)
    ensures |r| == |requests| && forall i :: 0 <= i < |r| ==> r[i] == requests[i].token
  {
    seq(|requests|, i requires 0 <= i < |requests| => requests[i].token)
  }

  function ProviderTokens(providers: seq<Provider>): (r: seq<string>)
    ensures |r| == |providers| && forall i :: 0 <= i < |r| ==> r[i] == providers[i].token
  {
    seq(|providers|, i requires 0 <= i < |providers| => providers[i].token)
  }

  /** What is wrong with the first `n` providers of the protocol. */
  function ProtocolFault(providers: seq<Provider>, n: nat): string
    requires n <= |providers|
  {
    if n == 0 then ""
    else
      var before, p := ProtocolFault(providers, n - 1), providers[n - 1];
      if before != "" then before
      else if p.token == "" then "invalid_value"
      else if p.token in ProviderTokens(providers[..n - 1]) then "protocol_shape"
      else if p.environment == "" then "invalid_value"
      else ""
  }

  /** What is wrong with the first `n` requested providers. */
  function RequestFault(providers: seq<Provider>, requests: seq<Request>, n: nat): string
    requires n <= |requests|
  {
    if n == 0 then ""
    else
      var before, r := RequestFault(providers, requests, n - 1), requests[n - 1];
      if before != "" then before
      else if r.token == "" then "invalid_value"
      else if r.token in Tokens(requests[..n - 1]) then "duplicate_selection"
      else if r.token !in ProviderTokens(providers) then "unknown_selection"
      else if r.limit.Some? && (r.limit.value <= 0 || r.token != "cuda") then "gpu_mem_limit"
      else ""
  }

  function HostFault(r: Request, final: bool): string {
    if r.hostLoads == [] then "empty_selection"
    else if !Distinct(r.hostLoads) then "duplicate_selection"
    else if r.token != "cuda" then (if r.hostLoads != ["not_applicable"] then "host_load" else "")
    else if exists h <- r.hostLoads :: h != "idle" && h != "live_flame" then "host_load"
    else if final && Members(r.hostLoads) != {"idle", "live_flame"} then "host_load"
    else ""
  }

  /** Host loads in the fixed order idle, live_flame, not_applicable. */
  function OrderedHosts(hosts: seq<string>): seq<string> {
    Filter(["idle", "live_flame", "not_applicable"], Members(hosts))
  }

  function Requested(requests: seq<Request>, token: string): Option<Request> {
    if requests == [] then None
    else if requests[|requests| - 1].token == token then Some(requests[|requests| - 1])
    else Requested(requests[..|requests| - 1], token)
  }

  /** The requested providers among the first `n` of the protocol, with their loads in order. */
  function Normalized(providers: seq<Provider>, requests: seq<Request>, n: nat): seq<Request>
    requires n <= |providers|
  {
    if n == 0 then []
    else
      var r := Requested(requests, providers[n - 1].token);
      Normalized(providers, requests, n - 1)
      + if r.None? then [] else [Request(providers[n - 1].token, OrderedHosts(r.value.hostLoads), r.value.limit)]
  }

  function HostsFault(providers: seq<Provider>, requests: seq<Request>, final: bool, n: nat): string
    requires n <= |providers|
  {
    if n == 0 then ""
    else
      var before, r := HostsFault(providers, requests, final, n - 1), Requested(requests, providers[n - 1].token);
      if before != "" then before else if r.None? then "" else HostFault(r.value, final)
  }

  predicate SharesEnvironment(providers: seq<Provider>, requests: seq<Request>, environment: string) {
    && (exists p <- providers :: Requested(requests, p.token).Some?)
    && forall p <- providers :: Requested(requests, p.token).Some? ==> p.environment == environment
  }

  function Loads(normalized: seq<Request>): seq<(string, string)> {
    if normalized == [] then []
    else
      var r := normalized[|normalized| - 1];
      Loads(normalized[..|normalized| - 1]) + LoadsOf(r)
  }

  function LoadsOf(r: Request): (l: seq<(string, string)>)
    ensures |l| == |r.hostLoads| && forall i :: 0 <= i < |l| ==> l[i] == (r.token, r.hostLoads[i])
  {
    seq(|r.hostLoads|, i requires 0 <= i < |r.hostLoads| => (r.token, r.hostLoads[i]))
  }

  function ProviderFault(providers: seq<Provider>, requests: seq<Request>, final: bool, environment: string): string {
    if providers == [] then "protocol_shape"
    else if ProtocolFault(providers, |providers|) != "" then ProtocolFault(providers, |providers|)
    else if requests == [] then "empty_selection"
    else if RequestFault(providers, requests, |requests|) != "" then RequestFault(providers, requests, |requests|)
    else if HostsFault(providers, requests, final, |providers|) != ""
      then HostsFault(providers, requests, final, |providers|)
    else if Normalized(providers, requests, |providers|) == [] then "empty_selection"
    else if !SharesEnvironment(providers, requests, environment) then "environment"
    else ""
  }

  /** `_provider_selection` */
  method ProviderSelection(providers: seq<Provider>, requests: seq<Request>, final: bool, environment: string)
    returns (r: Result<(seq<Request>, seq<(string, string)>)>)
    ensures r == var fault := ProviderFault(providers, requests, final, environment);
      if fault != "" then Failure(fault)
      else Ok((Normalized(providers, requests, |providers|), Loads(Normalized(providers, requests, |providers|))))
    ensures r.Ok? ==>
      && Picks(Tokens(r.value.0), Tokens(requests), ProviderTokens(providers))
      && (forall q <- r.value.0 :: OfRequest(q, requests))
      && Flattened(r.value.1, r.value.0)
  {
    hide Picks, OfRequest, Flattened, Normalized, HostsFault;
    AcceptedProvidersPick(providers, requests, final, environment);
    if providers == [] { return Failure("protocol_shape"); }
    var order: seq<string> := [];
    for i := 0 to |providers|
      invariant order == ProviderTokens(providers[..i]) && ProtocolFault(providers, i) == ""
    {
      var p := providers[i];
      assert providers[..i + 1][..i] == providers[..i];
      if p.token == "" { ProtocolFaultStays(providers, i + 1); return Failure("invalid_value"); }
      if p.token in order { ProtocolFaultStays(providers, i + 1); return Failure("protocol_shape"); }
      if p.environment == "" { ProtocolFaultStays(providers, i + 1); return Failure("invalid_value"); }
      order := order + [p.token];
    }
    if requests == [] { return Failure("empty_selection"); }
    assert providers[..|providers|] == providers;
    var wanted := IndexRequests(providers, requests, order);
    if wanted.Failure? { return Failure(wanted.kind); }
    r := NormalizeProviders(providers, requests, wanted.value, final, environment);
  }

  /** The requested providers by token, once each request is found in order. */
  method IndexRequests(providers: seq<Provider>, requests: seq<Request>, order: seq<string>)
    returns (r: Result<map<string, Request>>)
    requires order == ProviderTokens(providers)
    ensures r.Failure? <==> RequestFault(providers, requests, |requests|) != ""
    ensures r.Failure? ==> r.kind == RequestFault(providers, requests, |requests|)
    ensures r.Ok? ==> forall t :: Requested(requests, t) == if t in r.value then Some(r.value[t]) else None
  {
    var wanted: map<string, Request> := map[];
    for i := 0 to |requests|
      invariant RequestFault(providers, requests, i) == ""
      invariant forall t :: t in wanted <==> t in Tokens(requests[..i])
      invariant forall t :: Requested(requests[..i], t) == if t in wanted then Some(wanted[t]) else None
    {
      var q := requests[i];
      assert requests[..i + 1][..i] == requests[..i] && requests[..i + 1][i] == q;
      assert Tokens(requests[..i + 1]) == Tokens(requests[..i]) + [q.token];
      var fault :=
        if q.token == "" then "invalid_value"
        else if q.token in wanted then "duplicate_selection"
        else if q.token !in order then "unknown_selection"
        else if q.limit.Some? && (q.limit.value <= 0 || q.token != "cuda") then "gpu_mem_limit"
        else "";
      if fault != "" { RequestFaultStays(providers, requests, i + 1); return Failure(fault); }
      wanted := wanted[q.token := q];
    }
    assert requests[..|requests|] == requests;
    return Ok(wanted);
  }

  /** The second half of the selection: hosts in order, provider by provider, and one environment. */
  method NormalizeProviders(providers: seq<Provider>, ghost requests: seq<Request>, wanted: map<string, Request>,
                            final: bool, environment: string)
    returns (r: Result<(seq<Request>, seq<(string, string)>)>)
    requires forall t :: Requested(requests, t) == if t in wanted then Some(wanted[t]) else None
    ensures r ==
      if HostsFault(providers, requests, final, |providers|) != ""
        then Failure(HostsFault(providers, requests, final, |providers|))
      else if Normalized(providers, requests, |providers|) == [] then Failure("empty_selection")
      else if !SharesEnvironment(providers, requests, environment) then Failure("environment")
      else Ok((Normalized(providers, requests, |providers|), Loads(Normalized(providers, requests, |providers|))))
  {
    var normalized: seq<Request> := [];
    var flattened: seq<(string, string)> := [];
    var environments: set<string> := {};
    hide HostFault, OrderedHosts, Requested;
    for i := 0 to |providers|
      invariant HostsFault(providers, requests, final, i) == ""
      invariant normalized == Normalized(providers, requests, i) && flattened == Loads(normalized)
      invariant forall e :: e in environments <==>
        exists k :: 0 <= k < i && providers[k].token in wanted && providers[k].environment == e
    {
      var p := providers[i];
      if p.token in wanted {
        var q := wanted[p.token];
        environments := environments + {p.environment};
        var fault := HostFault(q, final);
        if fault != "" { HostsFaultStays(providers, requests, final, i + 1); return Failure(fault); }
        var entry := Request(p.token, OrderedHosts(q.hostLoads), q.limit);
        assert (normalized + [entry])[..|normalized|] == normalized;
        normalized, flattened := normalized + [entry], flattened + LoadsOf(entry);
      }
    }
    if normalized == [] { return Failure("empty_selection"); }
    OneEnvironment(providers, requests, wanted, environments, environment);
    if environments != {environment} { return Failure("environment"); }
    return Ok((normalized, flattened));
  }

  lemma {:induction false} OneEnvironment(providers: seq<Provider>, requests: seq<Request>,
                                          wanted: map<string, Request>, environments: set<string>, environment: string)
    requires forall t :: Requested(requests, t) == if t in wanted then Some(wanted[t]) else None
    requires forall e :: e in environments <==>
      exists k :: 0 <= k < |providers| && providers[k].token in wanted && providers[k].environment == e
    ensures environments == {environment} <==> SharesEnvironment(providers, requests, environment)
  {
    hide Requested;
    if environments == {environment} {
      assert environment in environments;
      var k :| 0 <= k < |providers| && providers[k].token in wanted && providers[k].environment == environment;
      assert Requested(requests, providers[k].token).Some? && providers[k] in providers;
      forall p <- providers | Requested(requests, p.token).Some?
        ensures p.environment == environment
      {
        assert p.environment in environments;
      }
    }
    if SharesEnvironment(providers, requests, environment) {
      var p :| p in providers && Requested(requests, p.token).Some?;
      assert p.environment in environments;
      forall e | e in environments
        ensures e == environment
      {
      }
      assert environments == {environment};
    }
  }

  lemma {:induction false} ProtocolFaultStays(providers: seq<Provider>, i: nat)
    requires i <= |providers| && ProtocolFault(providers, i) != ""
    ensures ProtocolFault(providers, |providers|) == ProtocolFault(providers, i)
    decreases |providers| - i
  {
    if i < |providers| { ProtocolFaultStays(providers, i + 1); }
  }

  lemma {:induction false} RequestFaultStays(providers: seq<Provider>, requests: seq<Request>, i: nat)
    requires i <= |requests| && RequestFault(providers, requests, i) != ""
    ensures RequestFault(providers, requests, |requests|) == RequestFault(providers, requests, i)
    decreases |requests| - i
  {
    if i < |requests| { RequestFaultStays(providers, requests, i + 1); }
  }

  lemma {:induction false} HostsFaultStays(providers: seq<Provider>, requests: seq<Request>, final: bool, i: nat)
    requires i <= |providers| && HostsFault(providers, requests, final, i) != ""
    ensures HostsFault(providers, requests, final, |providers|) == HostsFault(providers, requests, final, i)
    decreases |providers| - i
  {
    if i < |providers| { HostsFaultStays(providers, requests, final, i + 1); }
  }

  // ----- Candidates -----

  function EntryIds(entries: seq<Entry>): (r: seq<string>)
    ensures |r| == |entries| && forall i :: 0 <= i < |r| ==> r[i] == entries[i].candidate
  {
    seq(|entries|, i requires 0 <= i < |entries| => entries[i].candidate)
  }

  /** What is wrong with the first `n` candidate entries. */
  function EntryFault(protocol: Protocol, entries: seq<Entry>, n: nat): string
    requires n <= |entries|
  {
    if n == 0 then ""
    else
      var before, e := EntryFault(protocol, entries, n - 1), entries[n - 1];
      if before != "" then before
      else if e.candidate == "" then "invalid_value"
      else if e.candidate in EntryIds(entries[..n - 1]) then "duplicate_candidate"
      else if e.candidate !in protocol.candidates then "unknown_candidate"
      else if protocol.v2 && e.eligible && !e.measurable then "candidate_status"
      else if protocol.v2 && e.eligible && e.candidate !in protocol.shippingRoles then "candidate_role"
      else ""
  }

  predicate Admits(protocol: Protocol, e: Entry) { if protocol.v2 then e.measurable else e.eligible }

  function Admitted(protocol: Protocol, entries: seq<Entry>, admitted: bool): set<string> {
    set e | e in entries && Admits(protocol, e) == admitted :: e.candidate
  }

  function IdsFault(ids: seq<string>): string {
    if ids == [] then "protocol_shape"
    else if "" in ids then "invalid_value"
    else if !Distinct(ids) then "protocol_shape"
    else ""
  }

  function OrdersFault(protocol: Protocol, entries: seq<Entry>): string {
    if IdsFault(protocol.candidates) != "" then IdsFault(protocol.candidates)
    else if entries == [] then "candidate_shape"
    else if EntryFault(protocol, entries, |entries|) != "" then EntryFault(protocol, entries, |entries|)
    else if Filter(protocol.candidates, Admitted(protocol, entries, true)) == [] then
      (if protocol.v2 then "no_measurable_candidates" else "no_eligible_candidates")
    else ""
  }

  /** `_candidate_orders` and `_measurement_candidate_orders`: the admitted and the refused candidates,
      both in protocol order. */
  method CandidateOrders(protocol: Protocol, entries: seq<Entry>) returns (r: Result<(seq<string>, seq<string>)>)
    ensures r ==
      if OrdersFault(protocol, entries) != "" then Failure(OrdersFault(protocol, entries))
      else Ok((Filter(protocol.candidates, Admitted(protocol, entries, true)),
               Filter(protocol.candidates, Admitted(protocol, entries, false))))
    ensures r.Ok? ==>
      InProtocolOrder(r.value.0, protocol, entries, true) && InProtocolOrder(r.value.1, protocol, entries, false)
  {
    if OrdersFault(protocol, entries) == "" {
      CandidatesInOrder(protocol, entries, true);
      CandidatesInOrder(protocol, entries, false);
    }
    hide InProtocolOrder, Filter, IdsFault;
    if IdsFault(protocol.candidates) != "" { return Failure(IdsFault(protocol.candidates)); }
    if entries == [] { return Failure("candidate_shape"); }
    var seen, admitted, refused: set<string> := {}, {}, {};
    for i := 0 to |entries|
      invariant EntryFault(protocol, entries, i) == ""
      invariant forall x :: x in seen <==> x in EntryIds(entries[..i])
      invariant admitted == Admitted(protocol, entries[..i], true) && refused == Admitted(protocol, entries[..i], false)
    {
      var e := entries[i];
      assert entries[..i + 1] == entries[..i] + [e];
      assert EntryIds(entries[..i + 1]) == EntryIds(entries[..i]) + [e.candidate];
      var fault :=
        if e.candidate == "" then "invalid_value"
        else if e.candidate in seen then "duplicate_candidate"
        else if e.candidate !in protocol.candidates then "unknown_candidate"
        else if protocol.v2 && e.eligible && !e.measurable then "candidate_status"
        else if protocol.v2 && e.eligible && e.candidate !in protocol.shippingRoles then "candidate_role"
        else "";
      if fault != "" { EntryFaultStays(protocol, entries, i + 1); return Failure(fault); }
      seen := seen + {e.candidate};
      if Admits(protocol, e) { admitted := admitted + {e.candidate}; } else { refused := refused + {e.candidate}; }
    }
    assert entries[..|entries|] == entries;
    var first := Filter(protocol.candidates, admitted);
    if first == [] { return Failure(if protocol.v2 then "no_measurable_candidates" else "no_eligible_candidates"); }
    return Ok((first, Filter(protocol.candidates, refused)));
  }

  lemma {:induction false} EntryFaultStays(protocol: Protocol, entries: seq<Entry>, i: nat)
    requires i <= |entries| && EntryFault(protocol, entries, i) != ""
    ensures EntryFault(protocol, entries, |entries|) == EntryFault(protocol, entries, i)
    decreases |entries| - i
  {
    if i < |entries| { EntryFaultStays(protocol, entries, i + 1); }
  }

  // ----- What a selection must respect -----

  function FirstFault(faults: seq<string>): string {
    if faults == [] then "" else if faults[0] != "" then faults[0] else FirstFault(faults[1..])
  }

  lemma {:induction false} NoFault(faults: seq<string>)
    ensures FirstFault(faults) == "" <==> forall i :: 0 <= i < |faults| ==> faults[i] == ""
  {
    if faults == [] {
    } else {
      NoFault(faults[1..]);
    }
  }

  function EntryOf(entries: seq<Entry>, candidate: string): Option<Entry> {
    if entries == [] then None
    else if entries[|entries| - 1].candidate == candidate then Some(entries[|entries| - 1])
    else EntryOf(entries[..|entries| - 1], candidate)
  }

  function ConstraintOf(constraints: seq<Constraint>, candidate: string): Option<Constraint> {
    if constraints == [] then None
    else if constraints[|constraints| - 1].candidate == candidate then Some(constraints[|constraints| - 1])
    else ConstraintOf(constraints[..|constraints| - 1], candidate)
  }

  function CapOf(caps: seq<Cap>, token: string): Option<Cap> {
    if caps == [] then None
    else if caps[|caps| - 1].token == token then Some(caps[|caps| - 1])
    else CapOf(caps[..|caps| - 1], token)
  }

  function ConstraintIds(constraints: seq<Constraint>): (r: seq<string>)
    ensures |r| == |constraints| && forall i :: 0 <= i < |r| ==> r[i] == constraints[i].candidate
  {
    seq(|constraints|, i requires 0 <= i < |constraints| => constraints[i].candidate)
  }

  /** The first id of a list that is empty or was there before. */
  function NamesFault(ids: seq<string>): string {
    if ids == [] then ""
    else
      var before, id := NamesFault(ids[..|ids| - 1]), ids[|ids| - 1];
      if before != "" then before
      else if id == "" then "invalid_value"
      else if id in ids[..|ids| - 1] then "protocol_shape"
      else ""
  }

  /** Provider evidence of one entry of the v2 protocol. */
  function EvidenceFault(protocol: Protocol, e: Entry): string {
    if e.measurable then
      if e.measurementProviders.None? || e.measurementProviders.value == [] then
        (if ConstraintOf(protocol.constraints, e.candidate).Some? then "provider_unavailable"
          else "measurement_provider")
      else if !Distinct(e.measurementProviders.value) then "measurement_provider"
      else if exists p <- e.measurementProviders.value :: p !in ProviderTokens(protocol.providers)
        then "measurement_provider"
      else ""
    else if e.measurementProviders.Some? then "measurement_provider"
    else ""
  }

  /** How a shot is sized under a cap; `None` when it cannot be. */
  type Sizing = (Shot, Cap) -> Option<(int, int)>

  predicate IsSixteenByNine(shot: Shot) {
    shot.height != 0
    && var ratio := shot.width as real * shot.aspect / shot.height as real;
    -0.000_000_000_001 <= ratio - 16.0 / 9.0 <= 0.000_000_000_001
  }

  predicate ShotFits(required: (int, int), sixteenByNine: bool, shot: Shot, cap: Cap, sizing: Sizing) {
    shot.height != 0 && sizing(shot, cap) == Some(required) && (sixteenByNine ==> IsSixteenByNine(shot))
  }

  function CapFault(protocol: Protocol, constraint: Constraint, token: string, shots: seq<Shot>,
                    sizing: Sizing): string {
    if token !in constraint.caps then "candidate_capability"
    else
      var cap := CapOf(protocol.caps, token);
      if cap.None? || cap.value.lattice != Some(constraint.required) then "candidate_capability"
      else if exists shot <- shots ::
        !ShotFits(constraint.required, constraint.sixteenByNine, shot, cap.value, sizing) then "candidate_geometry"
      else ""
  }

  function CapFaults(protocol: Protocol, constraint: Constraint, caps: seq<string>, shots: seq<Shot>,
                     sizing: Sizing): (r: seq<string>)
    ensures |r| == |caps| && forall i :: 0 <= i < |r| ==> r[i] == CapFault(protocol, constraint, caps[i], shots, sizing)
  {
    seq(|caps|, i requires 0 <= i < |caps| => CapFault(protocol, constraint, caps[i], shots, sizing))
  }

  function ConstraintFault(protocol: Protocol, entries: seq<Entry>, candidate: string, shots: seq<Shot>,
                           caps: seq<string>, providers: seq<string>, sizing: Sizing): string {
    var entry, constraint := EntryOf(entries, candidate), ConstraintOf(protocol.constraints, candidate);
    var measured := if entry.None? then None else entry.value.measurementProviders;
    if constraint.Some? && measured.None? then "provider_unavailable"
    else if measured.Some? && measured.value == [] then "measurement_provider"
    else if measured.Some? && exists p <- providers :: p !in measured.value then "provider_unavailable"
    else if constraint.None? then ""
    else if exists p <- providers :: p !in constraint.value.providers then "candidate_capability"
    else FirstFault(CapFaults(protocol, constraint.value, caps, shots, sizing))
  }

  function ConstraintFaults(protocol: Protocol, entries: seq<Entry>, candidates: seq<string>, shots: seq<Shot>,
                            caps: seq<string>, providers: seq<string>, sizing: Sizing): (r: seq<string>)
    ensures |r| == |candidates| && forall i :: 0 <= i < |r| ==>
      r[i] == ConstraintFault(protocol, entries, candidates[i], shots, caps, providers, sizing)
  {
    seq(|candidates|, i requires 0 <= i < |candidates| =>
      ConstraintFault(protocol, entries, candidates[i], shots, caps, providers, sizing))
  }

  function ProviderOf(providers: seq<Provider>, token: string): Option<Provider> {
    if providers == [] then None
    else if providers[|providers| - 1].token == token then Some(providers[|providers| - 1])
    else ProviderOf(providers[..|providers| - 1], token)
  }

  /** `_validate_provider_caps` */
  predicate CapsSupported(providers: seq<Provider>, tokens: seq<string>, caps: seq<string>) {
    forall t <- tokens, cap <- caps :: var p := ProviderOf(providers, t); p.Some? && cap in p.value.capTokens
  }

  function EvidenceFaults(protocol: Protocol, entries: seq<Entry>): (r: seq<string>)
    ensures |r| == |entries| && forall i :: 0 <= i < |r| ==> r[i] == EvidenceFault(protocol, entries[i])
  {
    seq(|entries|, i requires 0 <= i < |entries| => EvidenceFault(protocol, entries[i]))
  }

  predicate Measured(entries: seq<Entry>, candidate: string, provider: string) {
    var e := EntryOf(entries, candidate);
    e.Some? && e.value.measurementProviders.Some? && provider in e.value.measurementProviders.value
  }

  /** `_validate_v2_measurement_evidence`, then `_validate_candidate_constraints`, then `_validate_provider_caps` */
  function SelectionFault(protocol: Protocol, entries: seq<Entry>, candidates: seq<string>, shots: seq<Shot>,
                          caps: seq<string>, tokens: seq<string>, sizing: Sizing): string {
    if protocol.v2 && FirstFault(EvidenceFaults(protocol, entries)) != ""
      then FirstFault(EvidenceFaults(protocol, entries))
    else if protocol.v2 && exists c <- candidates, t <- tokens :: !Measured(entries, c, t) then "provider_unavailable"
    else if NamesFault(ConstraintIds(protocol.constraints)) != "" then NamesFault(ConstraintIds(protocol.constraints))
    else if FirstFault(ConstraintFaults(protocol, entries, candidates, shots, caps, tokens, sizing)) != "" then
      FirstFault(ConstraintFaults(protocol, entries, candidates, shots, caps, tokens, sizing))
    else if !CapsSupported(protocol.providers, tokens, caps) then "provider_cap"
    else ""
  }

  // ----- The final profile -----

  predicate IsTarget(shot: Shot, caseId: string, width: int, height: int) {
    shot.caseId == caseId && shot.width == width && shot.height == height
    && 1.0 - 0.000_000_000_001 <= shot.aspect <= 1.0 + 0.000_000_000_001
  }

  const FHD := "fhd-1920x1080-par1"
  const UHD := "uhd-3840x2160-par1"

  predicate IsFhd(shot: Shot) { IsTarget(shot, FHD, 1920, 1080) }
  predicate IsUhd(shot: Shot) { IsTarget(shot, UHD, 3840, 2160) }

  function CoverageFault(corpus: seq<Shot>, shots: seq<string>, caps: seq<string>, tokens: seq<string>,
                         final: bool): string {
    if !final then ""
    else if "mp2" !in caps || "cuda" !in tokens then "final_coverage"
    else if !(exists shot <- corpus :: shot.id in shots && IsFhd(shot)) then "final_coverage"
    else if !(exists shot <- corpus :: shot.id in shots && IsUhd(shot)) then "final_coverage"
    else ""
  }

  /** `_validate_final_coverage` */
  method FinalCoverage(corpus: seq<Shot>, shots: seq<string>, caps: seq<string>, tokens: seq<string>, final: bool)
    returns (fault: string)
    ensures fault == CoverageFault(corpus, shots, caps, tokens, final)
  {
    if !final { return ""; }
    if "mp2" !in caps { return "final_coverage"; }
    if "cuda" !in tokens { return "final_coverage"; }
    var foundFhd, foundUhd := false, false;
    for i := 0 to |corpus|
      invariant foundFhd <==> exists k :: 0 <= k < i && corpus[k].id in shots && IsFhd(corpus[k])
      invariant foundUhd <==> exists k :: 0 <= k < i && corpus[k].id in shots && IsUhd(corpus[k])
    {
      if corpus[i].id in shots {
        if IsFhd(corpus[i]) { foundFhd := true; }
        if IsUhd(corpus[i]) { foundUhd := true; }
      }
    }
    hide IsFhd, IsUhd;
    assert foundFhd <==> exists shot <- corpus :: shot.id in shots && IsFhd(shot) by {
      if shot :| shot in corpus && shot.id in shots && IsFhd(shot) { var k :| 0 <= k < |corpus| && corpus[k] == shot; }
    }
    assert foundUhd <==> exists shot <- corpus :: shot.id in shots && IsUhd(shot) by {
      if shot :| shot in corpus && shot.id in shots && IsUhd(shot) { var k :| 0 <= k < |corpus| && corpus[k] == shot; }
    }
    return if foundFhd && foundUhd then "" else "final_coverage";
  }

  // ----- The plan -----

  function ShotIds(corpus: seq<Shot>): (r: seq<string>)
    ensures |r| == |corpus| && forall i :: 0 <= i < |r| ==> r[i] == corpus[i].id
  {
    seq(|corpus|, i requires 0 <= i < |corpus| => corpus[i].id)
  }

  function CorpusFault(corpus: seq<Shot>): string {
    if corpus == [] then "corpus_shape"
    else
      var fault := NamesFault(ShotIds(corpus));
      if fault == "protocol_shape" then "corpus_shape" else fault
  }

  function ShotOf(corpus: seq<Shot>, id: string): Shot
    requires id in ShotIds(corpus)
  {
    if corpus[0].id == id then corpus[0]
    else
      assert id in ShotIds(corpus)[1..] && ShotIds(corpus)[1..] == ShotIds(corpus[1..]);
      ShotOf(corpus[1..], id)
  }

  function ShotsOf(corpus: seq<Shot>, ids: seq<string>): seq<Shot>
    requires forall id <- ids :: id in ShotIds(corpus)
  {
    seq(|ids|, i requires 0 <= i < |ids| => ShotOf(corpus, ids[i]))
  }

  function CapTokens(caps: seq<Cap>): (r: seq<string>)
    ensures |r| == |caps| && forall i :: 0 <= i < |r| ==> r[i] == caps[i].token
  {
    seq(|caps|, i requires 0 <= i < |caps| => caps[i].token)
  }

  /** Everything a plan is made from. */
  datatype Input = Input(protocol: Protocol, corpus: seq<Shot>, entries: seq<Entry>, profile: string,
                         environment: string)

  /** The five axes once they are selected and in order. */
  datatype Axes = Axes(candidates: seq<string>, shots: seq<string>, conditioning: seq<string>, caps: seq<string>,
                       providers: seq<Request>)

  /** The axes a selection stands for, or why it is refused. */
  function Selected(input: Input, selections: Selections): Result<Axes> {
    var protocol, final := input.protocol, input.profile == "final";
    if input.profile !in {"smoke", "screen", "final"} then Failure("profile")
    else if input.environment == "" then Failure("invalid_value")
    else if OrdersFault(protocol, input.entries) != "" then Failure(OrdersFault(protocol, input.entries))
    else
      var admitted, refused := Filter(protocol.candidates, Admitted(protocol, input.entries, true)),
        Filter(protocol.candidates, Admitted(protocol, input.entries, false));
      var candidates := CandidateSelection(selections.candidates, admitted, refused, protocol.v2);
      if candidates.Failure? then Failure(candidates.kind)
      else if CorpusFault(input.corpus) != "" then Failure(CorpusFault(input.corpus))
      else
        var shots := OrderedIds(selections.shots, ShotIds(input.corpus));
        if shots.Failure? then Failure(shots.kind)
        else if IdsFault(protocol.conditioning) != "" then Failure(IdsFault(protocol.conditioning))
        else
          var conditioning := OrderedIds(selections.conditioning, protocol.conditioning);
          if conditioning.Failure? then Failure(conditioning.kind)
          else if IdsFault(CapTokens(protocol.caps)) != "" then Failure(IdsFault(CapTokens(protocol.caps)))
          else
            var caps := OrderedIds(selections.caps, CapTokens(protocol.caps));
            if caps.Failure? then Failure(caps.kind)
            else
              var fault := ProviderFault(protocol.providers, selections.providers, final, input.environment);
              if fault != "" then Failure(fault)
              else
                Ok(Axes(candidates.value, shots.value, conditioning.value, caps.value,
                        Normalized(protocol.providers, selections.providers, |protocol.providers|)))
  }

  /** What the validators say of selected axes. */
  function AxesFault(input: Input, axes: Axes, sizing: Sizing): string
    requires forall id <- axes.shots :: id in ShotIds(input.corpus)
  {
    var fault := SelectionFault(input.protocol, input.entries, axes.candidates, ShotsOf(input.corpus, axes.shots),
                                axes.caps, Tokens(axes.providers), sizing);
    if fault != "" then fault
    else CoverageFault(input.corpus, axes.shots, axes.caps, Tokens(axes.providers), input.profile == "final")
  }

  lemma SelectedShotsExist(input: Input, selections: Selections)
    requires Selected(input, selections).Ok?
    ensures forall id <- Selected(input, selections).value.shots :: id in ShotIds(input.corpus)
  {
    hide OrdersFault, CandidateSelection, ProviderFault, Normalized, IdsFault, CorpusFault, Admitted, ListFault;
  }

  function PlanOf(input: Input, axes: Axes): MatrixPlan {
    var selector := Selector(axes.candidates, axes.shots, axes.conditioning, axes.caps, axes.providers);
    MatrixPlan(selector, Sha256(selector),
               Cells(axes.candidates, axes.shots, axes.conditioning, axes.caps, Loads(axes.providers)),
               Filter(input.protocol.candidates, Admitted(input.protocol, input.entries, false)))
  }

  function Plan(input: Input, selections: Selections, sizing: Sizing): Result<MatrixPlan> {
    var axes := Selected(input, selections);
    if axes.Failure? then Failure(axes.kind)
    else
      SelectedShotsExist(input, selections);
      var fault := AxesFault(input, axes.value, sizing);
      if fault != "" then Failure(fault) else Ok(PlanOf(input, axes.value))
  }

  /** `build_matrix` */
  method BuildMatrix(input: Input, selections: Selections, sizing: Sizing) returns (r: Result<MatrixPlan>)
    ensures r == Plan(input, selections, sizing)
    ensures r.Ok? ==> KeepsOrder(input, selections, r.value)
  {
    if Plan(input, selections, sizing).Ok? { PlanKeepsOrder(input, selections, sizing); }
    hide KeepsOrder, Picks, OfRequest, Flattened, InProtocolOrder;
    var protocol := input.protocol;
    if input.profile !in {"smoke", "screen", "final"} { return Failure("profile"); }
    if input.environment == "" { return Failure("invalid_value"); }
    hide OrdersFault, CandidateSelection, OrderedIds, ProviderFault, SelectionFault, CoverageFault, Cells, Normalized,
      CorpusFault, IdsFault;
    var orders := CandidateOrders(protocol, input.entries);
    if orders.Failure? { return Failure(orders.kind); }
    var (admitted, refused) := orders.value;
    var candidates := CandidateSelection(selections.candidates, admitted, refused, protocol.v2);
    if candidates.Failure? { return Failure(candidates.kind); }
    if CorpusFault(input.corpus) != "" { return Failure(CorpusFault(input.corpus)); }
    var shots := OrderedIds(selections.shots, ShotIds(input.corpus));
    if shots.Failure? { return Failure(shots.kind); }
    if IdsFault(protocol.conditioning) != "" { return Failure(IdsFault(protocol.conditioning)); }
    var conditioning := OrderedIds(selections.conditioning, protocol.conditioning);
    if conditioning.Failure? { return Failure(conditioning.kind); }
    if IdsFault(CapTokens(protocol.caps)) != "" { return Failure(IdsFault(CapTokens(protocol.caps))); }
    var caps := OrderedIds(selections.caps, CapTokens(protocol.caps));
    if caps.Failure? { return Failure(caps.kind); }
    var providers := ProviderSelection(protocol.providers, selections.providers, input.profile == "final",
                                       input.environment);
    if providers.Failure? { return Failure(providers.kind); }
    var (normalized, loads) := providers.value;
    assert Selected(input, selections) == Ok(Axes(candidates.value, shots.value, conditioning.value, caps.value,
                                                  normalized));
    SelectedShotsExist(input, selections);
    var fault := SelectionFault(protocol, input.entries, candidates.value, ShotsOf(input.corpus, shots.value),
                                caps.value, Tokens(normalized), sizing);
    if fault != "" { return Failure(fault); }
    var coverage := FinalCoverage(input.corpus, shots.value, caps.value, Tokens(normalized), input.profile == "final");
    if coverage != "" { return Failure(coverage); }
    var selector := Selector(candidates.value, shots.value, conditioning.value, caps.value, normalized);
    return Ok(MatrixPlan(selector, Sha256(selector),
                         Cells(candidates.value, shots.value, conditioning.value, caps.value, loads), refused));
  }

  // ----- The order of a selection does not matter -----

  /** The same providers with the same limits, and the same loads in any order. */
  ghost predicate SamePick(a: seq<Request>, b: seq<Request>) {
    && multiset(Tokens(a)) == multiset(Tokens(b))
    && forall i, j :: 0 <= i < |a| && 0 <= j < |b| && a[i].token == b[j].token ==> SameRequest(a[i], b[j])
  }

  ghost predicate SameRequest(r: Request, q: Request) {
    r.token == q.token && r.limit == q.limit && multiset(r.hostLoads) == multiset(q.hostLoads)
  }

  ghost predicate RequestOk(providers: seq<Provider>, r: Request) {
    && r.token != "" && r.token in ProviderTokens(providers)
    && (r.limit.Some? ==> r.limit.value > 0 && r.token == "cuda")
  }

  lemma {:induction false} NoRequestFault(providers: seq<Provider>, requests: seq<Request>, n: nat)
    requires n <= |requests|
    ensures RequestFault(providers, requests, n) == "" <==>
      Distinct(Tokens(requests[..n])) && forall i :: 0 <= i < n ==> RequestOk(providers, requests[i])
  {
    if n > 0 {
      hide Distinct;
      NoRequestFault(providers, requests, n - 1);
      var t := Tokens(requests[..n - 1]);
      assert Tokens(requests[..n]) == t + [requests[n - 1].token];
      DistinctAppend(t, requests[n - 1].token);
    } else {
      assert Tokens(requests[..0]) == [];
    }
  }

  lemma {:induction false} RequestedIs(requests: seq<Request>, token: string)
    ensures var r := Requested(requests, token);
      if token in Tokens(requests) then r.Some? && r.value.token == token && r.value in requests else r.None?
  {
    if requests == [] {
    } else {
      var n := |requests| - 1;
      RequestedIs(requests[..n], token);
      assert Tokens(requests) == Tokens(requests[..n]) + [requests[n].token];
    }
  }

  lemma {:induction false} SameRequested(a: seq<Request>, b: seq<Request>, token: string)
    requires SamePick(a, b)
    ensures Requested(a, token).Some? <==> Requested(b, token).Some?
    ensures Requested(a, token).Some? ==> SameRequest(Requested(a, token).value, Requested(b, token).value)
  {
    RequestedIs(a, token);
    RequestedIs(b, token);
    SameMembers(Tokens(a), Tokens(b));
  }

  lemma SameHostFault(r: Request, q: Request, final: bool)
    requires SameRequest(r, q)
    ensures HostFault(r, final) == HostFault(q, final) && OrderedHosts(r.hostLoads) == OrderedHosts(q.hostLoads)
  {
    SameMembers(r.hostLoads, q.hostLoads);
    DistinctIsCounted(r.hostLoads);
    DistinctIsCounted(q.hostLoads);
    assert |r.hostLoads| == |multiset(r.hostLoads)| == |multiset(q.hostLoads)| == |q.hostLoads|;
    if |r.hostLoads| == 1 {
      assert r.hostLoads == [r.hostLoads[0]] && q.hostLoads == [q.hostLoads[0]];
      assert r.hostLoads[0] in q.hostLoads;
    }
  }

  lemma {:induction false} SameNormalized(providers: seq<Provider>, a: seq<Request>, b: seq<Request>, final: bool,
                                          n: nat)
    requires SamePick(a, b) && n <= |providers|
    ensures HostsFault(providers, a, final, n) == HostsFault(providers, b, final, n)
    ensures Normalized(providers, a, n) == Normalized(providers, b, n)
  {
    hide SamePick, HostFault, OrderedHosts, Requested;
    if n > 0 {
      SameNormalized(providers, a, b, final, n - 1);
      var t := providers[n - 1].token;
      SameRequested(a, b, t);
      if Requested(a, t).Some? { SameHostFault(Requested(a, t).value, Requested(b, t).value, final); }
    }
  }

  lemma {:induction false} SameRequestsOk(providers: seq<Provider>, a: seq<Request>, b: seq<Request>)
    requires SamePick(a, b)
    ensures RequestFault(providers, a, |a|) == "" <==> RequestFault(providers, b, |b|) == ""
  {
    assert |a| == |multiset(Tokens(a))| == |multiset(Tokens(b))| == |b|;
    NoRequestFault(providers, a, |a|);
    NoRequestFault(providers, b, |b|);
    assert a[..|a|] == a && b[..|b|] == b;
    DistinctIsCounted(Tokens(a));
    DistinctIsCounted(Tokens(b));
    SameMembers(Tokens(a), Tokens(b));
    hide RequestFault;
    if forall i :: 0 <= i < |a| ==> RequestOk(providers, a[i]) { CarriedOver(providers, a, b); }
    if forall i :: 0 <= i < |b| ==> RequestOk(providers, b[i]) { CarriedOver(providers, b, a); }
  }

  lemma CarriedOver(providers: seq<Provider>, a: seq<Request>, b: seq<Request>)
    requires Members(Tokens(a)) == Members(Tokens(b)) && forall i :: 0 <= i < |a| ==> RequestOk(providers, a[i])
    requires forall i, j :: 0 <= i < |a| && 0 <= j < |b| && a[i].token == b[j].token ==> a[i].limit == b[j].limit
    ensures forall j :: 0 <= j < |b| ==> RequestOk(providers, b[j])
  {
    forall j | 0 <= j < |b|
      ensures RequestOk(providers, b[j])
    {
      assert Tokens(b)[j] in Members(Tokens(a));
      var i :| 0 <= i < |Tokens(a)| && Tokens(a)[i] == b[j].token;
      assert RequestOk(providers, a[i]);
    }
  }

  lemma {:induction false} ProvidersForgetOrder(providers: seq<Provider>, a: seq<Request>, b: seq<Request>, final: bool,
                                                environment: string)
    requires SamePick(a, b)
    ensures ProviderFault(providers, a, final, environment) == "" <==>
      ProviderFault(providers, b, final, environment) == ""
    ensures Normalized(providers, a, |providers|) == Normalized(providers, b, |providers|)
  {
    assert |a| == |multiset(Tokens(a))| == |multiset(Tokens(b))| == |b|;
    SameRequestsOk(providers, a, b);
    SameNormalized(providers, a, b, final, |providers|);
    hide RequestFault, HostsFault, Normalized, ProtocolFault, Requested, SamePick;
    forall p <- providers
      ensures Requested(a, p.token).Some? <==> Requested(b, p.token).Some?
    {
      SameRequested(a, b, p.token);
    }
  }

  ghost predicate SameSelections(a: Selections, b: Selections) {
    && multiset(a.candidates) == multiset(b.candidates) && multiset(a.shots) == multiset(b.shots)
    && multiset(a.conditioning) == multiset(b.conditioning) && multiset(a.caps) == multiset(b.caps)
    && SamePick(a.providers, b.providers)
  }

  lemma SelectedForgetsOrder(input: Input, a: Selections, b: Selections)
    requires SameSelections(a, b)
    ensures Selected(input, a).Ok? <==> Selected(input, b).Ok?
    ensures Selected(input, a).Ok? ==> Selected(input, a) == Selected(input, b)
  {
    hide OrdersFault, CandidateSelection, OrderedIds, ProviderFault, CorpusFault, IdsFault, Normalized, Admitted,
      Filter, SamePick;
    var protocol := input.protocol;
    var admitted, refused := Filter(protocol.candidates, Admitted(protocol, input.entries, true)),
      Filter(protocol.candidates, Admitted(protocol, input.entries, false));
    CandidatesForgetOrder(a.candidates, b.candidates, admitted, refused, protocol.v2);
    OrderedIdsForgetsOrder(a.shots, b.shots, ShotIds(input.corpus));
    OrderedIdsForgetsOrder(a.conditioning, b.conditioning, protocol.conditioning);
    OrderedIdsForgetsOrder(a.caps, b.caps, CapTokens(protocol.caps));
    ProvidersForgetOrder(protocol.providers, a.providers, b.providers, input.profile == "final", input.environment);
  }

  /** Permuting any list of a selection, the loads of a provider included, never turns a plan into a
      refusal or a refusal into a plan, and leaves the selector, its digest and every cell unchanged. */
  lemma PlanForgetsOrder(input: Input, a: Selections, b: Selections, sizing: Sizing)
    requires SameSelections(a, b)
    ensures Plan(input, a, sizing).Ok? <==> Plan(input, b, sizing).Ok?
    ensures Plan(input, a, sizing).Ok? ==> Plan(input, a, sizing) == Plan(input, b, sizing)
  {
    SelectedForgetsOrder(input, a, b);
    hide Selected, AxesFault, PlanOf, SameSelections;
  }

  // ----- The order a selection comes out in -----

  /** `x` stands somewhere before `y`. */
  ghost predicate Before(s: seq<string>, x: string, y: string) {
    exists p, q :: 0 <= p < q < |s| && s[p] == x && s[q] == y
  }

  /** Of any two elements of `r` the earlier one is the earlier one of `s`. */
  ghost predicate InOrder(r: seq<string>, s: seq<string>) {
    forall i, j :: 0 <= i < j < |r| ==> Before(s, r[i], r[j])
  }

  /** Exactly the requested ids, each once, in the order they are available in. */
  ghost predicate Picks(picked: seq<string>, requested: seq<string>, available: seq<string>) {
    Distinct(picked) && (forall x :: x in picked <==> x in requested) && InOrder(picked, available)
  }

  /** There is only one such list. */
  lemma {:induction false} OnePick(a: seq<string>, b: seq<string>, requested: seq<string>, available: seq<string>)
    requires Distinct(available) && Picks(a, requested, available) && Picks(b, requested, available)
    ensures a == b
  {
    if a == [] || b == [] {
      BothEmpty(a, b);
    } else {
      FirstIsFirst(a, b, available);
      TailPicks(a, available);
      TailPicks(b, available);
      OnePick(a[1..], b[1..], a[1..], available);
      assert a == [a[0]] + a[1..] && b == [b[0]] + b[1..];
    }
  }

  lemma HasFirst(a: seq<string>)
    ensures a != [] ==> exists x :: x in a
  {
    if a != [] { assert a[0] in a; }
  }

  lemma BothEmpty(a: seq<string>, b: seq<string>)
    requires (a == [] || b == []) && forall x :: x in a <==> x in b
    ensures a == b
  {
    HasFirst(a);
    HasFirst(b);
  }

  lemma BeforeOneWay(s: seq<string>, x: string, y: string)
    requires Distinct(s) && Before(s, x, y)
    ensures !Before(s, y, x)
  {
  }

  lemma FirstIsFirst(a: seq<string>, b: seq<string>, available: seq<string>)
    requires a != [] && b != [] && Distinct(available) && InOrder(a, available) && InOrder(b, available)
    requires forall x :: x in a <==> x in b
    ensures a[0] == b[0]
  {
    hide Before;
    assert b[0] in b && a[0] in a;
    var i :| 0 <= i < |a| && a[i] == b[0];
    var j :| 0 <= j < |b| && b[j] == a[0];
    if Before(available, a[0], b[0]) { BeforeOneWay(available, a[0], b[0]); }
  }

  lemma TailPicks(a: seq<string>, available: seq<string>)
    requires a != [] && Distinct(a) && InOrder(a, available)
    ensures Picks(a[1..], a[1..], available) && forall x :: x in a[1..] <==> x in a && x != a[0]
  {
    hide Before;
    forall i, j | 0 <= i < j < |a| - 1
      ensures Before(available, a[1..][i], a[1..][j])
    {
      assert Before(available, a[i + 1], a[j + 1]);
    }
    forall x
      ensures x in a[1..] <==> x in a && x != a[0]
    {
      assert a == [a[0]] + a[1..];
    }
  }

  lemma BeforeStays(s: seq<string>, more: seq<string>, x: string, y: string)
    requires Before(s, x, y)
    ensures Before(s + more, x, y)
  {
    var p, q :| 0 <= p < q < |s| && s[p] == x && s[q] == y;
    assert (s + more)[p] == x && (s + more)[q] == y;
  }

  lemma BeforeLast(s: seq<string>, x: string, y: string)
    requires x in s
    ensures Before(s + [y], x, y)
  {
    var p :| 0 <= p < |s| && s[p] == x;
    assert (s + [y])[p] == x && (s + [y])[|s|] == y;
  }

  lemma OneMoreInOrder(r: seq<string>, s: seq<string>, x: string, taken: bool)
    requires InOrder(r, s) && forall y <- r :: y in s
    ensures InOrder(if taken then r + [x] else r, s + [x])
  {
    hide Before;
    var t := if taken then r + [x] else r;
    forall i, j | 0 <= i < j < |t|
      ensures Before(s + [x], t[i], t[j])
    {
      if j < |r| { BeforeStays(s, [x], r[i], r[j]); } else { BeforeLast(s, r[i], x); }
    }
  }

  lemma {:induction false} FilterInOrder(s: seq<string>, keep: set<string>)
    ensures InOrder(Filter(s, keep), s)
  {
    if s == [] {
    } else {
      var n := |s| - 1;
      FilterInOrder(s[..n], keep);
      hide InOrder;
      assert s == s[..n] + [s[n]];
      OneMoreInOrder(Filter(s[..n], keep), s[..n], s[n], s[n] in keep);
    }
  }

  lemma InOrderTransitive(a: seq<string>, b: seq<string>, c: seq<string>)
    requires InOrder(a, b) && InOrder(b, c)
    ensures InOrder(a, c)
  {
    forall i, j | 0 <= i < j < |a|
      ensures Before(c, a[i], a[j])
    {
      assert Before(b, a[i], a[j]);
    }
  }

  /** What `_ordered_ids` returns. */
  lemma OrderedIdsPick(requested: seq<string>, available: seq<string>)
    requires Distinct(available) && OrderedIds(requested, available).Ok?
    ensures Picks(OrderedIds(requested, available).value, requested, available)
  {
    FilterDistinct(available, Members(requested));
    FilterInOrder(available, Members(requested));
  }

  /** The candidates the entries admit, or those they refuse, in the order of the protocol. */
  ghost predicate InProtocolOrder(ids: seq<string>, protocol: Protocol, entries: seq<Entry>, admitted: bool) {
    && Distinct(ids) && InOrder(ids, protocol.candidates)
    && forall x :: x in ids <==> exists e <- entries :: e.candidate == x && Admits(protocol, e) == admitted
  }

  lemma {:induction false} EntriesKnown(protocol: Protocol, entries: seq<Entry>, n: nat)
    requires n <= |entries| && EntryFault(protocol, entries, n) == ""
    ensures forall i :: 0 <= i < n ==> entries[i].candidate in protocol.candidates
  {
    if n == 0 {
    } else {
      EntriesKnown(protocol, entries, n - 1);
    }
  }

  lemma CandidatesInOrder(protocol: Protocol, entries: seq<Entry>, admitted: bool)
    requires OrdersFault(protocol, entries) == ""
    ensures InProtocolOrder(Filter(protocol.candidates, Admitted(protocol, entries, admitted)), protocol, entries,
                            admitted)
  {
    var keep := Admitted(protocol, entries, admitted);
    EntriesKnown(protocol, entries, |entries|);
    FilterDistinct(protocol.candidates, keep);
    FilterInOrder(protocol.candidates, keep);
    hide Filter, EntryFault;
    var ids := Filter(protocol.candidates, keep);
    forall x
      ensures x in ids <==> exists e <- entries :: e.candidate == x && Admits(protocol, e) == admitted
    {
      if e :| e in entries && e.candidate == x && Admits(protocol, e) == admitted {
        var i :| 0 <= i < |entries| && entries[i] == e;
        assert x in protocol.candidates;
      }
    }
  }

  const HOST_LOADS := ["idle", "live_flame", "not_applicable"]

  /** A selected provider: as it was requested, with its loads in the fixed order. */
  ghost predicate OfRequest(q: Request, requests: seq<Request>) {
    exists r <- requests :: r.token == q.token && r.limit == q.limit && Picks(q.hostLoads, r.hostLoads, HOST_LOADS)
  }

  lemma HostsPick(r: Request, final: bool)
    requires HostFault(r, final) == ""
    ensures Picks(OrderedHosts(r.hostLoads), r.hostLoads, HOST_LOADS)
  {
    HostsDistinct(r.hostLoads);
    FilterInOrder(HOST_LOADS, Members(r.hostLoads));
    hide Filter;
    var picked := OrderedHosts(r.hostLoads);
    forall x
      ensures x in picked <==> x in r.hostLoads
    {
      assert HOST_LOADS[0] == "idle" && HOST_LOADS[1] == "live_flame" && HOST_LOADS[2] == "not_applicable";
      if x in r.hostLoads { assert x in HOST_LOADS; }
    }
  }

  lemma NothingInOrder()
    ensures InOrder([], [])
  {
  }

  /** The first `n` providers of the protocol that were requested, in the order of the protocol. */
  lemma {:induction false} NormalizedInOrder(providers: seq<Provider>, requests: seq<Request>, final: bool, n: nat)
    requires n <= |providers| && HostsFault(providers, requests, final, n) == ""
    ensures var normalized := Normalized(providers, requests, n);
      && InOrder(Tokens(normalized), ProviderTokens(providers[..n]))
      && (forall x :: x in Tokens(normalized) <==> x in ProviderTokens(providers[..n]) && x in Tokens(requests))
      && forall q <- normalized :: OfRequest(q, requests)
  {
    hide OrderedHosts, HostFault, Requested, Picks, InOrder;
    if n == 0 {
      NothingInOrder();
    } else {
      NormalizedInOrder(providers, requests, final, n - 1);
      var t, done := providers[n - 1].token, Normalized(providers, requests, n - 1);
      var before := ProviderTokens(providers[..n - 1]);
      assert ProviderTokens(providers[..n]) == before + [t];
      RequestedIs(requests, t);
      var r := Requested(requests, t);
      if r.Some? {
        HostsPick(r.value, final);
        var entry := Request(t, OrderedHosts(r.value.hostLoads), r.value.limit);
        assert OfRequest(entry, requests);
        assert Normalized(providers, requests, n) == done + [entry];
        assert Tokens(done + [entry]) == Tokens(done) + [t];
        OneMoreInOrder(Tokens(done), before, t, true);
      } else {
        assert Normalized(providers, requests, n) == done;
        OneMoreInOrder(Tokens(done), before, t, false);
      }
    }
  }

  /** Where the loads of provider `n` start. */
  function Offset(normalized: seq<Request>, n: nat): nat
    requires n <= |normalized|
  {
    if n == 0 then 0 else Offset(normalized, n - 1) + |normalized[n - 1].hostLoads|
  }

  /** Load `h` of provider `a` is where it belongs. */
  ghost predicate LoadAt(loads: seq<(string, string)>, normalized: seq<Request>, a: nat, h: nat)
    requires a < |normalized| && h < |normalized[a].hostLoads|
  {
    && Offset(normalized, a) + h < |loads|
    && loads[Offset(normalized, a) + h] == (normalized[a].token, normalized[a].hostLoads[h])
  }

  /** Provider by provider, each load of each, and nothing else. */
  ghost predicate Flattened(loads: seq<(string, string)>, normalized: seq<Request>) {
    && |loads| == Offset(normalized, |normalized|)
    && forall a: nat, h: nat :: a < |normalized| && h < |normalized[a].hostLoads| ==> LoadAt(loads, normalized, a, h)
  }

  lemma {:induction false} OffsetOfFront(normalized: seq<Request>, m: nat, n: nat)
    requires n <= m <= |normalized|
    ensures Offset(normalized[..m], n) == Offset(normalized, n)
  {
    if n == 0 {
    } else {
      OffsetOfFront(normalized, m, n - 1);
    }
  }

  lemma {:induction false} LoadsFlattened(normalized: seq<Request>)
    ensures Flattened(Loads(normalized), normalized)
  {
    if normalized == [] {
    } else {
      var n := |normalized| - 1;
      var front, loads := normalized[..n], Loads(normalized);
      LoadsFlattened(front);
      OffsetOfFront(normalized, n, n);
      assert loads == Loads(front) + LoadsOf(normalized[n]);
      assert |loads| == Offset(front, n) + |normalized[n].hostLoads| == Offset(normalized, n + 1);
      hide Loads, LoadsOf;
      forall a: nat, h: nat | a < |normalized| && h < |normalized[a].hostLoads|
        ensures LoadAt(loads, normalized, a, h)
      {
        if a < n {
          OffsetOfFront(normalized, n, a);
          assert LoadAt(Loads(front), front, a, h);
        }
      }
    }
  }

  /** What `_provider_selection` accepts comes out as it was requested, in the order of the protocol. */
  lemma {:induction false} ProvidersPick(providers: seq<Provider>, requests: seq<Request>, final: bool,
                                         environment: string)
    requires ProviderFault(providers, requests, final, environment) == ""
    ensures var normalized := Normalized(providers, requests, |providers|);
      && Picks(Tokens(normalized), Tokens(requests), ProviderTokens(providers))
      && (forall q <- normalized :: OfRequest(q, requests))
      && Flattened(Loads(normalized), normalized)
  {
    var normalized := Normalized(providers, requests, |providers|);
    assert providers[..|providers|] == providers && requests[..|requests|] == requests;
    NormalizedInOrder(providers, requests, final, |providers|);
    NoRequestFault(providers, requests, |requests|);
    ProvidersDistinct(providers, |providers|);
    LoadsFlattened(normalized);
    hide Normalized, HostsFault, RequestFault, ProtocolFault, SharesEnvironment, Flattened;
    forall x | x in Tokens(requests)
      ensures x in ProviderTokens(providers)
    {
      var i :| 0 <= i < |requests| && Tokens(requests)[i] == x;
      assert RequestOk(providers, requests[i]);
    }
    NormalizedDistinct(providers, requests, |providers|);
  }

  lemma {:induction false} AcceptedProvidersPick(providers: seq<Provider>, requests: seq<Request>, final: bool,
                                                 environment: string)
    ensures var normalized := Normalized(providers, requests, |providers|);
      ProviderFault(providers, requests, final, environment) == "" ==>
        && Picks(Tokens(normalized), Tokens(requests), ProviderTokens(providers))
        && (forall q <- normalized :: OfRequest(q, requests))
        && Flattened(Loads(normalized), normalized)
  {
    if ProviderFault(providers, requests, final, environment) == "" {
      ProvidersPick(providers, requests, final, environment);
    }
  }

  lemma {:induction false} NormalizedDistinct(providers: seq<Provider>, requests: seq<Request>, n: nat)
    requires n <= |providers| && Distinct(ProviderTokens(providers[..n]))
    ensures Distinct(Tokens(Normalized(providers, requests, n)))
    ensures forall x <- Tokens(Normalized(providers, requests, n)) :: x in ProviderTokens(providers[..n])
  {
    hide OrderedHosts, Requested;
    if n == 0 {
    } else {
      var t, before := providers[n - 1].token, ProviderTokens(providers[..n - 1]);
      assert ProviderTokens(providers[..n]) == before + [t];
      DistinctAppend(before, t);
      NormalizedDistinct(providers, requests, n - 1);
      var done, r := Normalized(providers, requests, n - 1), Requested(requests, t);
      if r.Some? {
        var entry := Request(t, OrderedHosts(r.value.hostLoads), r.value.limit);
        assert Tokens(done + [entry]) == Tokens(done) + [t];
        DistinctAppend(Tokens(done), t);
      }
    }
  }

  /** Every axis of a plan holds exactly what was requested, in the order of the protocol or the corpus, and
      the refused candidates are listed in protocol order too. */
  ghost predicate KeepsOrder(input: Input, selections: Selections, plan: MatrixPlan) {
    var protocol, selector := input.protocol, plan.selector;
    && Picks(selector.candidates, selections.candidates, protocol.candidates)
    && Picks(selector.shots, selections.shots, ShotIds(input.corpus))
    && Picks(selector.conditioning, selections.conditioning, protocol.conditioning)
    && Picks(selector.caps, selections.caps, CapTokens(protocol.caps))
    && Picks(Tokens(selector.providers), Tokens(selections.providers), ProviderTokens(protocol.providers))
    && (forall q <- selector.providers :: OfRequest(q, selections.providers))
    && InProtocolOrder(plan.excluded, protocol, input.entries, false)
  }

  lemma PlanKeepsOrder(input: Input, selections: Selections, sizing: Sizing)
    requires Plan(input, selections, sizing).Ok?
    ensures KeepsOrder(input, selections, Plan(input, selections, sizing).value)
  {
    hide AxesFault, Picks, OfRequest, InProtocolOrder, ProviderFault, OrdersFault, CorpusFault, IdsFault, Cells, Loads,
      OrderedIds, CandidateSelection, Admitted;
    AxesPick(input, selections);
  }

  lemma AxesPick(input: Input, selections: Selections)
    requires Selected(input, selections).Ok?
    ensures var axes, protocol := Selected(input, selections).value, input.protocol;
      && Picks(axes.candidates, selections.candidates, protocol.candidates)
      && Picks(axes.shots, selections.shots, ShotIds(input.corpus))
      && Picks(axes.conditioning, selections.conditioning, protocol.conditioning)
      && Picks(axes.caps, selections.caps, CapTokens(protocol.caps))
      && Picks(Tokens(axes.providers), Tokens(selections.providers), ProviderTokens(protocol.providers))
      && (forall q <- axes.providers :: OfRequest(q, selections.providers))
      && InProtocolOrder(Filter(protocol.candidates, Admitted(protocol, input.entries, false)), protocol,
                         input.entries, false)
  {
    hide Picks, OfRequest, InProtocolOrder, ProviderFault, OrdersFault, OrderedIds, CandidateSelection, Admitted,
      Filter,
      Normalized, NamesFault, Distinct;
    var protocol := input.protocol;
    CandidatesInOrder(protocol, input.entries, false);
    CandidatesPick(protocol, input.entries, selections.candidates);
    NamesDistinct(ShotIds(input.corpus));
    OrderedIdsPick(selections.shots, ShotIds(input.corpus));
    OrderedIdsPick(selections.conditioning, protocol.conditioning);
    OrderedIdsPick(selections.caps, CapTokens(protocol.caps));
    ProvidersPick(protocol.providers, selections.providers, input.profile == "final", input.environment);
  }

  lemma CandidatesPick(protocol: Protocol, entries: seq<Entry>, requested: seq<string>)
    requires OrdersFault(protocol, entries) == ""
    ensures var admitted, refused := Filter(protocol.candidates, Admitted(protocol, entries, true)),
        Filter(protocol.candidates, Admitted(protocol, entries, false));
      var r := CandidateSelection(requested, admitted, refused, protocol.v2);
      r.Ok? ==> Picks(r.value, requested, protocol.candidates)
  {
    var admitted, refused := Filter(protocol.candidates, Admitted(protocol, entries, true)),
      Filter(protocol.candidates, Admitted(protocol, entries, false));
    CandidatesInOrder(protocol, entries, true);
    NoCandidateFault(requested, admitted, refused, protocol.v2);
    var picked := Filter(admitted, Members(requested));
    FilterDistinct(admitted, Members(requested));
    FilterInOrder(admitted, Members(requested));
    InOrderTransitive(picked, admitted, protocol.candidates);
    hide Filter, OrdersFault, CandidateFault, Admitted;
  }

  // ----- What a plan contains -----

  lemma {:induction false} NamesDistinct(ids: seq<string>)
    requires NamesFault(ids) == ""
    ensures Distinct(ids)
  {
    if ids == [] {
    } else {
      NamesDistinct(ids[..|ids| - 1]);
    }
  }

  lemma {:induction false} ProvidersDistinct(providers: seq<Provider>, n: nat)
    requires n <= |providers| && ProtocolFault(providers, n) == ""
    ensures Distinct(ProviderTokens(providers[..n]))
  {
    if n == 0 {
    } else {
      ProvidersDistinct(providers, n - 1);
      assert ProviderTokens(providers[..n]) == ProviderTokens(providers[..n - 1]) + [providers[n - 1].token];
    }
  }

  lemma HostsDistinct(hosts: seq<string>)
    ensures Distinct(OrderedHosts(hosts))
  {
    assert Distinct(["idle", "live_flame", "not_applicable"]);
    FilterDistinct(["idle", "live_flame", "not_applicable"], Members(hosts));
  }

  /** Loads of different providers, in order, never repeat. */
  lemma {:induction false} LoadsDistinct(providers: seq<Provider>, requests: seq<Request>, n: nat)
    requires n <= |providers| && Distinct(ProviderTokens(providers[..n]))
    ensures var l := Loads(Normalized(providers, requests, n));
      Distinct(l) && forall i :: 0 <= i < |l| ==> l[i].0 in ProviderTokens(providers[..n])
  {
    hide OrderedHosts, Requested, LoadsOf;
    if n > 0 {
      var t := providers[n - 1].token;
      var before := ProviderTokens(providers[..n - 1]);
      assert ProviderTokens(providers[..n]) == before + [t];
      DistinctAppend(before, t);
      LoadsDistinct(providers, requests, n - 1);
      var r, done := Requested(requests, t), Normalized(providers, requests, n - 1);
      if r.Some? {
        var entry := Request(t, OrderedHosts(r.value.hostLoads), r.value.limit);
        LoadsNext(done, entry);
        HostsDistinct(r.value.hostLoads);
        LoadsApart(Loads(done), LoadsOf(entry), before, entry);
        assert Normalized(providers, requests, n) == done + [entry];
      } else {
        assert Normalized(providers, requests, n) == done;
      }
    }
  }

  lemma {:induction false} LoadsNext(done: seq<Request>, entry: Request)
    ensures Loads(done + [entry]) == Loads(done) + LoadsOf(entry)
  {
    assert (done + [entry])[..|done|] == done;
  }

  lemma LoadsApart(a: seq<(string, string)>, b: seq<(string, string)>, tokens: seq<string>, entry: Request)
    requires Distinct(a) && (forall i :: 0 <= i < |a| ==> a[i].0 in tokens) && entry.token !in tokens
    requires b == LoadsOf(entry) && Distinct(entry.hostLoads)
    ensures Distinct(a + b) && forall i :: 0 <= i < |a + b| ==> (a + b)[i].0 in tokens + [entry.token]
  {
  }

  /** Where the axes of an admitted selection come from. */
  lemma SelectedAxes(input: Input, selections: Selections)
    requires Selected(input, selections).Ok?
    ensures var protocol, axes := input.protocol, Selected(input, selections).value;
      && axes.candidates == Filter(Filter(protocol.candidates, Admitted(protocol, input.entries, true)),
                                   Members(selections.candidates))
      && axes.shots == Filter(ShotIds(input.corpus), Members(selections.shots))
      && axes.conditioning == Filter(protocol.conditioning, Members(selections.conditioning))
      && axes.caps == Filter(CapTokens(protocol.caps), Members(selections.caps))
      && axes.providers == Normalized(protocol.providers, selections.providers, |protocol.providers|)
    ensures var protocol := input.protocol;
      && OrdersFault(protocol, input.entries) == "" && CorpusFault(input.corpus) == ""
      && IdsFault(protocol.conditioning) == "" && IdsFault(CapTokens(protocol.caps)) == ""
      && ProviderFault(protocol.providers, selections.providers, input.profile == "final", input.environment) == ""
  {
    hide OrdersFault, ListFault, CandidateFault, ProviderFault, CorpusFault, IdsFault, Normalized, Admitted, Filter,
      CapTokens, ShotIds, Members;
  }

  /** The axes of an admitted selection repeat nothing. */
  lemma AxesDistinct(input: Input, selections: Selections)
    requires Selected(input, selections).Ok?
    ensures var axes := Selected(input, selections).value;
      && Distinct(axes.candidates) && Distinct(axes.shots) && Distinct(axes.conditioning) && Distinct(axes.caps)
      && Distinct(Loads(axes.providers))
  {
    SelectedAxes(input, selections);
    hide Selected, Normalized, Distinct, Filter, Admitted, Members, ProtocolFault, RequestFault, HostsFault, NamesFault,
      EntryFault, Loads;
    var protocol := input.protocol;
    var n := |protocol.providers|;
    FilterDistinct(protocol.candidates, Admitted(protocol, input.entries, true));
    FilterDistinct(Filter(protocol.candidates, Admitted(protocol, input.entries, true)),
                   Members(selections.candidates));
    NamesDistinct(ShotIds(input.corpus));
    FilterDistinct(ShotIds(input.corpus), Members(selections.shots));
    FilterDistinct(protocol.conditioning, Members(selections.conditioning));
    FilterDistinct(CapTokens(protocol.caps), Members(selections.caps));
    ProvidersDistinct(protocol.providers, n);
    assert protocol.providers[..n] == protocol.providers;
    LoadsDistinct(protocol.providers, selections.providers, n);
  }

  /** A plan holds each tuple of selected values exactly once, at its mixed-radix index. */
  lemma PlanEnumerates(input: Input, selections: Selections, sizing: Sizing, c: nat, s: nat, k: nat, p: nat, l: nat)
    requires Plan(input, selections, sizing).Ok?
    requires var axes := Selected(input, selections).value;
      c < |axes.candidates| && s < |axes.shots| && k < |axes.conditioning| && p < |axes.caps| &&
        l < |Loads(axes.providers)|
    ensures var plan, axes := Plan(input, selections, sizing).value, Selected(input, selections).value;
      var i, load := Index(c, s, k, p, l, |axes.shots|, |axes.conditioning|, |axes.caps|, |Loads(axes.providers)|),
        Loads(axes.providers)[l];
      && |plan.cells| == |axes.candidates| * |axes.shots| * |axes.conditioning| * |axes.caps| * |Loads(axes.providers)|
      && Distinct(plan.cells) && i < |plan.cells|
      && plan.cells[i] == CellKey(axes.candidates[c], axes.shots[s], axes.conditioning[k], axes.caps[p], load.0, load.1)
  {
    var axes := Selected(input, selections).value;
    hide Selected, AxesFault, Cells, Loads, Index;
    AxesDistinct(input, selections);
    CellsDistinct(axes.candidates, axes.shots, axes.conditioning, axes.caps, Loads(axes.providers));
    CellAt(axes.candidates, axes.shots, axes.conditioning, axes.caps, Loads(axes.providers), c, s, k, p, l);
  }

  lemma CellPresent(candidates: seq<string>, shots: seq<string>, conditioning: seq<string>, caps: seq<string>,
                    loads: seq<(string, string)>, key: CellKey)
    requires key.candidate in candidates && key.shot in shots && key.conditioning in conditioning && key.cap in caps
    requires (key.provider, key.hostLoad) in loads
    ensures key in Cells(candidates, shots, conditioning, caps, loads)
  {
    var c :| 0 <= c < |candidates| && candidates[c] == key.candidate;
    var s :| 0 <= s < |shots| && shots[s] == key.shot;
    var k :| 0 <= k < |conditioning| && conditioning[k] == key.conditioning;
    var p :| 0 <= p < |caps| && caps[p] == key.cap;
    var l :| 0 <= l < |loads| && loads[l] == (key.provider, key.hostLoad);
    hide Cells, Index;
    CellAt(candidates, shots, conditioning, caps, loads, c, s, k, p, l);
  }

  lemma {:induction false} LoadPresent(normalized: seq<Request>, r: Request, host: string)
    requires r in normalized && host in r.hostLoads
    ensures (r.token, host) in Loads(normalized)
  {
    var last := normalized[|normalized| - 1];
    if r == last {
      var i :| 0 <= i < |r.hostLoads| && r.hostLoads[i] == host;
      assert LoadsOf(r)[i] == (r.token, host);
    } else {
      assert r in normalized[..|normalized| - 1];
      LoadPresent(normalized[..|normalized| - 1], r, host);
    }
  }

  lemma BothLoads(r: Request)
    requires r.token == "cuda" && HostFault(r, true) == ""
    ensures "idle" in OrderedHosts(r.hostLoads) && "live_flame" in OrderedHosts(r.hostLoads)
  {
    assert "idle" in Members(r.hostLoads) && "live_flame" in Members(r.hostLoads);
    assert ["idle", "live_flame", "not_applicable"][0] == "idle" &&
      ["idle", "live_flame", "not_applicable"][1] == "live_flame";
  }

  /** A selected CUDA of the final profile runs under both host loads. */
  lemma {:induction false} FinalCuda(providers: seq<Provider>, requests: seq<Request>, n: nat)
    requires n <= |providers| && HostsFault(providers, requests, true, n) == "" &&
      "cuda" in Tokens(Normalized(providers, requests, n))
    ensures exists r ::
      r in Normalized(providers, requests, n) && r.token == "cuda" && "idle" in r.hostLoads &&
        "live_flame" in r.hostLoads
  {
    hide Requested, Distinct, OrderedHosts;
    var t := providers[n - 1].token;
    var r, done := Requested(requests, t), Normalized(providers, requests, n - 1);
    if r.None? || "cuda" in Tokens(done) {
      if r.Some? { assert Tokens(Normalized(providers, requests, n)) == Tokens(done) + [t]; }
      FinalCuda(providers, requests, n - 1);
    } else {
      RequestedIs(requests, t);
      var entry := Request(t, OrderedHosts(r.value.hostLoads), r.value.limit);
      BothLoads(r.value);
      assert Tokens(Normalized(providers, requests, n)) == Tokens(done) + [t];
      assert entry in Normalized(providers, requests, n);
    }
  }

  /** The digest names the plan: two plans share it exactly when their normalised selections are equal, whatever
      they were made from, and then they have the same cells in the same places. */
  lemma DigestNamesPlan(input: Input, selections: Selections, sizing: Sizing,
                        input': Input, selections': Selections, sizing': Sizing)
    requires Plan(input, selections, sizing).Ok? && Plan(input', selections', sizing').Ok?
    ensures var a, b := Plan(input, selections, sizing).value, Plan(input', selections', sizing').value;
      (a.digest == b.digest <==> a.selector == b.selector) && (a.digest == b.digest ==> a.cells == b.cells)
  {
    hide Selected, AxesFault, Cells, Loads, Filter;
  }

  /** A `final` plan has, for every selected candidate and conditioning, an FHD and a UHD cell at mp2 on
      CUDA under both host loads. */
  lemma FinalPlanCovers(input: Input, selections: Selections, sizing: Sizing, candidate: string, conditioning: string,
                        host: string)
    requires Plan(input, selections, sizing).Ok? && input.profile == "final"
    requires var plan := Plan(input, selections, sizing).value;
      candidate in plan.selector.candidates && conditioning in plan.selector.conditioning
    requires host == "idle" || host == "live_flame"
    ensures var plan := Plan(input, selections, sizing).value;
      && (exists fhd <- input.corpus ::
           IsFhd(fhd) && CellKey(candidate, fhd.id, conditioning, "mp2", "cuda", host) in plan.cells)
      && (exists uhd <- input.corpus ::
           IsUhd(uhd) && CellKey(candidate, uhd.id, conditioning, "mp2", "cuda", host) in plan.cells)
  {
    var axes := Selected(input, selections).value;
    SelectedAxes(input, selections);
    hide Selected, SelectionFault, Cells, Loads, Normalized, IsFhd, IsUhd, OrdersFault, CorpusFault, IdsFault,
      HostsFault, RequestFault, ProtocolFault;
    FinalCuda(input.protocol.providers, selections.providers, |input.protocol.providers|);
    var r :| r in axes.providers && r.token == "cuda" && "idle" in r.hostLoads && "live_flame" in r.hostLoads;
    LoadPresent(axes.providers, r, host);
    var fhd :| fhd in input.corpus && fhd.id in axes.shots && IsFhd(fhd);
    var uhd :| uhd in input.corpus && uhd.id in axes.shots && IsUhd(uhd);
    CellPresent(axes.candidates, axes.shots, axes.conditioning, axes.caps, Loads(axes.providers),
                CellKey(candidate, fhd.id, conditioning, "mp2", "cuda", host));
    CellPresent(axes.candidates, axes.shots, axes.conditioning, axes.caps, Loads(axes.providers),
                CellKey(candidate, uhd.id, conditioning, "mp2", "cuda", host));
  }

  lemma CellParts(candidates: seq<string>, shots: seq<string>, conditioning: seq<string>, caps: seq<string>,
                  loads: seq<(string, string)>, key: CellKey)
    requires key in Cells(candidates, shots, conditioning, caps, loads)
    ensures key.candidate in candidates && key.shot in shots && key.conditioning in conditioning && key.cap in caps
    ensures (key.provider, key.hostLoad) in loads
  {
    var first := Cross(candidates, shots);
    var second := Cross(first, conditioning);
    var third := Cross(second, caps);
    var tuples: seq<Tuple> := Cross(third, loads);
    var i :| 0 <= i < |tuples| && KeyOf(tuples[i]) == key;
    var t := tuples[i];
    hide Cross, Cells;
    CrossMember(third, loads, t);
    CrossMember(second, caps, t.0);
    CrossMember(first, conditioning, t.0.0);
    CrossMember(candidates, shots, t.0.0.0);
  }

  lemma {:induction false} LoadHasToken(normalized: seq<Request>, load: (string, string))
    requires load in Loads(normalized)
    ensures load.0 in Tokens(normalized)
  {
    var n := |normalized| - 1;
    assert Tokens(normalized) == Tokens(normalized[..n]) + [normalized[n].token];
    if load in Loads(normalized[..n]) { LoadHasToken(normalized[..n], load); }
  }

  /** No cell of a plan asks for what its candidate or its provider cannot do. */
  lemma PlanRespectsConstraints(input: Input, selections: Selections, sizing: Sizing, key: CellKey)
    requires Plan(input, selections, sizing).Ok? && key in Plan(input, selections, sizing).value.cells
    ensures var provider := ProviderOf(input.protocol.providers, key.provider);
      provider.Some? && key.cap in provider.value.capTokens
    ensures input.protocol.v2 ==> Measured(input.entries, key.candidate, key.provider)
    ensures var constraint := ConstraintOf(input.protocol.constraints, key.candidate);
      constraint.Some? ==>
        && key.provider in constraint.value.providers && key.cap in constraint.value.caps
        && Measured(input.entries, key.candidate, key.provider)
        && key.shot in ShotIds(input.corpus)
        && var cap := CapOf(input.protocol.caps, key.cap);
           cap.Some? && ShotFits(constraint.value.required, constraint.value.sixteenByNine,
                                 ShotOf(input.corpus, key.shot), cap.value, sizing)
  {
    var axes := Selected(input, selections).value;
    SelectedShotsExist(input, selections);
    hide Selected, Cells, Loads;
    CellParts(axes.candidates, axes.shots, axes.conditioning, axes.caps, Loads(axes.providers), key);
    LoadHasToken(axes.providers, (key.provider, key.hostLoad));
    var tokens, shots := Tokens(axes.providers), ShotsOf(input.corpus, axes.shots);
    RespectsConstraint(input, axes, shots, tokens, sizing, key);
  }

  lemma RespectsConstraint(input: Input, axes: Axes, shots: seq<Shot>, tokens: seq<string>, sizing: Sizing,
                           key: CellKey)
    requires forall id <- axes.shots :: id in ShotIds(input.corpus)
    requires shots == ShotsOf(input.corpus, axes.shots)
    requires SelectionFault(input.protocol, input.entries, axes.candidates, shots, axes.caps, tokens, sizing) == ""
    requires key.candidate in axes.candidates && key.shot in axes.shots && key.cap in axes.caps &&
      key.provider in tokens
    ensures var provider := ProviderOf(input.protocol.providers, key.provider);
      provider.Some? && key.cap in provider.value.capTokens
    ensures input.protocol.v2 ==> Measured(input.entries, key.candidate, key.provider)
    ensures var constraint := ConstraintOf(input.protocol.constraints, key.candidate);
      constraint.Some? ==>
        && key.provider in constraint.value.providers && key.cap in constraint.value.caps
        && Measured(input.entries, key.candidate, key.provider)
        && var cap := CapOf(input.protocol.caps, key.cap);
           cap.Some? && ShotFits(constraint.value.required, constraint.value.sixteenByNine,
                                 ShotOf(input.corpus, key.shot), cap.value, sizing)
  {
    hide EntryOf, ConstraintOf, CapOf, ProviderOf, ShotOf, ShotFits, NamesFault;
    var constraint := ConstraintOf(input.protocol.constraints, key.candidate);
    var faults := ConstraintFaults(input.protocol, input.entries, axes.candidates, shots, axes.caps, tokens, sizing);
    NoFault(faults);
    var c :| 0 <= c < |axes.candidates| && axes.candidates[c] == key.candidate;
    assert faults[c] == "";
    if constraint.Some? {
      var caps := CapFaults(input.protocol, constraint.value, axes.caps, shots, sizing);
      NoFault(caps);
      var p :| 0 <= p < |axes.caps| && axes.caps[p] == key.cap;
      assert caps[p] == "";
      var i :| 0 <= i < |axes.shots| && axes.shots[i] == key.shot;
      assert shots[i] == ShotOf(input.corpus, key.shot) && shots[i] in shots;
    }
  }

  // ----- What is accepted -----

  /** A list of ids without gaps or repeats. */
  predicate Listable(ids: seq<string>) { ids != [] && "" !in ids && Distinct(ids) }

  predicate EntryOk(protocol: Protocol, e: Entry) {
    && e.candidate in protocol.candidates
    && (protocol.v2 && e.eligible ==> e.measurable && e.candidate in protocol.shippingRoles)
  }

  ghost predicate EntriesOk(protocol: Protocol, entries: seq<Entry>) {
    && Listable(protocol.candidates) && Distinct(EntryIds(entries))
    && (forall e <- entries :: EntryOk(protocol, e)) && exists e <- entries :: Admits(protocol, e)
  }

  ghost predicate CandidatesOk(protocol: Protocol, entries: seq<Entry>, requested: seq<string>) {
    Listable(requested) && forall c <- requested :: exists e <- entries :: e.candidate == c && Admits(protocol, e)
  }

  predicate IdsOk(requested: seq<string>, available: seq<string>) {
    Listable(available) && Listable(requested) && forall x <- requested :: x in available
  }

  /** The loads of one requested provider: any of the two on CUDA, both of them for a final plan, and none to
      choose from elsewhere. */
  predicate HostsOk(r: Request, final: bool) {
    if r.token != "cuda" then r.hostLoads == ["not_applicable"]
    else
      && r.hostLoads != [] && Distinct(r.hostLoads) && (forall h <- r.hostLoads :: h in {"idle", "live_flame"})
      && (final ==> "idle" in r.hostLoads && "live_flame" in r.hostLoads)
  }

  ghost predicate ProvidersOk(providers: seq<Provider>, requests: seq<Request>, final: bool, environment: string) {
    && providers != [] && Listable(ProviderTokens(providers)) && (forall p <- providers :: p.environment != "")
    && requests != [] && Distinct(Tokens(requests))
    && (forall r <- requests :: RequestOk(providers, r) && HostsOk(r, final))
    && forall p <- providers :: p.token in Tokens(requests) ==> p.environment == environment
  }

  /** A selection the axes accept, one after another. */
  ghost predicate Selectable(input: Input, selections: Selections) {
    var protocol := input.protocol;
    && input.profile in {"smoke", "screen", "final"} && input.environment != ""
    && EntriesOk(protocol, input.entries) && CandidatesOk(protocol, input.entries, selections.candidates)
    && IdsOk(selections.shots, ShotIds(input.corpus)) && IdsOk(selections.conditioning, protocol.conditioning)
    && IdsOk(selections.caps, CapTokens(protocol.caps))
    && ProvidersOk(protocol.providers, selections.providers, input.profile == "final", input.environment)
  }

  lemma {:induction false} EntryFaultExactly(protocol: Protocol, entries: seq<Entry>, n: nat)
    requires n <= |entries|
    ensures EntryFault(protocol, entries, n) == "" <==>
      && Distinct(EntryIds(entries[..n]))
      && forall i :: 0 <= i < n ==> entries[i].candidate != "" && EntryOk(protocol, entries[i])
  {
    if n == 0 {
      assert EntryIds(entries[..0]) == [];
    } else {
      hide Distinct;
      EntryFaultExactly(protocol, entries, n - 1);
      var ids := EntryIds(entries[..n - 1]);
      assert EntryIds(entries[..n]) == ids + [entries[n - 1].candidate];
      DistinctAppend(ids, entries[n - 1].candidate);
    }
  }

  lemma AdmitsSome(protocol: Protocol, entries: seq<Entry>)
    requires forall e <- entries :: EntryOk(protocol, e)
    ensures Filter(protocol.candidates, Admitted(protocol, entries, true)) != [] <==>
      exists e <- entries :: Admits(protocol, e)
  {
    var ids := Filter(protocol.candidates, Admitted(protocol, entries, true));
    hide Filter;
    if e :| e in entries && Admits(protocol, e) {
      assert EntryOk(protocol, e) && e.candidate in Admitted(protocol, entries, true);
      assert e.candidate in ids;
    }
    if ids != [] { assert ids[0] in ids; }
  }

  lemma OrdersExactly(protocol: Protocol, entries: seq<Entry>)
    ensures OrdersFault(protocol, entries) == "" <==> EntriesOk(protocol, entries)
  {
    EntryFaultExactly(protocol, entries, |entries|);
    assert entries[..|entries|] == entries;
    hide EntryFault, Distinct, EntryOk, Filter, Admits, Admitted;
    assert (forall e <- entries :: e.candidate != "" && EntryOk(protocol, e)) <==>
      forall i :: 0 <= i < |entries| ==> entries[i].candidate != "" && EntryOk(protocol, entries[i]);
    if forall e <- entries :: EntryOk(protocol, e) { AdmitsSome(protocol, entries); }
    if "" !in protocol.candidates { NoEmptyCandidate(protocol, entries); }
  }

  lemma NoEmptyCandidate(protocol: Protocol, entries: seq<Entry>)
    requires "" !in protocol.candidates
    ensures forall e <- entries :: EntryOk(protocol, e) ==> e.candidate != ""
  {
  }

  lemma CandidatesExactly(protocol: Protocol, entries: seq<Entry>, requested: seq<string>)
    requires EntriesOk(protocol, entries)
    ensures var admitted, refused := Filter(protocol.candidates, Admitted(protocol, entries, true)),
        Filter(protocol.candidates, Admitted(protocol, entries, false));
      CandidateSelection(requested, admitted, refused, protocol.v2).Ok? <==> CandidatesOk(protocol, entries, requested)
  {
    var admitted, refused := Filter(protocol.candidates, Admitted(protocol, entries, true)),
      Filter(protocol.candidates, Admitted(protocol, entries, false));
    OrdersExactly(protocol, entries);
    CandidatesInOrder(protocol, entries, true);
    CandidatesInOrder(protocol, entries, false);
    NoCandidateFault(requested, admitted, refused, protocol.v2);
    hide Filter, OrdersFault, CandidateFault, Admitted;
    forall c | c in admitted
      ensures c !in refused
    {
      AdmittedOnce(protocol, entries, c);
    }
  }

  lemma SameEntry(entries: seq<Entry>, e: Entry, d: Entry)
    requires Distinct(EntryIds(entries)) && e in entries && d in entries && e.candidate == d.candidate
    ensures e == d
  {
    var i :| 0 <= i < |entries| && entries[i] == e;
    var j :| 0 <= j < |entries| && entries[j] == d;
    assert EntryIds(entries)[i] == EntryIds(entries)[j];
  }

  lemma AdmittedOnce(protocol: Protocol, entries: seq<Entry>, c: string)
    requires Distinct(EntryIds(entries)) && exists e <- entries :: e.candidate == c && Admits(protocol, e)
    ensures forall e <- entries :: e.candidate == c ==> Admits(protocol, e)
  {
    var e :| e in entries && e.candidate == c && Admits(protocol, e);
    forall d <- entries | d.candidate == c
      ensures Admits(protocol, d)
    {
      SameEntry(entries, e, d);
    }
  }

  lemma {:induction false} NamesExactly(ids: seq<string>)
    ensures NamesFault(ids) == "" <==> "" !in ids && Distinct(ids)
  {
    if ids == [] {
    } else {
      var n := |ids| - 1;
      NamesExactly(ids[..n]);
      DistinctAppend(ids[..n], ids[n]);
      assert ids == ids[..n] + [ids[n]];
    }
  }

  lemma OrderedIdsExactly(requested: seq<string>, available: seq<string>)
    requires Listable(available)
    ensures OrderedIds(requested, available).Ok? <==> IdsOk(requested, available)
  {
    if IdsOk(requested, available) {
      assert requested[0] in Filter(available, Members(requested));
    }
  }

  lemma {:induction false} ProtocolExactly(providers: seq<Provider>, n: nat)
    requires n <= |providers|
    ensures ProtocolFault(providers, n) == "" <==>
      && "" !in ProviderTokens(providers[..n]) && Distinct(ProviderTokens(providers[..n]))
      && forall i :: 0 <= i < n ==> providers[i].environment != ""
  {
    if n == 0 {
      assert ProviderTokens(providers[..0]) == [];
    } else {
      hide Distinct;
      ProtocolExactly(providers, n - 1);
      var tokens := ProviderTokens(providers[..n - 1]);
      assert ProviderTokens(providers[..n]) == tokens + [providers[n - 1].token];
      DistinctAppend(tokens, providers[n - 1].token);
    }
  }

  lemma HostExactly(r: Request, final: bool)
    ensures HostFault(r, final) == "" <==> HostsOk(r, final)
  {
    if r.hostLoads == ["not_applicable"] { assert Distinct(r.hostLoads); }
    if r.token == "cuda" && HostsOk(r, final) && final {
      assert Members(r.hostLoads) == {"idle", "live_flame"};
    }
    if final && Members(r.hostLoads) == {"idle", "live_flame"} {
      assert "idle" in Members(r.hostLoads) && "live_flame" in Members(r.hostLoads);
    }
  }

  lemma {:induction false} HostsExactly(providers: seq<Provider>, requests: seq<Request>, final: bool, n: nat)
    requires n <= |providers|
    ensures HostsFault(providers, requests, final, n) == "" <==>
      forall i :: 0 <= i < n ==>
        var r := Requested(requests, providers[i].token); r.Some? ==> HostsOk(r.value, final)
  {
    hide HostFault, HostsOk, Requested;
    if n == 0 {
    } else {
      HostsExactly(providers, requests, final, n - 1);
      var r := Requested(requests, providers[n - 1].token);
      if r.Some? { HostExactly(r.value, final); }
    }
  }

  /** With distinct tokens a request is found under its own. */
  lemma {:induction false} RequestedBack(requests: seq<Request>, r: Request)
    requires Distinct(Tokens(requests)) && r in requests
    ensures Requested(requests, r.token) == Some(r)
  {
    RequestedIs(requests, r.token);
    var i :| 0 <= i < |requests| && requests[i] == r;
    assert Tokens(requests)[i] == r.token;
    var q := Requested(requests, r.token).value;
    var j :| 0 <= j < |requests| && requests[j] == q;
    assert Tokens(requests)[j] == Tokens(requests)[i];
  }

  /** Every request belongs to a provider of the protocol. */
  lemma {:induction false} RequestsFound(providers: seq<Provider>, requests: seq<Request>, final: bool,
                                         environment: string)
    requires requests != [] && Distinct(Tokens(requests)) && forall r <- requests :: RequestOk(providers, r)
    ensures HostsFault(providers, requests, final, |providers|) == "" <==> forall r <- requests :: HostsOk(r, final)
    ensures HostsFault(providers, requests, final, |providers|) == "" ==>
      Normalized(providers, requests, |providers|) != []
    ensures SharesEnvironment(providers, requests, environment) <==>
      forall p <- providers :: p.token in Tokens(requests) ==> p.environment == environment
  {
    HostsExactly(providers, requests, final, |providers|);
    hide HostsFault, Normalized, HostsOk, Requested, Distinct;
    forall r <- requests
      ensures exists i ::
        0 <= i < |providers| && providers[i].token == r.token && Requested(requests, r.token) == Some(r)
    {
      RequestedBack(requests, r);
      var i :| 0 <= i < |providers| && ProviderTokens(providers)[i] == r.token;
      assert providers[i].token == r.token;
    }
    forall t
      ensures Requested(requests, t).Some? <==> t in Tokens(requests)
      ensures Requested(requests, t).Some? ==> Requested(requests, t).value in requests
    {
      RequestedIs(requests, t);
    }
    var i :| 0 <= i < |providers| && providers[i].token == requests[0].token &&
      Requested(requests, requests[0].token) == Some(requests[0]);
    assert providers[i] in providers;
    if HostsFault(providers, requests, final, |providers|) == "" {
      NormalizedInOrder(providers, requests, final, |providers|);
      assert providers[..|providers|] == providers && ProviderTokens(providers)[i] in ProviderTokens(providers);
      assert Tokens(requests)[0] in Tokens(requests);
      assert requests[0].token in Tokens(Normalized(providers, requests, |providers|));
    }
  }

  lemma ProvidersExactly(providers: seq<Provider>, requests: seq<Request>, final: bool, environment: string)
    ensures ProviderFault(providers, requests, final, environment) == "" <==>
      ProvidersOk(providers, requests, final, environment)
  {
    assert providers[..|providers|] == providers && requests[..|requests|] == requests;
    ProtocolExactly(providers, |providers|);
    NoRequestFault(providers, requests, |requests|);
    hide Distinct, ProtocolFault, RequestFault, HostsFault, Normalized, HostsOk, RequestOk, SharesEnvironment;
    assert (forall p <- providers :: p.environment != "") <==>
      forall i :: 0 <= i < |providers| ==> providers[i].environment != "";
    assert (forall r <- requests :: RequestOk(providers, r)) <==>
      forall i :: 0 <= i < |requests| ==> RequestOk(providers, requests[i]);
    if requests != [] && Distinct(Tokens(requests)) && forall r <- requests :: RequestOk(providers, r) {
      RequestsFound(providers, requests, final, environment);
    }
  }

  lemma CorpusExactly(corpus: seq<Shot>)
    ensures CorpusFault(corpus) == "" <==> Listable(ShotIds(corpus))
  {
    NamesExactly(ShotIds(corpus));
  }

  lemma AxisExactly(requested: seq<string>, available: seq<string>)
    ensures IdsFault(available) == "" && OrderedIds(requested, available).Ok? <==> IdsOk(requested, available)
  {
    if Listable(available) { OrderedIdsExactly(requested, available); }
    hide OrderedIds, Distinct;
  }

  lemma ShotsExactly(requested: seq<string>, corpus: seq<Shot>)
    ensures CorpusFault(corpus) == "" && OrderedIds(requested, ShotIds(corpus)).Ok? <==>
      IdsOk(requested, ShotIds(corpus))
  {
    CorpusExactly(corpus);
    if Listable(ShotIds(corpus)) { OrderedIdsExactly(requested, ShotIds(corpus)); }
    hide OrderedIds, Distinct, CorpusFault;
  }

  lemma PickedExactly(protocol: Protocol, entries: seq<Entry>, requested: seq<string>)
    ensures var admitted, refused := Filter(protocol.candidates, Admitted(protocol, entries, true)),
        Filter(protocol.candidates, Admitted(protocol, entries, false));
      OrdersFault(protocol, entries) == "" && CandidateSelection(requested, admitted, refused, protocol.v2).Ok? <==>
      EntriesOk(protocol, entries) && CandidatesOk(protocol, entries, requested)
  {
    OrdersExactly(protocol, entries);
    if EntriesOk(protocol, entries) { CandidatesExactly(protocol, entries, requested); }
    hide OrdersFault, CandidateSelection, EntriesOk, CandidatesOk, Filter, Admitted;
  }

  lemma SelectedExactly(input: Input, selections: Selections)
    ensures Selected(input, selections).Ok? <==> Selectable(input, selections)
  {
    hide OrdersFault, EntriesOk, CandidatesOk, ProvidersOk, ProviderFault, CorpusFault, Filter, Admitted, Normalized,
      CandidateSelection, OrderedIds, IdsOk, IdsFault;
    var protocol := input.protocol;
    PickedExactly(protocol, input.entries, selections.candidates);
    ShotsExactly(selections.shots, input.corpus);
    AxisExactly(selections.conditioning, protocol.conditioning);
    AxisExactly(selections.caps, CapTokens(protocol.caps));
    ProvidersExactly(protocol.providers, selections.providers, input.profile == "final", input.environment);
  }

  // ----- What the axes must be able to do together -----

  /** What an entry of the v2 protocol must say of its measurement. */
  predicate EvidenceOk(protocol: Protocol, e: Entry) {
    if e.measurable then
      && e.measurementProviders.Some? && e.measurementProviders.value != [] && Distinct(e.measurementProviders.value)
      && forall p <- e.measurementProviders.value :: p in ProviderTokens(protocol.providers)
    else e.measurementProviders.None?
  }

  /** A cap a constrained candidate can run under, for all of these shots. */
  ghost predicate CapOk(protocol: Protocol, constraint: Constraint, token: string, shots: seq<Shot>, sizing: Sizing) {
    && token in constraint.caps && CapOf(protocol.caps, token).Some?
    && CapOf(protocol.caps, token).value.lattice == Some(constraint.required)
    && forall shot <- shots ::
         ShotFits(constraint.required, constraint.sixteenByNine, shot, CapOf(protocol.caps, token).value, sizing)
  }

  /** A candidate whose measurements cover the providers, and which can run on them under the caps if it is
      constrained. */
  ghost predicate ConstraintOk(protocol: Protocol, entries: seq<Entry>, candidate: string, shots: seq<Shot>,
                               caps: seq<string>, tokens: seq<string>, sizing: Sizing) {
    var entry, constraint := EntryOf(entries, candidate), ConstraintOf(protocol.constraints, candidate);
    var measured := if entry.None? then None else entry.value.measurementProviders;
    && (measured.Some? ==> measured.value != [] && forall p <- tokens :: p in measured.value)
    && (constraint.Some? ==>
          && measured.Some? && (forall p <- tokens :: p in constraint.value.providers)
          && forall cap <- caps :: CapOk(protocol, constraint.value, cap, shots, sizing))
  }

  /** What selected axes must satisfy. */
  ghost predicate Supported(input: Input, axes: Axes, sizing: Sizing)
    requires forall id <- axes.shots :: id in ShotIds(input.corpus)
  {
    var protocol, tokens, shots := input.protocol, Tokens(axes.providers), ShotsOf(input.corpus, axes.shots);
    && (protocol.v2 ==>
          && (forall e <- input.entries :: EvidenceOk(protocol, e))
          && forall c <- axes.candidates, t <- tokens :: Measured(input.entries, c, t))
    && "" !in ConstraintIds(protocol.constraints) && Distinct(ConstraintIds(protocol.constraints))
    && (forall c <- axes.candidates :: ConstraintOk(protocol, input.entries, c, shots, axes.caps, tokens, sizing))
    && CapsSupported(protocol.providers, tokens, axes.caps)
    && (input.profile == "final" ==>
          && "mp2" in axes.caps && "cuda" in tokens
          && (exists shot <- input.corpus :: shot.id in axes.shots && IsFhd(shot))
          && exists shot <- input.corpus :: shot.id in axes.shots && IsUhd(shot))
  }

  lemma EvidenceExactly(protocol: Protocol, entries: seq<Entry>)
    ensures FirstFault(EvidenceFaults(protocol, entries)) == "" <==> forall e <- entries :: EvidenceOk(protocol, e)
  {
    NoFault(EvidenceFaults(protocol, entries));
    assert forall e <- entries :: EvidenceFault(protocol, e) == "" <==> EvidenceOk(protocol, e);
    hide EvidenceFault, EvidenceOk, FirstFault;
    assert (forall e <- entries :: EvidenceOk(protocol, e)) <==>
      forall i :: 0 <= i < |entries| ==> EvidenceOk(protocol, entries[i]);
  }

  lemma CapsExactly(protocol: Protocol, constraint: Constraint, caps: seq<string>, shots: seq<Shot>, sizing: Sizing)
    ensures FirstFault(CapFaults(protocol, constraint, caps, shots, sizing)) == "" <==>
      forall cap <- caps :: CapOk(protocol, constraint, cap, shots, sizing)
  {
    NoFault(CapFaults(protocol, constraint, caps, shots, sizing));
    assert forall cap <- caps ::
      CapFault(protocol, constraint, cap, shots, sizing) == "" <==> CapOk(protocol, constraint, cap, shots, sizing);
    hide CapFault, CapOk, FirstFault;
    assert (forall cap <- caps :: CapOk(protocol, constraint, cap, shots, sizing)) <==>
      forall i :: 0 <= i < |caps| ==> CapOk(protocol, constraint, caps[i], shots, sizing);
  }

  lemma ConstraintExactly(protocol: Protocol, entries: seq<Entry>, candidate: string, shots: seq<Shot>,
                          caps: seq<string>, tokens: seq<string>, sizing: Sizing)
    ensures ConstraintFault(protocol, entries, candidate, shots, caps, tokens, sizing) == "" <==>
      ConstraintOk(protocol, entries, candidate, shots, caps, tokens, sizing)
  {
    var constraint := ConstraintOf(protocol.constraints, candidate);
    if constraint.Some? { CapsExactly(protocol, constraint.value, caps, shots, sizing); }
    hide CapFaults, CapOk, FirstFault, EntryOf, ConstraintOf;
  }

  lemma ConstraintsExactly(protocol: Protocol, entries: seq<Entry>, candidates: seq<string>, shots: seq<Shot>,
                           caps: seq<string>, tokens: seq<string>, sizing: Sizing)
    ensures FirstFault(ConstraintFaults(protocol, entries, candidates, shots, caps, tokens, sizing)) == "" <==>
      forall c <- candidates :: ConstraintOk(protocol, entries, c, shots, caps, tokens, sizing)
  {
    NoFault(ConstraintFaults(protocol, entries, candidates, shots, caps, tokens, sizing));
    hide ConstraintFault, ConstraintOk, FirstFault;
    forall c <- candidates
      ensures ConstraintFault(protocol, entries, c, shots, caps, tokens, sizing) == "" <==>
        ConstraintOk(protocol, entries, c, shots, caps, tokens, sizing)
    {
      ConstraintExactly(protocol, entries, c, shots, caps, tokens, sizing);
    }
    assert (forall c <- candidates :: ConstraintOk(protocol, entries, c, shots, caps, tokens, sizing)) <==>
      forall i :: 0 <= i < |candidates| ==> ConstraintOk(protocol, entries, candidates[i], shots, caps, tokens, sizing);
  }

  lemma AxesExactly(input: Input, axes: Axes, sizing: Sizing)
    requires forall id <- axes.shots :: id in ShotIds(input.corpus)
    ensures AxesFault(input, axes, sizing) == "" <==> Supported(input, axes, sizing)
  {
    var protocol, tokens, shots := input.protocol, Tokens(axes.providers), ShotsOf(input.corpus, axes.shots);
    EvidenceExactly(protocol, input.entries);
    NamesExactly(ConstraintIds(protocol.constraints));
    ConstraintsExactly(protocol, input.entries, axes.candidates, shots, axes.caps, tokens, sizing);
    hide EvidenceFaults, EvidenceOk, ConstraintFaults, ConstraintOk, FirstFault, NamesFault, Distinct, Measured, IsFhd,
      IsUhd, CapsSupported, ShotsOf;
  }

  /** A plan is made exactly for selections that every axis accepts and whose axes can work together. */
  lemma PlanAcceptsExactly(input: Input, selections: Selections, sizing: Sizing)
    ensures Plan(input, selections, sizing).Ok? <==>
      && Selectable(input, selections)
      && Selected(input, selections).Ok?
      && (forall id <- Selected(input, selections).value.shots :: id in ShotIds(input.corpus))
      && Supported(input, Selected(input, selections).value, sizing)
  {
    SelectedExactly(input, selections);
    if Selected(input, selections).Ok? {
      SelectedShotsExist(input, selections);
      AxesExactly(input, Selected(input, selections).value, sizing);
    }
    hide Selected, Selectable, Supported, AxesFault, PlanOf;
  }
}
