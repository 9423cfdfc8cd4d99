/** Accepting an npm audit report (validate-mobile-npm-audit.js). */
module AuditGraph {
  import opened Wrappers

  /** One entry of `via`: another vulnerable package, an advisory by its id when its URL has one, or neither. */
  datatype Cause = Package(name: string) | Advisory(id: Option<string>) | Malformed

  /** One entry of the vulnerabilities map; `named` is its own name field, `via` None when it is not an array. */
  datatype Record = Record(key: string, named: string, via: Option<seq<Cause>>)

  const TARGET := "image-size"
  const EXPECTED := ["GHSA-5p2g-fcmc-qvqq", "GHSA-w3rx-r6r6-pgpr"]

  type Edges = map<string, seq<string>>

  function Next(edges: Edges, p: string): seq<string> { if p in edges then edges[p] else [] }

  // ---- the search and what it decides ----

  /** reachesImageSize, with its own copy of the package names on the path. */
  predicate Reaches(edges: Edges, p: string, visiting: set<string>)
    decreases edges.Keys - visiting
  {
    p == TARGET
    || (p !in visiting && p in edges && exists i :: 0 <= i < |edges[p]| && Reaches(edges, edges[p][i], visiting + {p}))
  }

  /** A directed path of at least one package. */
  predicate IsPath(edges: Edges, path: seq<string>) {
    path != [] && forall i :: 0 <= i < |path| - 1 ==> path[i + 1] in Next(edges, path[i])
  }

  predicate PathToTarget(edges: Edges, path: seq<string>, p: string) {
    IsPath(edges, path) && path[0] == p && path[|path| - 1] == TARGET
  }

  /** The path meets none of these packages before its end. */
  predicate Avoids(path: seq<string>, visiting: set<string>) {
    forall i :: 0 <= i < |path| - 1 ==> path[i] !in visiting
  }

  lemma {:induction false} ReachesHasPath(edges: Edges, p: string, visiting: set<string>) returns (path: seq<string>)
    requires Reaches(edges, p, visiting)
    ensures PathToTarget(edges, path, p)
    decreases edges.Keys - visiting
  {
    if p == TARGET {
      path := [p];
    } else {
      var i :| 0 <= i < |edges[p]| && Reaches(edges, edges[p][i], visiting + {p});
      var rest := ReachesHasPath(edges, edges[p][i], visiting + {p});
      path := [p] + rest;
      forall k | 0 <= k < |path| - 1 ensures path[k + 1] in Next(edges, path[k]) {
        if k > 0 { assert path[k] == rest[k - 1] && path[k + 1] == rest[k]; }
      }
    }
  }

  /** Cutting a path behind the last visit of its first package leaves a shorter one that avoids it. */
  lemma {:induction false} LastVisit(path: seq<string>, p: string) returns (k: nat)
    requires p in path
    ensures k < |path| && path[k] == p && forall i :: k < i < |path| ==> path[i] != p
  {
    k := |path| - 1;
    if path[k] != p { k := LastVisit(path[..k], p); }
  }

  lemma {:induction false} PathIsFound(edges: Edges, path: seq<string>, p: string, visiting: set<string>)
    requires PathToTarget(edges, path, p) && Avoids(path, visiting)
    ensures Reaches(edges, p, visiting)
    decreases |path|
  {
    if p != TARGET {
      var k := LastVisit(path, p);
      var rest := path[k + 1..];
      assert path[k + 1] in Next(edges, path[k]);
      var i :| 0 <= i < |edges[p]| && edges[p][i] == path[k + 1];
      assert IsPath(edges, rest) by {
        forall j | 0 <= j < |rest| - 1 ensures rest[j + 1] in Next(edges, rest[j]) {
          assert rest[j] == path[k + 1 + j] && rest[j + 1] == path[k + 1 + j + 1];
        }
      }
      PathIsFound(edges, rest, path[k + 1], visiting + {p});
      assert path[0] !in visiting;
    }
  }

  /** The search answers whether any directed path leads to image-size, cycles or not. */
  lemma ReachesIffPath(edges: Edges, p: string)
    ensures Reaches(edges, p, {}) <==> exists path :: PathToTarget(edges, path, p)
  {
    if Reaches(edges, p, {}) {
      var path := ReachesHasPath(edges, p, {});
    }
    if path :| PathToTarget(edges, path, p) {
      PathIsFound(edges, path, p, {});
    }
  }

  // ---- the report ----

  function PackagesOf(causes: seq<Cause>): seq<string> {
    if causes == [] then [] else (if causes[0].Package? then [causes[0].name] else []) + PackagesOf(causes[1..])
  }

  function IdsOf(causes: seq<Cause>): seq<string> {
    if causes == [] then [] else (if causes[0].Advisory? && causes[0].id.Some? then [causes[0].id.value] else []) + IdsOf(causes[1..])
  }

  lemma {:induction false} OneMorePackage(causes: seq<Cause>, c: Cause)
    ensures PackagesOf(causes + [c]) == PackagesOf(causes) + (if c.Package? then [c.name] else [])
  {
    if causes == [] {
      assert causes + [c] == [c];
    } else {
      OneMorePackage(causes[1..], c);
      assert (causes + [c])[1..] == causes[1..] + [c];
    }
  }

  lemma {:induction false} OneMoreId(causes: seq<Cause>, c: Cause)
    ensures IdsOf(causes + [c]) == IdsOf(causes) + (if c.Advisory? && c.id.Some? then [c.id.value] else [])
  {
    if causes == [] {
      assert causes + [c] == [c];
    } else {
      OneMoreId(causes[1..], c);
      assert (causes + [c])[1..] == causes[1..] + [c];
    }
  }

  predicate WellFormed(r: Record) {
    && r.named == r.key && r.via.Some?
    && forall i :: 0 <= i < |r.via.value| ==> r.via.value[i].Package? || (r.via.value[i].Advisory? && r.via.value[i].id.Some?)
  }

  function EdgesOf(records: seq<Record>): Edges
    requires forall i :: 0 <= i < |records| ==> records[i].via.Some?
  {
    if records == [] then map[]
    else
      var last := records[|records| - 1];
      EdgesOf(records[..|records| - 1])[last.key := PackagesOf(last.via.value)]
  }

  function AdvisoriesOf(records: seq<Record>): seq<(string, string)>
    requires forall i :: 0 <= i < |records| ==> records[i].via.Some?
  {
    if records == [] then []
    else
      var last := records[|records| - 1];
      AdvisoriesOf(records[..|records| - 1]) + Tagged(last.key, IdsOf(last.via.value))
  }

  function Tagged(key: string, ids: seq<string>): (r: seq<(string, string)>)
    ensures |r| == |ids| && forall i :: 0 <= i < |ids| ==> r[i] == (key, ids[i])
  {
    if ids == [] then [] else [(key, ids[0])] + Tagged(key, ids[1..])
  }

  function Ids(advisories: seq<(string, string)>): (ids: seq<string>)
    ensures |ids| == |advisories| && forall i :: 0 <= i < |ids| ==> ids[i] == advisories[i].1
  {
    if advisories == [] then [] else [advisories[0].1] + Ids(advisories[1..])
  }

  /** What a good report says: exactly the known advisories, all on image-size, and everything else caused by it. */
  ghost predicate Acceptable(records: seq<Record>) {
    && (forall i :: 0 <= i < |records| ==> WellFormed(records[i]))
    && multiset(Ids(AdvisoriesOf(records))) == multiset(EXPECTED)
    && (forall i :: 0 <= i < |AdvisoriesOf(records)| ==> AdvisoriesOf(records)[i].0 == TARGET)
    && var edges := EdgesOf(records);
       && (forall p, i :: p in edges && 0 <= i < |edges[p]| ==> edges[p][i] in edges)
       && (forall p :: p in edges ==> exists path :: PathToTarget(edges, path, p))
  }

  /** The edges and advisories of one record. */
  method Collect(r: Record) returns (ok: bool, edges: seq<string>, ids: seq<string>)
    ensures ok <==> WellFormed(r)
    ensures ok ==> edges == PackagesOf(r.via.value) && ids == IdsOf(r.via.value)
  {
    edges, ids := [], [];
    if r.named != r.key || r.via.None? { return false, [], []; }
    for i := 0 to |r.via.value|
      invariant edges == PackagesOf(r.via.value[..i]) && ids == IdsOf(r.via.value[..i])
      invariant forall k :: 0 <= k < i ==> r.via.value[k].Package? || (r.via.value[k].Advisory? && r.via.value[k].id.Some?)
    {
      assert r.via.value[..i + 1] == r.via.value[..i] + [r.via.value[i]];
      OneMorePackage(r.via.value[..i], r.via.value[i]);
      OneMoreId(r.via.value[..i], r.via.value[i]);
      match r.via.value[i] {
        case Package(name) => edges := edges + [name];
        case Advisory(id) =>
          if id.None? { return false, [], []; }
          ids := ids + [id.value];
        case Malformed => return false, [], [];
      }
    }
    assert r.via.value[..|r.via.value|] == r.via.value;
    ok := true;
  }

  /** The first loop: the dependency edges of every record, and all advisories. */
  method CollectAll(records: seq<Record>) returns (ok: bool, edges: Edges, advisories: seq<(string, string)>)
    ensures ok <==> forall i :: 0 <= i < |records| ==> WellFormed(records[i])
    ensures ok ==> edges == EdgesOf(records) && advisories == AdvisoriesOf(records)
  {
    edges, advisories := map[], [];
    for i := 0 to |records|
      invariant forall k :: 0 <= k < i ==> WellFormed(records[k])
      invariant edges == EdgesOf(records[..i]) && advisories == AdvisoriesOf(records[..i])
    {
      assert records[..i + 1][..i] == records[..i];
      var good, out, ids := Collect(records[i]);
      if !good { return false, edges, advisories; }
      edges := edges[records[i].key := out];
      advisories := advisories + Tagged(records[i].key, ids);
    }
    assert records[..|records|] == records;
    ok := true;
  }

  /** validateMobileAuditReport: true when it does not throw. */
  method ValidateMobileAuditReport(records: seq<Record>) returns (accepted: bool)
    ensures accepted <==> Acceptable(records)
  {
    hide Reaches, PathToTarget, WellFormed, EdgesOf, AdvisoriesOf, Ids;
    var ok, edges, advisories := CollectAll(records);
    if !ok { return false; }
    if multiset(Ids(advisories)) != multiset(EXPECTED) || exists i :: 0 <= i < |advisories| && advisories[i].0 != TARGET { return false; }
    var packages := edges.Keys;
    while packages != {}
      invariant packages <= edges.Keys
      invariant forall p, i :: p in edges && p !in packages && 0 <= i < |edges[p]| ==> edges[p][i] in edges
      decreases packages
    {
      var p :| p in packages;
      if exists i :: 0 <= i < |edges[p]| && edges[p][i] !in edges { return false; }
      packages := packages - {p};
    }
    packages := edges.Keys;
    while packages != {}
      invariant packages <= edges.Keys
      invariant forall p :: p in edges && p !in packages ==> exists path :: PathToTarget(edges, path, p)
      decreases packages
    {
      var p :| p in packages;
      ReachesIffPath(edges, p);
      if !Reaches(edges, p, {}) { return false; }
      packages := packages - {p};
    }
    accepted := true;
  }
}
