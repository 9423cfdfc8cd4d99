/** The cap on token namespaces in any-token mode (server-request.ts, server.ts). */
module NamespaceCap {
  import opened Wrappers

  // ---- what a namespace is, on disk ----

  datatype Kind = File | Directory | OtherKind

  /** The data directory: what each name is. */
  type Listing = map<string, Kind>

  const JSON := ".json"

  predicate IsKey(s: string) {
    |s| == 64 && forall i :: 0 <= i < 64 ==> '0' <= s[i] <= '9' || 'a' <= s[i] <= 'f'
  }

  /** namespaceExists looks at names only. */
  predicate NamespaceExists(d: Listing, key: string) { key + JSON in d || key in d }

  /** countTokenNamespaces looks at kinds too. */
  predicate IsCounted(d: Listing, key: string) {
    IsKey(key) && ((key + JSON in d && d[key + JSON] == File) || (key in d && d[key] == Directory))
  }

  function KeyOf(name: string, kind: Kind): Option<string> {
    if kind == File then
      if |name| == 69 && name[64..] == JSON && IsKey(name[..64]) then Some(name[..64]) else None
    else if kind == Directory && IsKey(name) then Some(name) else None
  }

  function Counted(d: Listing): set<string> {
    set n | n in d && KeyOf(n, d[n]).Some? :: KeyOf(n, d[n]).value
  }

  lemma CountedAreNamespaces(d: Listing, key: string)
    ensures key in Counted(d) <==> IsCounted(d, key)
    ensures IsCounted(d, key) ==> NamespaceExists(d, key)
  {
    if IsCounted(d, key) {
      if key + JSON in d && d[key + JSON] == File {
        assert (key + JSON)[..64] == key && (key + JSON)[64..] == JSON;
        assert KeyOf(key + JSON, File) == Some(key);
      } else {
        assert KeyOf(key, Directory) == Some(key);
      }
    }
    if key in Counted(d) {
      var n :| n in d && KeyOf(n, d[n]) == Some(key);
      assert d[n] == File ==> n == key + JSON by { assert d[n] == File ==> n == n[..64] + n[64..]; }
    }
  }

  function CountedIn(d: Listing, names: set<string>): set<string>
    requires names <= d.Keys
  {
    set n | n in names && KeyOf(n, d[n]).Some? :: KeyOf(n, d[n]).value
  }

  lemma OneMoreName(d: Listing, names: set<string>, name: string)
    requires names <= d.Keys && name in d
    ensures CountedIn(d, names + {name}) ==
            if KeyOf(name, d[name]).Some? then CountedIn(d, names) + {KeyOf(name, d[name]).value} else CountedIn(d, names)
  {
    hide KeyOf;
  }

  method CountTokenNamespaces(d: Listing) returns (count: nat)
    ensures count == |Counted(d)|
  {
    hide KeyOf;
    var namespaces: set<string> := {};
    var names := d.Keys;
    ghost var seen: set<string> := {};
    while names != {}
      invariant seen + names == d.Keys && seen !! names
      invariant namespaces == CountedIn(d, seen)
      decreases names
    {
      var name :| name in names;
      OneMoreName(d, seen, name);
      names, seen := names - {name}, seen + {name};
      var key := KeyOf(name, d[name]);
      if key.Some? { namespaces := namespaces + {key.value}; }
    }
    assert seen == d.Keys;
    count := |namespaces|;
  }

  /** The key a name belongs to, whatever it is the name of. */
  function NameKey(name: string): Option<string> {
    if |name| == 69 && name[64..] == JSON && IsKey(name[..64]) then Some(name[..64])
    else if IsKey(name) then Some(name) else None
  }

  function Namespaces(d: Listing): set<string> {
    set n | n in d && NameKey(n).Some? :: NameKey(n).value
  }

  /** The keys with a name that is not of the kind that is counted. */
  function OddKeys(d: Listing): set<string> {
    set n | n in d && NameKey(n).Some? && KeyOf(n, d[n]).None? :: NameKey(n).value
  }

  lemma NamespacesExist(d: Listing, key: string)
    ensures key in Namespaces(d) <==> IsKey(key) && NamespaceExists(d, key)
  {
    if key in Namespaces(d) {
      var n :| n in d && NameKey(n) == Some(key);
      assert n == key || n == key + JSON by { assert |n| == 69 ==> n == n[..64] + n[64..]; }
    }
    if IsKey(key) && NamespaceExists(d, key) {
      assert (key + JSON)[..64] == key && (key + JSON)[64..] == JSON;
      assert NameKey(key + JSON) == Some(key) == NameKey(key);
    }
  }

  /** What the count does not see are the odd keys. */
  lemma NamespacesAreCountedOrOdd(d: Listing)
    ensures Namespaces(d) == Counted(d) + OddKeys(d)
    ensures |Namespaces(d)| <= |Counted(d)| + |OddKeys(d)|
  {
    assert forall n :: n in d && KeyOf(n, d[n]).Some? ==> NameKey(n) == KeyOf(n, d[n]);
    assert Namespaces(d) == Counted(d) + OddKeys(d);
    assert |Counted(d) + OddKeys(d)| <= |Counted(d)| + |OddKeys(d)|;
  }

  /** A directory is tidy when every namespace has a name of the kind that is counted. */
  ghost predicate Tidy(d: Listing) {
    forall key :: IsKey(key) && NamespaceExists(d, key) ==> IsCounted(d, key)
  }

  /** The count is the number of namespaces exactly in a tidy directory. */
  lemma CountIsExactWhenTidy(d: Listing)
    ensures Counted(d) <= Namespaces(d)
    ensures |Counted(d)| == |Namespaces(d)| <==> Tidy(d)
    ensures OddKeys(d) == {} ==> Tidy(d)
  {
    NamespacesAreCountedOrOdd(d);
    forall key
      ensures key in Counted(d) <==> IsCounted(d, key)
      ensures key in Namespaces(d) <==> IsKey(key) && NamespaceExists(d, key)
    {
      CountedAreNamespaces(d, key);
      NamespacesExist(d, key);
    }
    if Tidy(d) {
      assert Counted(d) == Namespaces(d);
    } else {
      var key :| IsKey(key) && NamespaceExists(d, key) && !IsCounted(d, key);
      assert Counted(d) <= Namespaces(d) - {key};
      Subset(Counted(d), Namespaces(d) - {key});
    }
  }

  lemma {:induction false} Subset(a: set<string>, b: set<string>)
    requires a <= b
    ensures |a| <= |b|
  {
    if a != {} {
      var x :| x in a;
      Subset(a - {x}, b - {x});
    }
  }

  // ---- the admission protocol ----

  /**
   How a route meets the cap: whether its method is guarded, whether admission reserves the namespace,
   whether it is used with a capture token, and whether its handler writes without looking first.
   */
  datatype Route = Route(guarded: bool, reserves: bool, capture: bool, creates: bool)

  const DATA_WRITE := Route(true, true, false, true)        // GET and PUT /v1/data, entity writes, attachment PUT, capture POST
  const READ := Route(false, false, false, false)           // other GETs, HEAD, attachment DELETE
  const SIDECAR := Route(true, false, false, false)         // calendar feed and orphan collection
  const CAPTURE_TOKEN := Route(false, false, true, true)    // capture POST with a capture token

  predicate IsRoute(r: Route) { r in {DATA_WRITE, READ, SIDECAR, CAPTURE_TOKEN} }

  datatype Phase = Arrived | Waiting | Admitting | Approved | Serving | Ended

  datatype Request = Request(key: string, route: Route, phase: Phase)

  /** Requests of every process; the admission lock is one across all of them. */
  datatype State = State(listing: Listing, requests: seq<Request>, lock: Option<nat>)

  /** The cap, and whether it is looked up under the admission lock, as the server does, or before it. */
  datatype Policy = Policy(cap: int, underLock: bool)

  datatype Step =
    | Arrive(key: string, route: Route)
    | Check(i: nat)                            // the unlocked look
    | Enter(i: nat)                            // the admission lock is granted
    | Recheck(i: nat)                          // ensureNamespaceWriteAllowed under it
    | Reserve(i: nat, created: bool, ok: bool) // initializeNamespace, which may throw with or without effect
    | Handle(i: nat, directory: bool)          // one write of the handler: the document, or the attachment directory
    | End(i: nat)                              // finished, failed, or its process died
    | Crash(survivors: set<string>)            // the machine lost unsynced names

  function At(s: State, i: nat, phase: Phase): State
    requires i < |s.requests|
  {
    s.(requests := s.requests[i := s.requests[i].(phase := phase)])
  }

  /** ensureNamespaceWriteAllowed. */
  predicate Allowed(cap: int, d: Listing, key: string) { NamespaceExists(d, key) || (cap > 0 && |Counted(d)| < cap) }

  /** Writing a file or making a directory; a name that is there keeps its kind. */
  function WithName(d: Listing, name: string, kind: Kind): Listing { if name in d then d else d[name := kind] }

  function WithNamespace(d: Listing, key: string, directory: bool): Listing {
    if directory then WithName(d, key, Directory) else WithName(d, key + JSON, File)
  }

  function Apply(policy: Policy, s: State, step: Step): Option<State> {
    match step
    case Arrive(key, route) =>
      if IsKey(key) && IsRoute(route) then Some(s.(requests := s.requests + [Request(key, route, Arrived)])) else None
    case Check(i) =>
      if i >= |s.requests| || !s.requests[i].phase.Arrived? then None
      else
        var r := s.requests[i];
        var present := NamespaceExists(s.listing, r.key);
        Some(At(s, i, if r.route.capture then if present then Serving else Ended
                      else if !r.route.guarded || present then Serving
                      else if policy.underLock || Allowed(policy.cap, s.listing, r.key) then Waiting
                      else Ended))
    case Enter(i) =>
      if i >= |s.requests| || !s.requests[i].phase.Waiting? || s.lock.Some? then None
      else Some(At(s, i, Admitting).(lock := Some(i)))
    case Recheck(i) =>
      if i >= |s.requests| || !s.requests[i].phase.Admitting? then None
      else if !policy.underLock || Allowed(policy.cap, s.listing, s.requests[i].key) then Some(At(s, i, Approved))
      else Some(At(s, i, Ended).(lock := None))
    case Reserve(i, created, ok) =>
      if i >= |s.requests| || !s.requests[i].phase.Approved? then None
      else
        var r := s.requests[i];
        if NamespaceExists(s.listing, r.key) || !r.route.reserves then Some(At(s, i, Serving).(lock := None))
        else if ok && !created then None
        else Some(At(s, i, if ok then Serving else Ended)
                  .(lock := None, listing := if created then WithNamespace(s.listing, r.key, false) else s.listing))
    case Handle(i, directory) =>
      if i >= |s.requests| || !s.requests[i].phase.Serving? then None
      else Some(s.(listing := if s.requests[i].route.creates then WithNamespace(s.listing, s.requests[i].key, directory) else s.listing))
    case End(i) =>
      if i >= |s.requests| then None
      else Some(At(s, i, Ended).(lock := if s.lock == Some(i) then None else s.lock))
    case Crash(survivors) =>
      if survivors <= s.listing.Keys then Some(State(Surviving(s.listing, survivors), [], None)) else None
  }

  function Surviving(d: Listing, survivors: set<string>): Listing { map n | n in d && n in survivors :: d[n] }

  function Run(policy: Policy, s: State, steps: seq<Step>): Option<State>
    decreases |steps|
  {
    if steps == [] then Some(s)
    else match Apply(policy, s, steps[0]) { case None => None case Some(next) => Run(policy, next, steps[1..]) }
  }

  predicate HoldsLock(phase: Phase) { phase.Admitting? || phase.Approved? }

  /** The lock holder and everybody else stand where the protocol has them. */
  ghost predicate InPlace(s: State) {
    && (forall i :: 0 <= i < |s.requests| ==>
          && IsRoute(s.requests[i].route) && IsKey(s.requests[i].key)
          && (HoldsLock(s.requests[i].phase) <==> s.lock == Some(i))
          && (s.requests[i].phase.Waiting? || HoldsLock(s.requests[i].phase) ==> s.requests[i].route.guarded))
    && (s.lock.Some? ==> s.lock.value < |s.requests|)
  }

  /** With the keys that were odd at the start, room is what the cap leaves over them. */
  ghost predicate Inv(cap: int, bound: int, odd: set<string>, s: State) {
    && InPlace(s)
    && (forall i :: 0 <= i < |s.requests| && s.requests[i].phase.Approved? ==>
          s.requests[i].key in Namespaces(s.listing) || |Namespaces(s.listing)| < cap + |odd|)
    && (forall i :: 0 <= i < |s.requests| && s.requests[i].phase.Serving? && s.requests[i].route.creates ==>
          s.requests[i].key in Namespaces(s.listing))
    && OddKeys(s.listing) <= odd
    && |Namespaces(s.listing)| <= bound && cap + |odd| <= bound
  }

  /** A request adds names of the kinds that are counted, of its own key. */
  lemma AddedName(d: Listing, key: string, directory: bool)
    requires IsKey(key)
    ensures Namespaces(WithNamespace(d, key, directory)) == Namespaces(d) + {key}
    ensures OddKeys(WithNamespace(d, key, directory)) == OddKeys(d)
  {
    var name := if directory then key else key + JSON;
    assert (key + JSON)[..64] == key && (key + JSON)[64..] == JSON;
    assert NameKey(name) == Some(key);
    assert KeyOf(name, if directory then Directory else File) == Some(key);
  }

  lemma LostNames(d: Listing, survivors: set<string>)
    ensures Namespaces(Surviving(d, survivors)) <= Namespaces(d) && OddKeys(Surviving(d, survivors)) <= OddKeys(d)
  {
  }

  lemma AllowedHasRoom(cap: int, d: Listing, key: string, odd: set<string>)
    requires IsKey(key) && Allowed(cap, d, key) && OddKeys(d) <= odd
    ensures key in Namespaces(d) || |Namespaces(d)| < cap + |odd|
  {
    NamespacesExist(d, key);
    NamespacesAreCountedOrOdd(d);
    Subset(OddKeys(d), odd);
  }

  lemma StepKeepsInv(cap: int, bound: int, odd: set<string>, s: State, step: Step, t: State)
    requires Inv(cap, bound, odd, s) && Apply(Policy(cap, true), s, step) == Some(t)
    ensures Inv(cap, bound, odd, t)
  {
    hide Namespaces, OddKeys, Counted, WithNamespace, Surviving, NamespaceExists, Allowed, IsKey;
    match step
    case Arrive(_, _) =>
    case Check(i) => NamespacesExist(s.listing, s.requests[i].key);
    case Enter(i) =>
    case Recheck(i) => if t.lock.Some? { AllowedHasRoom(cap, s.listing, s.requests[i].key, odd); }
    case Reserve(i, created, ok) => ReserveKeeps(cap, bound, odd, s, i, created, ok, t);
    case Handle(i, directory) =>
      AddedName(s.listing, s.requests[i].key, directory);
      assert s.requests[i].route.creates ==> Namespaces(s.listing) + {s.requests[i].key} == Namespaces(s.listing);
    case End(i) =>
    case Crash(survivors) =>
      LostNames(s.listing, survivors);
      Subset(Namespaces(Surviving(s.listing, survivors)), Namespaces(s.listing));
  }

  lemma ReserveKeeps(cap: int, bound: int, odd: set<string>, s: State, i: nat, created: bool, ok: bool, t: State)
    requires Inv(cap, bound, odd, s) && Apply(Policy(cap, true), s, Reserve(i, created, ok)) == Some(t)
    ensures Inv(cap, bound, odd, t)
  {
    hide Namespaces, OddKeys, Counted, WithNamespace, NamespaceExists, IsKey;
    assert forall j :: 0 <= j < |s.requests| && j != i ==> !HoldsLock(s.requests[j].phase) && t.requests[j] == s.requests[j];
    AddedName(s.listing, s.requests[i].key, false);
    NamespacesExist(s.listing, s.requests[i].key);
  }

  lemma {:induction false} RunKeepsInv(cap: int, bound: int, odd: set<string>, s: State, steps: seq<Step>, t: State)
    requires Inv(cap, bound, odd, s) && Run(Policy(cap, true), s, steps) == Some(t)
    ensures Inv(cap, bound, odd, t)
    decreases |steps|
  {
    if steps != [] {
      var next := Apply(Policy(cap, true), s, steps[0]).value;
      StepKeepsInv(cap, bound, odd, s, steps[0], next);
      RunKeepsInv(cap, bound, odd, next, steps[1..], t);
    }
  }

  /**
   Whatever requests, routes and processes interleave, the namespaces never outnumber what was there,
   or the cap and the keys that were odd at the start, which the count does not see.
   */
  lemma CapHolds(cap: int, initial: Listing, steps: seq<Step>, s: State)
    requires Run(Policy(cap, true), State(initial, [], None), steps) == Some(s)
    ensures |Namespaces(s.listing)| <= |Namespaces(initial)| || |Namespaces(s.listing)| <= cap + |OddKeys(initial)|
  {
    var odd := OddKeys(initial);
    var bound := if |Namespaces(initial)| < cap + |odd| then cap + |odd| else |Namespaces(initial)|;
    RunKeepsInv(cap, bound, odd, State(initial, [], None), steps, s);
  }

  /** A run given state by state. */
  ghost predicate IsChain(policy: Policy, states: seq<State>, steps: seq<Step>) {
    |states| == |steps| + 1 && forall k :: 0 <= k < |steps| ==> Apply(policy, states[k], steps[k]) == Some(states[k + 1])
  }

  lemma {:induction false} Chain(policy: Policy, states: seq<State>, steps: seq<Step>)
    requires IsChain(policy, states, steps)
    ensures Run(policy, states[0], steps) == Some(states[|steps|])
    decreases |steps|
  {
    if steps != [] { Chain(policy, states[1..], steps[1..]); }
  }

  /** A write request with room in the count goes through, and its namespace is there. */
  lemma Admitted(policy: Policy, s: State, i: nat)
    requires i < |s.requests| && s.requests[i].phase.Waiting? && s.requests[i].route == DATA_WRITE && s.lock.None?
    requires IsKey(s.requests[i].key) && !NamespaceExists(s.listing, s.requests[i].key)
    requires !policy.underLock || Allowed(policy.cap, s.listing, s.requests[i].key)
    ensures Run(policy, s, [Enter(i), Recheck(i), Reserve(i, true, true)])
         == Some(At(s, i, Serving).(listing := WithNamespace(s.listing, s.requests[i].key, false)))
  {
    hide Allowed, NamespaceExists, WithNamespace, IsKey;
    var s1 := At(s, i, Admitting).(lock := Some(i));
    var s2 := At(s1, i, Approved);
    var t := At(s, i, Serving).(listing := WithNamespace(s.listing, s.requests[i].key, false));
    assert Apply(policy, s, Enter(i)) == Some(s1);
    assert Apply(policy, s1, Recheck(i)) == Some(s2);
    assert At(s2, i, Serving).requests == t.requests;
    assert Apply(policy, s2, Reserve(i, true, true)) == Some(t);
    Chain(policy, [s, s1, s2, t], [Enter(i), Recheck(i), Reserve(i, true, true)]);
  }

  lemma {:induction false} RunOn(policy: Policy, s: State, steps: seq<Step>, more: seq<Step>)
    requires Run(policy, s, steps).Some?
    ensures Run(policy, s, steps + more) == Run(policy, Run(policy, s, steps).value, more)
    decreases |steps|
  {
    if steps == [] {
      assert steps + more == more;
    } else {
      assert (steps + more)[1..] == steps[1..] + more;
      RunOn(policy, Apply(policy, s, steps[0]).value, steps[1..], more);
    }
  }

  predicate FreshKeys(d: Listing, keys: seq<string>) {
    && (forall i :: 0 <= i < |keys| ==> IsKey(keys[i]) && !NamespaceExists(d, keys[i]))
    && (forall i, j :: 0 <= i < j < |keys| ==> keys[i] != keys[j])
  }

  lemma AddedCount(d: Listing, key: string)
    requires IsKey(key) && !NamespaceExists(d, key)
    ensures Counted(WithNamespace(d, key, false)) == Counted(d) + {key} && key !in Counted(d)
    ensures forall other :: IsKey(other) && other != key && !NamespaceExists(d, other) ==>
              !NamespaceExists(WithNamespace(d, key, false), other)
  {
    var more := WithNamespace(d, key, false);
    assert (key + JSON)[..64] == key && (key + JSON)[64..] == JSON && KeyOf(key + JSON, File) == Some(key);
    CountedAreNamespaces(d, key);
    forall other | IsKey(other) && other != key && !NamespaceExists(d, other) ensures !NamespaceExists(more, other) {
      assert other + JSON != key + JSON by { assert (other + JSON)[..64] == other; }
      assert |other| == 64 && |key + JSON| == 69;
    }
    forall k ensures k in Counted(more) <==> k in Counted(d) || k == key {
      if k in Counted(d) {
        var n :| n in d && KeyOf(n, d[n]) == Some(k);
        assert n in more && more[n] == d[n];
      }
      if k in Counted(more) {
        var n :| n in more && KeyOf(n, more[n]) == Some(k);
        assert n == key + JSON || (n in d && d[n] == more[n]);
      }
      assert key + JSON in more && more[key + JSON] == File;
    }
  }

  /** A write request for a new key, all the way from its arrival, while the count is below the cap. */
  lemma AdmitOne(cap: int, s: State, key: string) returns (steps: seq<Step>, t: State)
    requires IsKey(key) && !NamespaceExists(s.listing, key) && |Counted(s.listing)| < cap && s.lock.None?
    ensures Run(Policy(cap, true), s, steps) == Some(t)
    ensures t.listing == WithNamespace(s.listing, key, false) && t.lock.None?
  {
    hide NamespaceExists, WithNamespace, IsKey, Counted;
    var policy, i := Policy(cap, true), |s.requests|;
    var arrived := s.(requests := s.requests + [Request(key, DATA_WRITE, Arrived)]);
    var waiting := At(arrived, i, Waiting);
    assert Apply(policy, s, Arrive(key, DATA_WRITE)) == Some(arrived);
    assert Apply(policy, arrived, Check(i)) == Some(waiting);
    var first, admission := [Arrive(key, DATA_WRITE), Check(i)], [Enter(i), Recheck(i), Reserve(i, true, true)];
    Chain(policy, [s, arrived, waiting], first);
    Admitted(policy, waiting, i);
    RunOn(policy, s, first, admission);
    steps := first + admission;
    t := At(waiting, i, Serving).(listing := WithNamespace(s.listing, key, false));
  }

  /** As many new keys as the count leaves room for get in, one after the other. */
  lemma {:induction false} FillUp(cap: int, s: State, keys: seq<string>) returns (steps: seq<Step>, t: State)
    requires FreshKeys(s.listing, keys) && |Counted(s.listing)| + |keys| <= cap && s.lock.None?
    ensures Run(Policy(cap, true), s, steps) == Some(t)
    ensures |Namespaces(t.listing)| == |Namespaces(s.listing)| + |keys|
    decreases |keys|
  {
    if keys == [] {
      steps, t := [], s;
    } else {
      var first, next := AdmitOne(cap, s, keys[0]);
      AddedCount(s.listing, keys[0]);
      AddedName(s.listing, keys[0], false);
      NamespacesExist(s.listing, keys[0]);
      assert keys[0] !in Namespaces(s.listing);
      var rest;
      rest, t := FillUp(cap, next, keys[1..]);
      RunOn(Policy(cap, true), s, first, rest);
      steps := first + rest;
    }
  }

  /** With no crash on the way: the cap, and every namespace that the count does not see. */
  lemma CapIsReached(cap: int, initial: Listing, keys: seq<string>) returns (steps: seq<Step>, s: State)
    requires FreshKeys(initial, keys) && |Counted(initial)| + |keys| == cap
    ensures Run(Policy(cap, true), State(initial, [], None), steps) == Some(s)
    ensures |Namespaces(s.listing)| == cap + |Namespaces(initial) - Counted(initial)|
  {
    steps, s := FillUp(cap, State(initial, [], None), keys);
    NamespacesAreCountedOrOdd(initial);
    assert Namespaces(initial) == Counted(initial) + (Namespaces(initial) - Counted(initial));
  }

  function OddNames(d: Listing): set<string> {
    set n | n in d && NameKey(n).Some? && KeyOf(n, d[n]).None?
  }

  lemma OnlyOddLeft(d: Listing)
    ensures Counted(Surviving(d, OddNames(d))) == {} && Namespaces(Surviving(d, OddNames(d))) == OddKeys(d)
    ensures forall key :: !NamespaceExists(d, key) ==> !NamespaceExists(Surviving(d, OddNames(d)), key)
  {
    var left := Surviving(d, OddNames(d));
    assert forall n :: n in left <==> n in OddNames(d);
    forall k | k in OddKeys(d) ensures k in Namespaces(left) {
      var n :| n in d && NameKey(n) == Some(k) && KeyOf(n, d[n]).None?;
      assert n in OddNames(d) && n in left;
    }
  }

  /** With a crash that leaves the odd names only: the cap, and every odd key. */
  lemma CapIsExceeded(cap: int, initial: Listing, keys: seq<string>) returns (steps: seq<Step>, s: State)
    requires FreshKeys(initial, keys) && |keys| == cap
    ensures Run(Policy(cap, true), State(initial, [], None), steps) == Some(s)
    ensures |Namespaces(s.listing)| == cap + |OddKeys(initial)|
  {
    var policy, start := Policy(cap, true), State(initial, [], None);
    var crashed := State(Surviving(initial, OddNames(initial)), [], None);
    OnlyOddLeft(initial);
    assert Apply(policy, start, Crash(OddNames(initial))) == Some(crashed);
    Chain(policy, [start, crashed], [Crash(OddNames(initial))]);
    var rest;
    rest, s := FillUp(cap, crashed, keys);
    RunOn(policy, start, [Crash(OddNames(initial))], rest);
    steps := [Crash(OddNames(initial))] + rest;
  }

  /** Some run ends with more namespaces than the cap, and than there were. */
  ghost predicate CanExceed(cap: int, initial: Listing) {
    exists steps, s :: Run(Policy(cap, true), State(initial, [], None), steps) == Some(s)
                       && |Namespaces(s.listing)| > cap && |Namespaces(s.listing)| > |Namespaces(initial)|
  }

  /** Exactly when the count overlooks odd keys, and these and the cap together outnumber what was there. */
  lemma CapIsExceededIffOddKeys(cap: int, initial: Listing, keys: seq<string>)
    requires FreshKeys(initial, keys) && |keys| >= cap
    ensures CanExceed(cap, initial) <==> cap > 0 && OddKeys(initial) != {} && cap + |OddKeys(initial)| > |Namespaces(initial)|
  {
    if cap > 0 && OddKeys(initial) != {} && cap + |OddKeys(initial)| > |Namespaces(initial)| {
      var steps, s := CapIsExceeded(cap, initial, keys[..cap]);
    }
    forall steps, s | Run(Policy(cap, true), State(initial, [], None), steps) == Some(s)
                      && |Namespaces(s.listing)| > cap && |Namespaces(s.listing)| > |Namespaces(initial)|
      ensures cap > 0 && OddKeys(initial) != {} && cap + |OddKeys(initial)| > |Namespaces(initial)|
    {
      CapHolds(cap, initial, steps, s);
      NamespacesAreCountedOrOdd(initial);
      Subset(OddKeys(initial), Namespaces(initial));
    }
  }

  /** An instance: cap 1, a directory where a document should be. */
  lemma OddKeyAddsRoom(a: string, b: string) returns (initial: Listing, steps: seq<Step>, s: State)
    requires IsKey(a) && IsKey(b) && a != b
    ensures |Namespaces(initial)| == 1 && !Tidy(initial)
    ensures Run(Policy(1, true), State(initial, [], None), steps) == Some(s) && |Namespaces(s.listing)| == 2
  {
    initial := map[a + JSON := Directory];
    OneOddName(a, b);
    steps, s := CapIsReached(1, initial, [b]);
  }

  lemma OneOddName(a: string, b: string)
    requires IsKey(a) && IsKey(b) && a != b
    ensures Namespaces(map[a + JSON := Directory]) == {a} && Counted(map[a + JSON := Directory]) == {}
    ensures !Tidy(map[a + JSON := Directory])
    ensures !NamespaceExists(map[a + JSON := Directory], b) && Allowed(1, map[a + JSON := Directory], b)
  {
    var d: Listing := map[a + JSON := Directory];
    assert (a + JSON)[..64] == a && (a + JSON)[64..] == JSON && (b + JSON)[..64] == b;
    assert NameKey(a + JSON) == Some(a) && KeyOf(a + JSON, Directory) == None;
    assert a + JSON in d && forall n :: n in d ==> n == a + JSON;
    assert |a + JSON| == 69;
    assert NamespaceExists(d, a) && !IsCounted(d, a);
  }

  /** The look under the lock is what holds the cap: with the same look before the lock instead, two requests share one place. */
  lemma WithoutTheRecheckTheCapFails(a: string, b: string) returns (steps: seq<Step>, s: State)
    requires IsKey(a) && IsKey(b) && a != b
    ensures Run(Policy(1, false), State(map[], [], None), steps) == Some(s) && |Namespaces(s.listing)| == 2
  {
    hide Counted, KeyOf, NameKey, IsCounted, Allowed, Apply;
    var first := [Arrive(a, DATA_WRITE), Arrive(b, DATA_WRITE), Check(0), Check(1)];
    var start := State(map[], [], None);
    var policy := Policy(1, false);
    var one := WithNamespace(map[], a, false);
    assert (a + JSON)[..64] == a && (b + JSON)[..64] == b;
    assert |a + JSON| == 69;
    assert !NamespaceExists(map[], a) && !NamespaceExists(map[], b) && !NamespaceExists(one, b);
    var s4 := Both(a, b, map[], Waiting, Waiting);
    BothWaiting(a, b);
    Admitted(policy, s4, 0);
    var s5 := Both(a, b, one, Serving, Waiting);
    assert s5 == At(s4, 0, Serving).(listing := one);
    Admitted(policy, s5, 1);
    s := At(s5, 1, Serving).(listing := WithNamespace(one, b, false));
    steps := first + [Enter(0), Recheck(0), Reserve(0, true, true)] + [Enter(1), Recheck(1), Reserve(1, true, true)];
    RunOn(policy, start, first, [Enter(0), Recheck(0), Reserve(0, true, true)]);
    RunOn(policy, start, first + [Enter(0), Recheck(0), Reserve(0, true, true)], [Enter(1), Recheck(1), Reserve(1, true, true)]);
    AddedName(map[], a, false);
    AddedName(one, b, false);
    assert Namespaces(map[]) == {} && Namespaces(s.listing) == {a, b};
  }

  function Both(a: string, b: string, d: Listing, p: Phase, q: Phase): State {
    State(d, [Request(a, DATA_WRITE, p), Request(b, DATA_WRITE, q)], None)
  }

  /** Both see room for one. */
  lemma BothWaiting(a: string, b: string)
    requires IsKey(a) && IsKey(b) && a != b
    ensures Run(Policy(1, false), State(map[], [], None), [Arrive(a, DATA_WRITE), Arrive(b, DATA_WRITE), Check(0), Check(1)])
         == Some(Both(a, b, map[], Waiting, Waiting))
  {
    hide IsKey;
    var policy := Policy(1, false);
    var start := State(map[], [], None);
    var s1 := start.(requests := [Request(a, DATA_WRITE, Arrived)]);
    var s2 := Both(a, b, map[], Arrived, Arrived);
    var s3 := Both(a, b, map[], Waiting, Arrived);
    var s4 := Both(a, b, map[], Waiting, Waiting);
    assert Counted(map[]) == {} && !NamespaceExists(map[], a) && !NamespaceExists(map[], b);
    assert [] + [Request(a, DATA_WRITE, Arrived)] == [Request(a, DATA_WRITE, Arrived)];
    assert s1.requests + [Request(b, DATA_WRITE, Arrived)] == s2.requests;
    assert At(s2, 0, Waiting) == s3 && At(s3, 1, Waiting) == s4;
    assert Apply(policy, start, Arrive(a, DATA_WRITE)) == Some(s1);
    assert Apply(policy, s1, Arrive(b, DATA_WRITE)) == Some(s2);
    assert Apply(policy, s2, Check(0)) == Some(s3);
    assert Apply(policy, s3, Check(1)) == Some(s4);
    Chain(policy, [start, s1, s2, s3, s4], [Arrive(a, DATA_WRITE), Arrive(b, DATA_WRITE), Check(0), Check(1)]);
  }
}
