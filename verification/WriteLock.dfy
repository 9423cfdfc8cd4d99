/**
 The write lock (server-storage.ts): a promise chain per key in each process, layered over one
 exclusive lock per shard across processes.

 An operation is named by its place in the global order of arrivals. Each step is one turn of an
 event loop, one poll of a shard's lock, or the death of a process.
 */
module WriteLock {
  import opened Wrappers

  datatype Phase =
    | Queued               // behind the tail it found on arrival
    | Locking              // its turn came; polling for the shard's lock
    | Running              // the callback runs
    | Settled(ok: bool)
    | Gone                 // its process died

  datatype Op = Op(
    process: nat,
    key: string,
    prev: Option<nat>,     // whose tail it waits for; None when the key was not in the map
    aborted: bool,         // its signal has fired
    rejected: bool,        // ... while it was queued, which rejected its caller
    phase: Phase)

  /** `shared` is false for a runner without a data directory, which takes no shard lock. */
  datatype Config = Config(shared: bool, shard: string -> nat)

  datatype State = State(
    ops: seq<Op>,
    tails: map<(nat, string), nat>,   // writeLocks, for every process
    holders: map<nat, nat>,           // the connection inside BEGIN IMMEDIATE, by shard
    dead: set<nat>,
    starts: seq<nat>)                 // which callbacks ran, in order

  datatype Step =
    | Arrive(process: nat, key: string, aborted: bool)
    | Abort(op: nat)
    | Turn(op: nat)        // the tail in front has resolved
    | Acquire(op: nat)     // BEGIN IMMEDIATE succeeded
    | GiveUp(op: nat)      // aborted, timed out or storage lost while polling
    | Finish(op: nat, ok: bool)
    | Cleanup(op: nat)     // the then() on the tail
    | Die(process: nat)

  const INITIAL := State([], map[], map[], {}, [])

  predicate Done(phase: Phase) { phase.Settled? || phase.Gone? }

  function WithPhase(s: State, i: nat, phase: Phase): State
    requires i < |s.ops|
  {
    s.(ops := s.ops[i := s.ops[i].(phase := phase)])
  }

  predicate FrontResolved(s: State, i: nat)
    requires i < |s.ops|
  {
    s.ops[i].prev.None? || (s.ops[i].prev.value < |s.ops| && Done(s.ops[s.ops[i].prev.value].phase))
  }

  function Deceased(o: Op, process: nat): Op {
    if o.process == process && !Done(o.phase) then o.(phase := Gone) else o
  }

  /** The state after a step; None when the step cannot happen. */
  function Apply(c: Config, s: State, step: Step): Option<State> {
    match step
    case Arrive(p, k, aborted) =>
      if p in s.dead then None
      else
        var prev := if (p, k) in s.tails then Some(s.tails[(p, k)]) else None;
        Some(s.(ops := s.ops + [Op(p, k, prev, aborted, aborted, Queued)], tails := s.tails[(p, k) := |s.ops|]))
    case Abort(i) =>
      if i >= |s.ops| || s.ops[i].aborted then None
      else Some(s.(ops := s.ops[i := s.ops[i].(aborted := true, rejected := s.ops[i].phase.Queued?)]))
    case Turn(i) =>
      if i >= |s.ops| || !s.ops[i].phase.Queued? || !FrontResolved(s, i) then None
      else if s.ops[i].aborted then Some(WithPhase(s, i, Settled(false)))
      else if c.shared then Some(WithPhase(s, i, Locking))
      else Some(WithPhase(s, i, Running).(starts := s.starts + [i]))
    case Acquire(i) =>
      if i >= |s.ops| || !s.ops[i].phase.Locking? || s.ops[i].aborted || c.shard(s.ops[i].key) in s.holders then None
      else Some(WithPhase(s, i, Running).(holders := s.holders[c.shard(s.ops[i].key) := i], starts := s.starts + [i]))
    case GiveUp(i) =>
      if i >= |s.ops| || !s.ops[i].phase.Locking? then None else Some(WithPhase(s, i, Settled(false)))
    case Finish(i, ok) =>
      if i >= |s.ops| || !s.ops[i].phase.Running? then None
      else Some(WithPhase(s, i, Settled(ok)).(holders := if c.shared then s.holders - {c.shard(s.ops[i].key)} else s.holders))
    case Cleanup(i) =>
      if i >= |s.ops| || !s.ops[i].phase.Settled? then None
      else
        var slot := (s.ops[i].process, s.ops[i].key);
        Some(if slot in s.tails && s.tails[slot] == i then s.(tails := s.tails - {slot}) else s)
    case Die(p) =>
      Some(s.(ops := seq(|s.ops|, i requires 0 <= i < |s.ops| => Deceased(s.ops[i], p)),
              tails := map t | t in s.tails && t.0 != p :: s.tails[t],
              holders := map h | h in s.holders && (s.holders[h] < |s.ops| ==> s.ops[s.holders[h]].process != p) :: s.holders[h],
              dead := s.dead + {p}))
  }

  function Run(c: Config, s: State, steps: seq<Step>): Option<State>
    decreases |steps|
  {
    if steps == [] then Some(s)
    else match Apply(c, s, steps[0]) { case None => None case Some(next) => Run(c, next, steps[1..]) }
  }

  // ---- the invariant ----

  predicate SameQueue(a: Op, b: Op) { a.process == b.process && a.key == b.key }

  /** Everything that arrived on this queue before i is done. */
  ghost predicate EarlierDone(s: State, i: nat)
    requires i <= |s.ops|
  {
    forall j :: 0 <= j < i && i < |s.ops| && SameQueue(s.ops[j], s.ops[i]) ==> Done(s.ops[j].phase)
  }

  /** An operation waits for the one just before it on its queue, or for nothing. */
  ghost predicate Chained(s: State, i: nat)
    requires i < |s.ops|
  {
    match s.ops[i].prev
    case None => EarlierDone(s, i)
    case Some(a) =>
      && a < i && SameQueue(s.ops[a], s.ops[i])
      && forall j :: a < j < i ==> !SameQueue(s.ops[j], s.ops[i])
  }

  ghost predicate Queues(s: State) {
    && (forall i :: 0 <= i < |s.ops| ==> Chained(s, i))
    && (forall i :: 0 <= i < |s.ops| && !s.ops[i].phase.Queued? ==> EarlierDone(s, i))
  }

  /** The map holds the last arrival of every queue that is not drained. */
  ghost predicate TailsLead(s: State) {
    && (forall t :: t in s.tails ==>
          && s.tails[t] < |s.ops| && s.ops[s.tails[t]].process == t.0 && s.ops[s.tails[t]].key == t.1 && t.0 !in s.dead
          && forall j :: s.tails[t] < j < |s.ops| ==> !SameQueue(s.ops[j], s.ops[s.tails[t]]))
    && (forall i :: 0 <= i < |s.ops| && !Done(s.ops[i].phase) ==>
          (s.ops[i].process, s.ops[i].key) in s.tails && s.ops[i].process !in s.dead)
  }

  /** A shard's lock is held by the one operation that runs under it. */
  ghost predicate LocksHeld(c: Config, s: State) {
    && (forall h :: h in s.holders ==>
          c.shared && s.holders[h] < |s.ops| && s.ops[s.holders[h]].phase.Running? && c.shard(s.ops[s.holders[h]].key) == h)
    && (c.shared ==> forall i :: 0 <= i < |s.ops| && s.ops[i].phase.Running? ==>
          c.shard(s.ops[i].key) in s.holders && s.holders[c.shard(s.ops[i].key)] == i)
  }

  predicate Started(o: Op) { !o.rejected && (o.phase.Running? || Done(o.phase)) }

  /** Callbacks ran once each, never after a rejection in the queue, and in arrival order on each queue. */
  ghost predicate StartsOrdered(s: State) {
    && (forall x :: 0 <= x < |s.starts| ==> s.starts[x] < |s.ops| && Started(s.ops[s.starts[x]]))
    && (forall x, y :: 0 <= x < y < |s.starts| && SameQueue(s.ops[s.starts[x]], s.ops[s.starts[y]]) ==> s.starts[x] < s.starts[y])
    && (forall i :: 0 <= i < |s.ops| && s.ops[i].phase.Running? ==> i in s.starts)
  }

  ghost predicate Sound(c: Config, dead: set<nat>, o: Op) {
    && (o.rejected ==> o.aborted && !o.phase.Locking? && !o.phase.Running?)
    && (o.phase.Locking? ==> c.shared)
    && (o.phase.Gone? ==> o.process in dead)
  }

  ghost predicate AllSound(c: Config, s: State) {
    forall i :: 0 <= i < |s.ops| ==> Sound(c, s.dead, s.ops[i])
  }

  ghost predicate Inv(c: Config, s: State) {
    Queues(s) && AllSound(c, s) && TailsLead(s) && LocksHeld(c, s) && StartsOrdered(s)
  }

  // ---- every step keeps it ----

  /** The steps that advance one operation, which never turn a finished one back. */
  ghost predicate Advanced(s: State, t: State, i: nat) {
    && i < |s.ops| && |t.ops| == |s.ops|
    && (forall j :: 0 <= j < |s.ops| && j != i ==> t.ops[j] == s.ops[j])
    && SameQueue(t.ops[i], s.ops[i]) && t.ops[i].prev == s.ops[i].prev
    && (Done(s.ops[i].phase) ==> t.ops[i].phase == s.ops[i].phase)
    && (t.ops[i].phase.Queued? ==> s.ops[i].phase.Queued?)
  }

  lemma AdvanceKeepsQueues(s: State, t: State, i: nat)
    requires Queues(s) && Advanced(s, t, i)
    requires !t.ops[i].phase.Queued? ==> EarlierDone(s, i)
    ensures Queues(t)
  {
    forall j | 0 <= j < |t.ops| && EarlierDone(s, j) ensures EarlierDone(t, j) {}
    forall j | 0 <= j < |t.ops| ensures Chained(t, j) { assert Chained(s, j); }
    forall j | 0 <= j < |t.ops| && !t.ops[j].phase.Queued? ensures EarlierDone(t, j) {
      assert EarlierDone(s, j);
    }
  }

  lemma AdvanceKeepsTails(s: State, t: State, i: nat)
    requires TailsLead(s) && Advanced(s, t, i) && t.tails == s.tails && t.dead == s.dead
    ensures TailsLead(t)
  {
    forall k | k in t.tails
      ensures t.ops[t.tails[k]].process == k.0 && t.ops[t.tails[k]].key == k.1
      ensures forall j :: t.tails[k] < j < |t.ops| ==> !SameQueue(t.ops[j], t.ops[t.tails[k]])
    {
      assert s.ops[s.tails[k]].process == k.0;
    }
  }

  /** The turn of an operation comes when all before it on its queue are done. */
  lemma FrontMeansAll(s: State, i: nat)
    requires Queues(s) && i < |s.ops| && FrontResolved(s, i)
    ensures EarlierDone(s, i)
  {
    assert Chained(s, i);
    if s.ops[i].prev.Some? {
      var a := s.ops[i].prev.value;
      assert EarlierDone(s, a);
      forall j | 0 <= j < i && SameQueue(s.ops[j], s.ops[i]) ensures Done(s.ops[j].phase) {
        if j < a { assert SameQueue(s.ops[j], s.ops[a]); }
      }
    }
  }

  /** A callback that starts is the last on its queue to have started. */
  lemma StartKeepsOrder(s: State, t: State, i: nat)
    requires Queues(s) && StartsOrdered(s) && Advanced(s, t, i) && EarlierDone(s, i)
    requires s.ops[i].phase.Queued? || s.ops[i].phase.Locking?
    requires t.ops[i].phase.Running? && !t.ops[i].rejected && t.starts == s.starts + [i]
    ensures StartsOrdered(t)
  {
    forall x | 0 <= x < |s.starts| && SameQueue(s.ops[s.starts[x]], s.ops[i]) ensures s.starts[x] < i {
      var j := s.starts[x];
      if j > i {
        assert EarlierDone(s, j);
        assert SameQueue(s.ops[i], s.ops[j]);
      }
    }
    forall x | 0 <= x < |t.starts| ensures t.starts[x] < |t.ops| && Started(t.ops[t.starts[x]]) {
      if x < |s.starts| { assert t.starts[x] == s.starts[x]; }
    }
    forall x, y | 0 <= x < y < |t.starts| && SameQueue(t.ops[t.starts[x]], t.ops[t.starts[y]])
      ensures t.starts[x] < t.starts[y]
    {
      assert t.starts[x] == s.starts[x];
    }
    forall j | 0 <= j < |t.ops| && t.ops[j].phase.Running? ensures j in t.starts {
      if j != i { assert j in s.starts; }
    }
  }

  /** Steps that start nothing. */
  lemma StartsKept(s: State, t: State)
    requires StartsOrdered(s) && t.starts == s.starts && |s.ops| <= |t.ops|
    requires forall j :: 0 <= j < |s.ops| ==> SameQueue(t.ops[j], s.ops[j]) && (Started(s.ops[j]) ==> Started(t.ops[j]))
    requires forall j :: 0 <= j < |t.ops| && t.ops[j].phase.Running? ==> j < |s.ops| && s.ops[j].phase.Running?
    ensures StartsOrdered(t)
  {
    forall x, y | 0 <= x < y < |t.starts| && SameQueue(t.ops[t.starts[x]], t.ops[t.starts[y]]) ensures t.starts[x] < t.starts[y] {
      assert SameQueue(s.ops[s.starts[x]], s.ops[s.starts[y]]);
    }
  }

  lemma QueuesGrow(s: State, t: State, o: Op)
    requires Queues(s) && TailsLead(s) && t.ops == s.ops + [o] && o.phase.Queued?
    requires o.prev == if (o.process, o.key) in s.tails then Some(s.tails[(o.process, o.key)]) else None
    ensures Queues(t)
  {
    var n := |s.ops|;
    assert forall j :: 0 <= j < n ==> t.ops[j] == s.ops[j];
    forall j | 0 <= j < n ensures Chained(t, j) && (!t.ops[j].phase.Queued? ==> EarlierDone(t, j)) {
      assert Chained(s, j);
      assert EarlierDone(s, j) ==> EarlierDone(t, j);
    }
    if o.prev.None? {
      forall i | 0 <= i < n && SameQueue(t.ops[i], o) ensures Done(t.ops[i].phase) {
        assert (s.ops[i].process, s.ops[i].key) in s.tails || Done(s.ops[i].phase);
      }
    }
    assert Chained(t, n);
  }

  lemma TailsGrow(s: State, t: State, o: Op)
    requires TailsLead(s) && t.ops == s.ops + [o] && t.tails == s.tails[(o.process, o.key) := |s.ops|]
    requires t.dead == s.dead && o.process !in s.dead
    ensures TailsLead(t)
  {
    assert forall j :: 0 <= j < |s.ops| ==> t.ops[j] == s.ops[j];
    forall q | q in t.tails ensures forall j :: t.tails[q] < j < |t.ops| ==> !SameQueue(t.ops[j], t.ops[t.tails[q]]) {
      assert q != (o.process, o.key) ==> q in s.tails;
    }
  }

  lemma ArriveKeeps(c: Config, s: State, t: State, p: nat, k: string, aborted: bool)
    requires Inv(c, s) && Apply(c, s, Arrive(p, k, aborted)) == Some(t)
    ensures Inv(c, t)
  {
    hide Queues, TailsLead, LocksHeld, AllSound, StartsOrdered;
    var o := t.ops[|s.ops|];
    assert forall j :: 0 <= j < |s.ops| ==> t.ops[j] == s.ops[j];
    QueuesGrow(s, t, o);
    TailsGrow(s, t, o);
    LocksGrow(c, s, t, o);
    StartsKept(s, t);
  }

  lemma LocksGrow(c: Config, s: State, t: State, o: Op)
    requires LocksHeld(c, s) && AllSound(c, s) && t.ops == s.ops + [o] && o.phase.Queued? && (o.rejected ==> o.aborted)
    requires t.holders == s.holders && t.dead == s.dead
    ensures LocksHeld(c, t) && AllSound(c, t)
  {
    assert forall j :: 0 <= j < |s.ops| ==> t.ops[j] == s.ops[j];
  }

  lemma DieKeepsQueues(s: State, t: State, p: nat)
    requires Queues(s) && |t.ops| == |s.ops|
    requires forall j :: 0 <= j < |t.ops| ==> t.ops[j] == Deceased(s.ops[j], p)
    ensures Queues(t)
  {
    forall j | 0 <= j < |t.ops| ensures EarlierDone(s, j) || s.ops[j].process == p ==> EarlierDone(t, j) {}
    forall j | 0 <= j < |t.ops| ensures Chained(t, j) { assert Chained(s, j); }
  }

  lemma DieKeepsTails(s: State, t: State, p: nat)
    requires TailsLead(s) && |t.ops| == |s.ops|
    requires forall j :: 0 <= j < |t.ops| ==> t.ops[j] == Deceased(s.ops[j], p)
    requires t.tails == (map q | q in s.tails && q.0 != p :: s.tails[q]) && t.dead == s.dead + {p}
    ensures TailsLead(t)
  {
    hide Deceased;
    forall j | 0 <= j < |t.ops|
      ensures SameQueue(t.ops[j], s.ops[j])
      ensures !Done(t.ops[j].phase) ==> !Done(s.ops[j].phase) && s.ops[j].process != p
    {
      DeceasedIs(s.ops[j], p);
    }
    forall q | q in t.tails
      ensures t.tails[q] < |t.ops| && t.ops[t.tails[q]].process == q.0 && t.ops[t.tails[q]].key == q.1 && q.0 !in t.dead
      ensures forall j :: t.tails[q] < j < |t.ops| ==> !SameQueue(t.ops[j], t.ops[t.tails[q]])
    {
      assert q in s.tails && s.tails[q] == t.tails[q];
    }
  }

  lemma DeceasedIs(o: Op, p: nat)
    ensures SameQueue(Deceased(o, p), o)
    ensures !Done(Deceased(o, p).phase) ==> !Done(o.phase) && o.process != p
  {
  }

  lemma DieKeepsLocks(c: Config, s: State, t: State, p: nat)
    requires LocksHeld(c, s) && |t.ops| == |s.ops|
    requires forall j :: 0 <= j < |t.ops| ==> t.ops[j] == Deceased(s.ops[j], p)
    requires t.holders == map h | h in s.holders && (s.holders[h] < |s.ops| ==> s.ops[s.holders[h]].process != p) :: s.holders[h]
    ensures LocksHeld(c, t)
  {
    forall h | h in t.holders ensures t.ops[t.holders[h]].phase.Running? && c.shard(t.ops[t.holders[h]].key) == h {
      assert s.ops[s.holders[h]].phase.Running? && c.shard(s.ops[s.holders[h]].key) == h;
    }
  }

  lemma DeceasedIsSound(c: Config, dead: set<nat>, o: Op, p: nat)
    requires Sound(c, dead, o)
    ensures Sound(c, dead + {p}, Deceased(o, p))
  {
  }

  lemma DieKeeps(c: Config, s: State, t: State, p: nat)
    requires Inv(c, s) && Apply(c, s, Die(p)) == Some(t)
    ensures Inv(c, t)
  {
    hide Queues, TailsLead, LocksHeld, StartsOrdered, Sound;
    forall j | 0 <= j < |t.ops| ensures t.ops[j] == Deceased(s.ops[j], p) {}
    DieKeepsQueues(s, t, p);
    DieKeepsTails(s, t, p);
    DieKeepsLocks(c, s, t, p);
    StartsKept(s, t);
    forall j | 0 <= j < |t.ops| ensures Sound(c, t.dead, t.ops[j]) {
      assert Sound(c, s.dead, s.ops[j]);
      DeceasedIsSound(c, s.dead, s.ops[j], p);
    }
  }

  lemma StepKeepsInv(c: Config, s: State, step: Step, t: State)
    requires Inv(c, s) && Apply(c, s, step) == Some(t)
    ensures Inv(c, t)
  {
    match step
    case Arrive(p, k, aborted) => ArriveKeeps(c, s, t, p, k, aborted);
    case Die(p) => DieKeeps(c, s, t, p);
    case Cleanup(i) => CleanupKeeps(c, s, t, i);
    case Abort(i) => AbortKeeps(c, s, t, i);
    case Turn(i) => TurnKeeps(c, s, t, i);
    case Acquire(i) => AcquireKeeps(c, s, t, i);
    case GiveUp(i) => SettleKeeps(c, s, t, i, false);
    case Finish(i, ok) => SettleKeeps(c, s, t, i, ok);
  }

  lemma CleanupKeeps(c: Config, s: State, t: State, i: nat)
    requires Inv(c, s) && Apply(c, s, Cleanup(i)) == Some(t)
    ensures Inv(c, t)
  {
    hide LocksHeld, AllSound, StartsOrdered, Queues, TailsLead;
    assert t.ops == s.ops && t.holders == s.holders && t.dead == s.dead;
    SameOpsKeep(c, s, t);
    assert EarlierDone(s, i) by { SettledHasNoEarlier(s, i); }
    TailDropped(s, t, i);
  }

  lemma SettledHasNoEarlier(s: State, i: nat)
    requires Queues(s) && i < |s.ops| && s.ops[i].phase.Settled?
    ensures EarlierDone(s, i)
  {
  }

  lemma SameOpsKeep(c: Config, s: State, t: State)
    requires t.ops == s.ops && t.holders == s.holders && t.dead == s.dead && t.starts == s.starts
    ensures Queues(s) ==> Queues(t)
    ensures LocksHeld(c, s) ==> LocksHeld(c, t)
    ensures AllSound(c, s) ==> AllSound(c, t)
    ensures StartsOrdered(s) ==> StartsOrdered(t)
  {
    if Queues(s) {
      assert forall j :: 0 <= j < |t.ops| && EarlierDone(s, j) ==> EarlierDone(t, j);
      forall j | 0 <= j < |t.ops| ensures Chained(t, j) { assert Chained(s, j); }
    }
  }

  /** Clearing the tail of a settled operation leaves those of open queues. */
  lemma TailDropped(s: State, t: State, i: nat)
    requires i < |s.ops| && TailsLead(s) && EarlierDone(s, i) && Done(s.ops[i].phase) && t.ops == s.ops && t.dead == s.dead
    requires var slot := (s.ops[i].process, s.ops[i].key);
             t.tails == if slot in s.tails && s.tails[slot] == i then s.tails - {slot} else s.tails
    ensures TailsLead(t)
  {
    forall j | 0 <= j < |t.ops| && !Done(t.ops[j].phase) ensures (t.ops[j].process, t.ops[j].key) in t.tails {
      assert SameQueue(s.ops[j], s.ops[i]) ==> s.tails[(s.ops[j].process, s.ops[j].key)] != i || j < i;
    }
  }

  lemma AbortKeeps(c: Config, s: State, t: State, i: nat)
    requires Inv(c, s) && Apply(c, s, Abort(i)) == Some(t)
    ensures Inv(c, t)
  {
    assert Advanced(s, t, i);
    assert Sound(c, s.dead, s.ops[i]);
    StartsKept(s, t);
    AdvanceKeepsQueues(s, t, i);
    AdvanceKeepsTails(s, t, i);
  }

  /** Steps after which i does not run, and holds no lock. */
  lemma LocksReleased(c: Config, s: State, t: State, i: nat)
    requires LocksHeld(c, s) && Advanced(s, t, i) && !t.ops[i].phase.Running?
    requires t.holders == if c.shared && s.ops[i].phase.Running? then s.holders - {c.shard(s.ops[i].key)} else s.holders
    ensures LocksHeld(c, t)
  {
    forall h | h in t.holders ensures t.ops[t.holders[h]].phase.Running? && c.shard(t.ops[t.holders[h]].key) == h {
      assert s.ops[s.holders[h]].phase.Running? && c.shard(s.ops[s.holders[h]].key) == h;
    }
  }

  lemma LocksTaken(c: Config, s: State, t: State, i: nat)
    requires LocksHeld(c, s) && Advanced(s, t, i) && t.ops[i].phase.Running? && !s.ops[i].phase.Running?
    requires if c.shared then c.shard(s.ops[i].key) !in s.holders && t.holders == s.holders[c.shard(s.ops[i].key) := i] else t.holders == s.holders
    ensures LocksHeld(c, t)
  {
    forall h | h in t.holders ensures c.shared && t.ops[t.holders[h]].phase.Running? && c.shard(t.ops[t.holders[h]].key) == h {
      if t.holders[h] != i { assert s.ops[s.holders[h]].phase.Running? && c.shard(s.ops[s.holders[h]].key) == h; }
    }
  }

  /** A started operation takes its place in the log, and the lock when there is one. */
  lemma StartKeeps(c: Config, s: State, t: State, i: nat)
    requires Inv(c, s) && Advanced(s, t, i) && EarlierDone(s, i) && t.tails == s.tails && t.dead == s.dead
    requires s.ops[i].phase.Queued? || s.ops[i].phase.Locking?
    requires t.ops[i] == s.ops[i].(phase := Running) && !s.ops[i].aborted && t.starts == s.starts + [i]
    requires if c.shared then c.shard(s.ops[i].key) !in s.holders && t.holders == s.holders[c.shard(s.ops[i].key) := i] else t.holders == s.holders
    ensures Inv(c, t)
  {
    assert Sound(c, s.dead, s.ops[i]);
    AdvanceKeepsQueues(s, t, i);
    AdvanceKeepsTails(s, t, i);
    StartKeepsOrder(s, t, i);
    LocksTaken(c, s, t, i);
  }

  /** Steps of an operation that is not running and does not start. */
  lemma WaitKeeps(c: Config, s: State, t: State, i: nat)
    requires Inv(c, s) && Advanced(s, t, i) && EarlierDone(s, i) && t.tails == s.tails && t.dead == s.dead && t.starts == s.starts
    requires t.ops[i].phase.Settled? || (t.ops[i].phase.Locking? && s.ops[i].phase.Queued?)
    requires Sound(c, s.dead, t.ops[i]) && (Started(s.ops[i]) ==> Started(t.ops[i]))
    requires t.holders == if c.shared && s.ops[i].phase.Running? then s.holders - {c.shard(s.ops[i].key)} else s.holders
    ensures Inv(c, t)
  {
    AdvanceKeepsQueues(s, t, i);
    AdvanceKeepsTails(s, t, i);
    StartsKept(s, t);
    LocksReleased(c, s, t, i);
  }

  lemma TurnKeeps(c: Config, s: State, t: State, i: nat)
    requires Inv(c, s) && Apply(c, s, Turn(i)) == Some(t)
    ensures Inv(c, t)
  {
    FrontMeansAll(s, i);
    assert Sound(c, s.dead, s.ops[i]);
    if t.ops[i].phase.Running? {
      StartKeeps(c, s, t, i);
    } else {
      WaitKeeps(c, s, t, i);
    }
  }

  lemma AcquireKeeps(c: Config, s: State, t: State, i: nat)
    requires Inv(c, s) && Apply(c, s, Acquire(i)) == Some(t)
    ensures Inv(c, t)
  {
    assert Sound(c, s.dead, s.ops[i]);
    assert EarlierDone(s, i);
    StartKeeps(c, s, t, i);
  }

  lemma SettleKeeps(c: Config, s: State, t: State, i: nat, ok: bool)
    requires Inv(c, s) && (Apply(c, s, GiveUp(i)) == Some(t) || Apply(c, s, Finish(i, ok)) == Some(t))
    ensures Inv(c, t)
  {
    assert Sound(c, s.dead, s.ops[i]);
    assert EarlierDone(s, i);
    WaitKeeps(c, s, t, i);
  }

  // ---- every run ----

  lemma {:induction false} RunKeepsInv(c: Config, s: State, steps: seq<Step>, t: State)
    requires Inv(c, s) && Run(c, s, steps) == Some(t)
    ensures Inv(c, t)
    decreases |steps|
  {
    if steps != [] {
      var next := Apply(c, s, steps[0]).value;
      StepKeepsInv(c, s, steps[0], next);
      RunKeepsInv(c, next, steps[1..], t);
    }
  }

  ghost predicate Reachable(c: Config, s: State) {
    exists steps :: Run(c, INITIAL, steps) == Some(s)
  }

  lemma ReachableInv(c: Config, s: State)
    requires Reachable(c, s)
    ensures Inv(c, s)
  {
    var steps :| Run(c, INITIAL, steps) == Some(s);
    RunKeepsInv(c, INITIAL, steps, s);
  }

  /** At most one callback per key runs: in all processes when they share a data directory, in one otherwise. */
  lemma OneRunsPerKey(c: Config, s: State, i: nat, j: nat)
    requires Reachable(c, s) && i < |s.ops| && j < |s.ops|
    requires s.ops[i].phase.Running? && s.ops[j].phase.Running? && s.ops[i].key == s.ops[j].key
    requires c.shared || s.ops[i].process == s.ops[j].process
    ensures i == j
  {
    ReachableInv(c, s);
    assert EarlierDone(s, i) && EarlierDone(s, j);
    assert c.shared || (SameQueue(s.ops[i], s.ops[j]) && SameQueue(s.ops[j], s.ops[i]));
  }

  /** Callbacks of one queue start in arrival order, each at most once. */
  lemma StartsInArrivalOrder(c: Config, s: State, x: nat, y: nat)
    requires Reachable(c, s) && x < y < |s.starts|
    ensures s.starts[x] < |s.ops| && s.starts[y] < |s.ops|
    ensures SameQueue(s.ops[s.starts[x]], s.ops[s.starts[y]]) ==> s.starts[x] < s.starts[y]
  {
    ReachableInv(c, s);
  }

  /** A queue with anything queued, polling or running is in the map. */
  lemma KeyLeavesWhenDrained(c: Config, s: State, process: nat, key: string)
    requires Reachable(c, s) && (process, key) !in s.tails
    ensures forall i :: 0 <= i < |s.ops| && s.ops[i].process == process && s.ops[i].key == key ==> Done(s.ops[i].phase)
  {
    ReachableInv(c, s);
  }

  lemma {:induction false} RejectionStays(c: Config, s: State, steps: seq<Step>, t: State, i: nat)
    requires Run(c, s, steps) == Some(t) && i < |s.ops| && s.ops[i].rejected && s.ops[i].aborted
    ensures i < |t.ops| && t.ops[i].rejected
    decreases |steps|
  {
    if steps != [] {
      RejectionStays(c, Apply(c, s, steps[0]).value, steps[1..], t, i);
    }
  }

  /** Once the queue has rejected a caller, its callback never runs, whatever happens next. */
  lemma RejectedNeverStarts(c: Config, s: State, steps: seq<Step>, t: State, i: nat)
    requires Reachable(c, s) && i < |s.ops| && s.ops[i].rejected && Run(c, s, steps) == Some(t)
    ensures i !in t.starts
  {
    ReachableInv(c, s);
    RejectionStays(c, s, steps, t, i);
    RunKeepsInv(c, s, steps, t);
    assert forall x :: 0 <= x < |t.starts| ==> Started(t.ops[t.starts[x]]);
  }

  // ---- nothing blocks a queue ----

  function Weight(ops: seq<Op>): nat {
    if ops == [] then 0 else PhaseWeight(ops[0].phase) + Weight(ops[1..])
  }

  function PhaseWeight(phase: Phase): nat {
    match phase
    case Queued => 3
    case Locking => 2
    case Running => 1
    case _ => 0
  }

  lemma {:induction false} WeightFalls(ops: seq<Op>, i: nat, o: Op)
    requires i < |ops|
    ensures Weight(ops[i := o]) == Weight(ops) - PhaseWeight(ops[i].phase) + PhaseWeight(o.phase)
  {
    if i > 0 {
      WeightFalls(ops[1..], i - 1, o);
      assert ops[i := o][1..] == ops[1..][i - 1 := o];
    }
  }

  /** The next step towards an idle runner: one that advances i, or clears a tail. */
  lemma NextStep(c: Config, s: State) returns (step: Step, t: State)
    requires Inv(c, s) && !Idle(s)
    ensures Apply(c, s, step) == Some(t) && Inv(c, t)
    ensures Progress(s, t)
  {
    hide Inv, Progress, Weight, FrontResolved;
    if i :| 0 <= i < |s.ops| && s.ops[i].phase.Running? {
      step := Finish(i, true);
      t := Apply(c, s, step).value;
      FinishAdvances(c, s, i, t);
    } else if exists i :: 0 <= i < |s.ops| && !Done(s.ops[i].phase) {
      var i := FirstOpen(s);
      step := OpenStep(c, s, i);
      t := Apply(c, s, step).value;
      OneAdvances(s, t, i);
    } else {
      step, t := TailStep(c, s);
    }
    StepKeepsInv(c, s, step, t);
  }

  lemma FinishAdvances(c: Config, s: State, i: nat, t: State)
    requires Inv(c, s) && i < |s.ops| && s.ops[i].phase.Running? && Apply(c, s, Finish(i, true)) == Some(t)
    ensures Progress(s, t)
  {
    assert i in s.starts;
    OneAdvances(s, t, i);
  }

  lemma TailStep(c: Config, s: State) returns (step: Step, t: State)
    requires Inv(c, s) && s.tails != map[] && forall i :: 0 <= i < |s.ops| ==> Done(s.ops[i].phase)
    ensures Apply(c, s, step) == Some(t) && Progress(s, t)
  {
    var slot :| slot in s.tails;
    step := Cleanup(s.tails[slot]);
    assert Done(s.ops[s.tails[slot]].phase) && Sound(c, s.dead, s.ops[s.tails[slot]]);
    t := Apply(c, s, step).value;
    assert t.tails.Keys == s.tails.Keys - {slot};
  }

  /** The first open operation can always move when nothing runs. */
  lemma OpenStep(c: Config, s: State, i: nat) returns (step: Step)
    requires Inv(c, s) && i < |s.ops| && !Done(s.ops[i].phase) && forall j :: 0 <= j < i ==> Done(s.ops[j].phase)
    requires forall j :: 0 <= j < |s.ops| ==> !s.ops[j].phase.Running?
    ensures step == if s.ops[i].phase.Queued? then Turn(i) else if s.ops[i].aborted then GiveUp(i) else Acquire(i)
    ensures Apply(c, s, step).Some?
  {
    assert Chained(s, i);
    step := if s.ops[i].phase.Queued? then Turn(i) else if s.ops[i].aborted then GiveUp(i) else Acquire(i);
  }

  lemma OneAdvances(s: State, t: State, i: nat)
    requires i < |s.ops| == |t.ops| && !Done(s.ops[i].phase) && t.ops == s.ops[i := t.ops[i]] && s.starts <= t.starts
    requires PhaseWeight(t.ops[i].phase) < PhaseWeight(s.ops[i].phase)
    requires Fair(s.ops[i], t.ops[i], i in t.starts)
    ensures Progress(s, t)
  {
    WeightFalls(s.ops, i, t.ops[i]);
  }

  lemma FirstOpen(s: State) returns (i: nat)
    requires exists i :: 0 <= i < |s.ops| && !Done(s.ops[i].phase)
    ensures i < |s.ops| && !Done(s.ops[i].phase)
    ensures forall j :: 0 <= j < i ==> Done(s.ops[j].phase)
  {
    i := 0;
    while Done(s.ops[i].phase)
      invariant i < |s.ops| && forall j :: 0 <= j < i ==> Done(s.ops[j].phase)
      decreases |s.ops| - i
    {
      assert exists k :: i < k < |s.ops| && !Done(s.ops[k].phase);
      i := i + 1;
    }
  }

  ghost predicate Idle(s: State) {
    s.tails == map[] && forall i :: 0 <= i < |s.ops| ==> Done(s.ops[i].phase)
  }

  /** Some operation or tail moved on; those that were not aborted ran, and settled well. */
  ghost predicate Progress(s: State, t: State) {
    && |t.ops| == |s.ops| && s.starts <= t.starts
    && (Weight(t.ops) < Weight(s.ops) || (Weight(t.ops) == Weight(s.ops) && |t.tails| < |s.tails|))
    && forall i :: 0 <= i < |s.ops| ==> Fair(s.ops[i], t.ops[i], i in t.starts)
  }

  ghost predicate Fair(before: Op, after: Op, started: bool) {
    && after.aborted == before.aborted
    && (Done(before.phase) ==> after.phase == before.phase)
    && (!before.aborted && Done(after.phase) && !Done(before.phase) ==> after.phase == Settled(true) && started)
  }

  /**
   From every reachable state, with no process dying and nothing new arriving, the runner can reach
   an idle state with an empty map in which every operation that was waiting, and was not aborted,
   has run: neither a failure, nor an abort, nor a death in front of it blocks it.
   */
  lemma {:induction false} Drains(c: Config, s: State) returns (steps: seq<Step>, t: State)
    requires Inv(c, s)
    ensures Run(c, s, steps) == Some(t) && Idle(t) && |t.ops| == |s.ops| && s.starts <= t.starts
    ensures forall i :: 0 <= i < |s.ops| && !Done(s.ops[i].phase) && !s.ops[i].aborted ==> t.ops[i].phase == Settled(true) && i in t.starts
    ensures forall i :: 0 <= i < |s.ops| && Done(s.ops[i].phase) ==> t.ops[i].phase == s.ops[i].phase
    decreases Weight(s.ops), |s.tails|
  {
    hide Inv, Apply, Fair;
    if Idle(s) {
      return [], s;
    }
    var step, next := NextStep(c, s);
    var rest;
    rest, t := Drains(c, next);
    steps := [step] + rest;
    FairOn(s, next, t);
  }

  /** A fair step, and then whatever is fair after it. */
  lemma FairOn(s: State, next: State, t: State)
    requires Progress(s, next) && |t.ops| == |next.ops| && next.starts <= t.starts
    requires forall i :: 0 <= i < |next.ops| && !Done(next.ops[i].phase) && !next.ops[i].aborted ==>
               t.ops[i].phase == Settled(true) && i in t.starts
    requires forall i :: 0 <= i < |next.ops| && Done(next.ops[i].phase) ==> t.ops[i].phase == next.ops[i].phase
    ensures s.starts <= t.starts
    ensures forall i :: 0 <= i < |s.ops| && !Done(s.ops[i].phase) && !s.ops[i].aborted ==> t.ops[i].phase == Settled(true) && i in t.starts
    ensures forall i :: 0 <= i < |s.ops| && Done(s.ops[i].phase) ==> t.ops[i].phase == s.ops[i].phase
  {
    hide Weight;
    forall i | 0 <= i < |s.ops|
      ensures !Done(s.ops[i].phase) && !s.ops[i].aborted ==> t.ops[i].phase == Settled(true) && i in t.starts
      ensures Done(s.ops[i].phase) ==> t.ops[i].phase == s.ops[i].phase
    {
      assert Fair(s.ops[i], next.ops[i], i in next.starts);
    }
  }
}
