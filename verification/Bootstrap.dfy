/**
 Publishing a bootstrapped database (db.ts, db-write-lock.ts): build at a temporary path, fold the
 write-ahead log in, then link to the canonical path, which must still be free.
 */
module Bootstrap {
  import opened Wrappers

  /**
   A database file: the rows in the main file, and those only in the log beside its path. `source` is
   what its builder set out to store; a database of the app itself is `outside`.
   */
  datatype Db<R> = Db(main: seq<R>, wal: seq<R>, source: seq<R>, outside: bool)

  datatype Outcome = Created | Existing

  datatype Phase =
    | Looking              // before the first existsSync
    | Waiting              // polling for the write lock
    | Inside               // holds it, before the second existsSync
    | Building             // the temporary database is open
    | Built                // checkpointed and closed
    | Linked(outcome: Outcome)
    | Reported(outcome: Outcome)
    | Failed
    | Killed

  datatype Process = Process(phase: Phase, file: Option<nat>)

  /** `canonical` is the inode that the canonical path names. */
  datatype State<R> = State(canonical: Option<nat>, dbs: seq<Db<R>>, processes: seq<Process>, lock: Option<nat>, json: seq<R>)

  datatype Step<R> =
    | Start
    | Look(p: nat)
    | Acquire(p: nat)
    | Recheck(p: nat)
    | StoreRow(p: nat)
    | Spill(p: nat)             // SQLite moves the log into the file on its own
    | Finish(p: nat)            // wal_checkpoint(TRUNCATE) and close
    | Link(p: nat)
    | Report(p: nat)
    | Throw(p: nat)             // any call fails, or the lock times out
    | Kill(p: nat)
    | CreateOutside(rows: seq<R>)
    | ChangeJson(rows: seq<R>)

  predicate Locked(phase: Phase) { phase.Inside? || phase.Building? || phase.Built? || phase.Linked? }

  function At<R>(s: State<R>, p: nat, phase: Phase): State<R>
    requires p < |s.processes|
  {
    s.(processes := s.processes[p := s.processes[p].(phase := phase)],
       lock := if s.lock == Some(p) && !Locked(phase) then None else s.lock)
  }

  predicate In<R>(s: State<R>, p: nat, phase: Phase) { p < |s.processes| && s.processes[p].phase == phase }

  predicate HasFile<R>(s: State<R>, p: nat) {
    p < |s.processes| && s.processes[p].file.Some? && s.processes[p].file.value < |s.dbs|
  }

  function WithDb<R>(s: State<R>, p: nat, d: Db<R>): State<R>
    requires HasFile(s, p)
  {
    s.(dbs := s.dbs[s.processes[p].file.value := d])
  }

  function FileOf<R>(s: State<R>, p: nat): Db<R>
    requires HasFile(s, p)
  {
    s.dbs[s.processes[p].file.value]
  }

  function Apply<R>(s: State<R>, step: Step<R>): Option<State<R>> {
    match step
    case Start => Some(s.(processes := s.processes + [Process(Looking, None)]))
    case Look(p) => if !In(s, p, Looking) then None else Some(At(s, p, if s.canonical.Some? then Reported(Existing) else Waiting))
    case Acquire(p) => if !In(s, p, Waiting) || s.lock.Some? then None else Some(At(s, p, Inside).(lock := Some(p)))
    case Recheck(p) =>
      if !In(s, p, Inside) then None
      else if s.canonical.Some? then Some(At(s, p, Reported(Existing)))
      else Some(At(s, p, Building).(dbs := s.dbs + [Db([], [], s.json, false)],
                                    processes := s.processes[p := Process(Building, Some(|s.dbs|))]))
    case StoreRow(p) =>
      if !In(s, p, Building) || !HasFile(s, p) then None
      else
        var d := FileOf(s, p);
        var n := |d.main| + |d.wal|;
        if n >= |d.source| then None else Some(WithDb(s, p, d.(wal := d.wal + [d.source[n]])))
    case Spill(p) =>
      if !In(s, p, Building) || !HasFile(s, p) then None
      else Some(WithDb(s, p, FileOf(s, p).(main := FileOf(s, p).main + FileOf(s, p).wal, wal := [])))
    case Finish(p) =>
      if !In(s, p, Building) || !HasFile(s, p) || |FileOf(s, p).main| + |FileOf(s, p).wal| != |FileOf(s, p).source| then None
      else Some(At(WithDb(s, p, FileOf(s, p).(main := FileOf(s, p).main + FileOf(s, p).wal, wal := [])), p, Built))
    case Link(p) =>
      if !In(s, p, Built) || !HasFile(s, p) then None
      else if s.canonical.Some? then Some(At(s, p, Linked(Existing)))
      else Some(At(s, p, Linked(Created)).(canonical := s.processes[p].file))
    case Report(p) =>
      if p >= |s.processes| || !s.processes[p].phase.Linked? then None else Some(At(s, p, Reported(s.processes[p].phase.outcome)))
    case Throw(p) =>
      if p >= |s.processes| || s.processes[p].phase.Reported? || s.processes[p].phase.Killed? then None else Some(At(s, p, Failed))
    case Kill(p) =>
      if p >= |s.processes| || s.processes[p].phase.Reported? then None else Some(At(s, p, Killed))
    case CreateOutside(rows) =>
      if s.canonical.Some? then None
      else Some(s.(canonical := Some(|s.dbs|), dbs := s.dbs + [Db(rows, [], rows, true)]))
    case ChangeJson(rows) => Some(s.(json := rows))
  }

  function Run<R>(s: State<R>, steps: seq<Step<R>>): Option<State<R>>
    decreases |steps|
  {
    if steps == [] then Some(s)
    else match Apply(s, steps[0]) { case None => None case Some(next) => Run(next, steps[1..]) }
  }

  function Initial<R>(json: seq<R>): State<R> { State(None, [], [], None, json) }

  // ---- the invariant ----

  ghost predicate Complete<R>(d: Db<R>) { d.main == d.source && d.wal == [] }

  ghost predicate SoundProcess<R>(s: State<R>, p: nat)
    requires p < |s.processes|
  {
    var q := s.processes[p];
    && (q.file.Some? ==> q.file.value < |s.dbs| && !s.dbs[q.file.value].outside)
    && (q.phase.Building? || q.phase.Built? || q.phase.Linked? ==> q.file.Some?)
    && (q.phase.Looking? || q.phase.Waiting? || q.phase.Inside? ==> q.file.None?)
    && (q.phase.Building? && q.file.Some? ==>
          s.dbs[q.file.value].main + s.dbs[q.file.value].wal <= s.dbs[q.file.value].source && s.canonical != q.file)
    && (q.phase.Built? && q.file.Some? ==> Complete(s.dbs[q.file.value]) && s.canonical != q.file)
    && (q.phase == Linked(Created) || q.phase == Reported(Created) ==> q.file.Some? && s.canonical == q.file)
    && (q.phase == Linked(Existing) || q.phase == Reported(Existing) ==> s.canonical.Some?)
    && (Locked(q.phase) <==> s.lock == Some(p))
  }

  ghost predicate Inv<R>(s: State<R>) {
    && (forall p :: 0 <= p < |s.processes| ==> SoundProcess(s, p))
    && (forall p, q :: 0 <= p < q < |s.processes| && s.processes[p].file.Some? ==> s.processes[p].file != s.processes[q].file)
    && (s.canonical.Some? ==> s.canonical.value < |s.dbs| && Complete(s.dbs[s.canonical.value]))
    && (s.lock.Some? ==> s.lock.value < |s.processes|)
  }

  lemma StepKeepsInv<R>(s: State<R>, step: Step<R>, t: State<R>)
    requires Inv(s) && Apply(s, step) == Some(t)
    ensures Inv(t)
    ensures s.canonical.Some? ==> t.canonical == s.canonical && t.dbs[s.canonical.value] == s.dbs[s.canonical.value]
  {
    match step
    case StoreRow(p) => FileStep(s, p, t);
    case Spill(p) => FileStep(s, p, t);
    case Finish(p) => FinishStep(s, p, t);
    case Link(p) => LinkStep(s, p, t);
    case Recheck(p) => OthersStay(s, p, t);
    case CreateOutside(rows) =>
      forall p | 0 <= p < |t.processes| ensures SoundProcess(t, p) { assert SoundProcess(s, p); }
    case ChangeJson(rows) =>
      forall p | 0 <= p < |t.processes| ensures SoundProcess(t, p) { assert SoundProcess(s, p); }
    case Start =>
      forall p | 0 <= p < |t.processes| ensures SoundProcess(t, p) { if p < |s.processes| { assert SoundProcess(s, p); } }
    case Look(p) => PhaseStep(s, p, t);
    case Acquire(p) => PhaseStep(s, p, t);
    case Report(p) => PhaseStep(s, p, t);
    case Throw(p) => PhaseStep(s, p, t);
    case Kill(p) => PhaseStep(s, p, t);
  }

  lemma PhaseStep<R>(s: State<R>, p: nat, t: State<R>)
    requires Inv(s)
    requires Apply(s, Look(p)) == Some(t) || Apply(s, Acquire(p)) == Some(t) || Apply(s, Report(p)) == Some(t)
             || Apply(s, Throw(p)) == Some(t) || Apply(s, Kill(p)) == Some(t)
    ensures Inv(t) && t.canonical == s.canonical && t.dbs == s.dbs
  {
    assert SoundProcess(s, p);
    PhaseMoves(s, p, t);
  }

  lemma PhaseMoves<R>(s: State<R>, p: nat, t: State<R>)
    requires Inv(s) && p < |s.processes| == |t.processes| && t.canonical == s.canonical && t.dbs == s.dbs
    requires t.processes == s.processes[p := t.processes[p]] && t.processes[p].file == s.processes[p].file
    requires t.lock == s.lock || (s.lock == Some(p) && t.lock.None?) || (s.lock.None? && t.lock == Some(p))
    requires SoundProcess(t, p)
    ensures Inv(t)
  {
    forall q | 0 <= q < |t.processes| ensures SoundProcess(t, q) {
      assert SoundProcess(s, q);
    }
  }

  lemma OthersStay<R>(s: State<R>, p: nat, t: State<R>)
    requires Inv(s) && Apply(s, Recheck(p)) == Some(t)
    ensures Inv(t) && t.canonical == s.canonical && s.dbs <= t.dbs
  {
    assert SoundProcess(s, p);
    forall q | 0 <= q < |t.processes|
      ensures SoundProcess(t, q) && (q != p ==> t.processes[q].file == s.processes[q].file && t.processes[q].file != Some(|s.dbs|))
    {
      assert SoundProcess(s, q);
    }
  }

  lemma FileStep<R>(s: State<R>, p: nat, t: State<R>)
    requires Inv(s) && (Apply(s, StoreRow(p)) == Some(t) || Apply(s, Spill(p)) == Some(t))
    ensures Inv(t) && t.canonical == s.canonical
    ensures s.canonical.Some? ==> t.dbs[s.canonical.value] == s.dbs[s.canonical.value]
  {
    assert SoundProcess(s, p);
    var d, e := FileOf(s, p), FileOf(t, p);
    if Apply(s, StoreRow(p)) == Some(t) {
      assert e.main + e.wal == (d.main + d.wal) + [d.source[|d.main| + |d.wal|]];
    } else {
      assert e.main + e.wal == d.main + d.wal;
    }
    forall q | 0 <= q < |t.processes| ensures SoundProcess(t, q) {
      assert SoundProcess(s, q);
    }
  }

  lemma FinishStep<R>(s: State<R>, p: nat, t: State<R>)
    requires Inv(s) && Apply(s, Finish(p)) == Some(t)
    ensures Inv(t) && t.canonical == s.canonical
    ensures s.canonical.Some? ==> t.dbs[s.canonical.value] == s.dbs[s.canonical.value]
  {
    assert SoundProcess(s, p);
    var d := FileOf(s, p);
    assert d.main + d.wal == d.source;
    forall q | 0 <= q < |t.processes| ensures SoundProcess(t, q) {
      assert SoundProcess(s, q);
    }
  }

  lemma LinkStep<R>(s: State<R>, p: nat, t: State<R>)
    requires Inv(s) && Apply(s, Link(p)) == Some(t)
    ensures Inv(t) && t.dbs == s.dbs && (s.canonical.Some? ==> t.canonical == s.canonical)
  {
    assert SoundProcess(s, p);
    forall q | 0 <= q < |t.processes| ensures SoundProcess(t, q) {
      assert SoundProcess(s, q);
    }
  }

  // ---- every run ----

  lemma {:induction false} RunKeepsInv<R>(s: State<R>, steps: seq<Step<R>>, t: State<R>)
    requires Inv(s) && Run(s, steps) == Some(t)
    ensures Inv(t)
    ensures s.canonical.Some? ==> t.canonical == s.canonical && t.dbs[s.canonical.value] == s.dbs[s.canonical.value]
    decreases |steps|
  {
    if steps != [] {
      var next := Apply(s, steps[0]).value;
      StepKeepsInv(s, steps[0], next);
      RunKeepsInv(next, steps[1..], t);
    }
  }

  /** Whatever interleaves and dies, the canonical path names nothing, or one complete database. */
  lemma CanonicalIsComplete<R>(json: seq<R>, steps: seq<Step<R>>, s: State<R>)
    requires Run(Initial(json), steps) == Some(s) && s.canonical.Some?
    ensures s.canonical.value < |s.dbs| && Complete(s.dbs[s.canonical.value])
  {
    RunKeepsInv(Initial(json), steps, s);
  }

  /** Once there, it is never replaced and never written to by a bootstrap. */
  lemma NeverOverwritten<R>(json: seq<R>, steps: seq<Step<R>>, s: State<R>, more: seq<Step<R>>, t: State<R>)
    requires Run(Initial(json), steps) == Some(s) && s.canonical.Some? && Run(s, more) == Some(t)
    ensures s.canonical.value < |s.dbs| && s.canonical.value < |t.dbs|
    ensures t.canonical == s.canonical && t.dbs[s.canonical.value] == s.dbs[s.canonical.value]
  {
    RunKeepsInv(Initial(json), steps, s);
    RunKeepsInv(s, more, t);
  }

  /** At most one caller reports that it created the database, and then it is the one it built. */
  lemma OneCreator<R>(json: seq<R>, steps: seq<Step<R>>, s: State<R>, p: nat, q: nat)
    requires Run(Initial(json), steps) == Some(s)
    requires In(s, p, Reported(Created)) && In(s, q, Reported(Created))
    ensures p == q && s.canonical == s.processes[p].file && s.canonical.Some?
  {
    RunKeepsInv(Initial(json), steps, s);
    assert SoundProcess(s, p) && SoundProcess(s, q);
  }

  /** A caller that returns at all finds a database; two builders are never at work at once. */
  lemma ReportsAreTrue<R>(json: seq<R>, steps: seq<Step<R>>, s: State<R>, p: nat, q: nat)
    requires Run(Initial(json), steps) == Some(s) && p < |s.processes| && q < |s.processes|
    ensures s.processes[p].phase.Reported? ==> s.canonical.Some?
    ensures Locked(s.processes[p].phase) && Locked(s.processes[q].phase) ==> p == q
  {
    RunKeepsInv(Initial(json), steps, s);
    assert SoundProcess(s, p) && SoundProcess(s, q);
    if s.processes[p].phase.Reported? {
      match s.processes[p].phase.outcome {
        case Created => assert s.processes[p].phase == Reported(Created);
        case Existing => assert s.processes[p].phase == Reported(Existing);
      }
    }
  }
}
