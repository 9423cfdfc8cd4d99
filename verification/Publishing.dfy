/** publish_release, read_max_version_code, and whole runs of publications and rollout actions (google-play-edit.py). */
module Publishing {
  import opened Wrappers
  import opened PlayConsole
  import opened RolloutControl
  import opened ReleasePlan

  function ReleaseFor(p: TrackPlan, code: nat): Release { Release([code], p.status, p.fraction, p.rest) }

  /** A staged release may go out: everything on production is older, and finished or halted. */
  ghost predicate ReadyForStaged(releases: seq<Release>, code: nat) {
    forall j :: 0 <= j < |releases| ==> Below(releases[j], code) && (releases[j].status == COMPLETED || releases[j].status == HALTED)
  }

  ghost predicate CodesUsed(releases: seq<Release>, used: set<nat>) {
    forall j, k :: 0 <= j < |releases| && 0 <= k < |releases[j].codes| ==> releases[j].codes[k] in used
  }

  /** Production after a plan: the new release joins it, if the plan has one for production. */
  ghost predicate PublishedTo(before: seq<Release>, after: seq<Release>, plan: seq<TrackPlan>, code: nat) {
    (after == before && forall i :: 0 <= i < |plan| ==> plan[i].track != PRODUCTION)
    || exists i :: 0 <= i < |plan| && plan[i].track == PRODUCTION && after == before + [ReleaseFor(plan[i], code)]
                   && (plan[i].status == IN_PROGRESS ==> ReadyForStaged(before, code))
  }

  lemma PublishingKeepsSingleRollout(before: seq<Release>, after: seq<Release>, plan: seq<TrackPlan>, code: nat)
    requires SingleRollout(before) && SoundPlan(plan) && PublishedTo(before, after, plan, code)
    ensures SingleRollout(after)
  {
    if after != before {
      assert forall j :: 0 <= j < |before| ==> after[j] == before[j];
    }
  }

  /** _validate_staged_production_state. */
  method ValidateStaged(console: Console, code: nat) returns (ok: bool)
    modifies console`trace, console`faults
    ensures console.trace == old(console.trace) + [ReadTrack]
    ensures ok ==> AllValid(console.draft, |console.draft|) && ReadyForStaged(console.draft, code)
    ensures console.faults >= old(console.faults)
    ensures console.faults == old(console.faults) ==>
              (ok <==> AllValid(console.draft, |console.draft|) && ReadyForStaged(console.draft, code))
  {
    var reply, releases := console.Read();
    if !reply.Accepted? { return false; }
    var trouble := console.Trouble();
    if trouble { return false; }  // malformed, or another track
    for i := 0 to |releases|
      modifies {}
      invariant AllValid(releases, i) && ReadyForStaged(releases[..i], code)
    {
      var valid, highest := HighestOf(releases[i].codes, 0);
      if !valid { return false; }
      for k := 0 to |releases[i].codes|
        invariant forall m :: 0 <= m < k ==> releases[i].codes[m] < code
      {
        if releases[i].codes[k] >= code { return false; }
      }
      if releases[i].status != COMPLETED && releases[i].status != HALTED { return false; }
    }
    assert releases[..|releases|] == releases;
    ok := true;
  }

  /** The track updates of one plan. */
  method WriteTracks(console: Console, plan: seq<TrackPlan>, code: nat) returns (ok: bool)
    requires SoundPlan(plan) && forall j :: 0 <= j < |console.draft| ==> console.draft[j].codes != [code]
    modifies console`draft, console`otherDrafts, console`trace, console`faults
    ensures console.faults >= old(console.faults) && (!ok ==> console.faults > old(console.faults))
    ensures old(console.trace) <= console.trace && NoTerminal(console.trace[|old(console.trace)|..])
    ensures ok && (forall i :: 0 <= i < |plan| ==> plan[i].track != PRODUCTION) ==> console.draft == old(console.draft)
    ensures ok ==> forall i :: 0 <= i < |plan| && plan[i].track == PRODUCTION ==> console.draft == old(console.draft) + [ReleaseFor(plan[i], code)]
  {
    for i := 0 to |plan|
      invariant old(console.trace) <= console.trace && NoTerminal(console.trace[|old(console.trace)|..])
      invariant console.faults >= old(console.faults)
      invariant (forall j :: 0 <= j < i ==> plan[j].track != PRODUCTION) ==> console.draft == old(console.draft)
      invariant forall j :: 0 <= j < i && plan[j].track == PRODUCTION ==> console.draft == old(console.draft) + [ReleaseFor(plan[j], code)]
    {
      ghost var draft := console.draft;
      var reply := console.Write(plan[i].track, ReleaseFor(plan[i], code));
      if !reply.Accepted? { return false; }
      if plan[i].track == PRODUCTION { MergedAppends(draft, ReleaseFor(plan[i], code)); }
    }
    ok := true;
  }

  /** The bundle, then the listing images and texts. */
  method UploadEverything(console: Console, expected: nat, others: nat) returns (ok: bool)
    modifies console`used, console`trace, console`faults
    ensures console.faults >= old(console.faults)
    ensures console.faults == old(console.faults) ==> (ok <==> expected !in old(console.used))
    ensures old(console.trace) <= console.trace && NoTerminal(console.trace[|old(console.trace)|..]) && old(console.used) <= console.used
    ensures ok ==> expected !in old(console.used) && console.used == old(console.used) + {expected}
  {
    var reply := console.UploadBundle(expected);
    if !reply.Accepted? { return false; }
    var trouble := console.Trouble();
    if trouble { return false; }  // the answer names another version code
    for k := 0 to others
      invariant old(console.trace) <= console.trace && NoTerminal(console.trace[|old(console.trace)|..])
      invariant console.used == old(console.used) + {expected} && expected !in old(console.used)
      invariant console.faults >= old(console.faults)
    {
      reply := console.SendOther();
      if !reply.Accepted? { return false; }
    }
    ok := true;
  }

  predicate IsStaged(plan: seq<TrackPlan>) {
    exists i :: 0 <= i < |plan| && plan[i].track == PRODUCTION && plan[i].status == IN_PROGRESS
  }

  /** When nothing fails on the way, exactly these plans are published: a new code, and room for a staged release. */
  ghost predicate Publishable(releases: seq<Release>, used: set<nat>, plan: seq<TrackPlan>, code: nat) {
    code !in used && (IsStaged(plan) ==> AllValid(releases, |releases|) && ReadyForStaged(releases, code))
  }

  /** Everything before the commit. */
  method StagePublication(console: Console, plan: seq<TrackPlan>, expected: nat, others: nat) returns (ok: bool)
    requires SoundPlan(plan) && console.draft == console.production && CodesUsed(console.production, console.used)
    modifies console`used, console`draft, console`otherDrafts, console`trace, console`faults
    ensures console.faults >= old(console.faults)
    ensures console.faults == old(console.faults) ==> (ok <==> Publishable(console.production, old(console.used), plan, expected))
    ensures old(console.trace) <= console.trace && NoTerminal(console.trace[|old(console.trace)|..]) && old(console.used) <= console.used
    ensures ok ==> PublishedTo(console.production, console.draft, plan, expected) && CodesUsed(console.draft, console.used)
  {
    ghost var before := console.production;
    if IsStaged(plan) {
      var ready := ValidateStaged(console, expected);
      if !ready { return false; }
    }
    var uploaded := UploadEverything(console, expected, others);
    if !uploaded { return false; }
    assert forall j :: 0 <= j < |before| && before[j].codes == [expected] ==> before[j].codes[0] in old(console.used);
    ok := WriteTracks(console, plan, expected);
  }

  method InsidePublish(console: Console, plan: seq<TrackPlan>, expected: nat, others: nat) returns (r: Result<()>)
    requires SoundPlan(plan) && console.draft == console.production && CodesUsed(console.production, console.used)
    modifies console`production, console`draft, console`others, console`otherDrafts, console`used, console`trace, console`faults
    ensures old(console.trace) <= console.trace && old(console.used) <= console.used
    ensures r.Ok? ==> OneCommit(console.trace[|old(console.trace)|..]) && PublishedTo(old(console.production), console.production, plan, expected)
    ensures r.Raised? ==> AtMostOneCommit(console.trace[|old(console.trace)|..])
    ensures r == Raised(false) ==> console.production == old(console.production)
    ensures console.production == old(console.production) || PublishedTo(old(console.production), console.production, plan, expected)
    ensures CodesUsed(console.production, console.used)
    ensures console.faults >= old(console.faults)
    ensures console.faults == old(console.faults) ==> (r.Ok? <==> Publishable(old(console.production), old(console.used), plan, expected))
  {
    var staged := StagePublication(console, plan, expected, others);
    ghost var updates := console.trace[|old(console.trace)|..];
    if !staged { return Raised(false); }
    r := CommitEdit(console);
    assert console.trace[|old(console.trace)|..] == updates + [Commit];
    assert (updates + [Commit])[..|updates|] == updates;
  }

  /** publish_release. */
  method PublishRelease(console: Console, plan: seq<TrackPlan>, expected: nat, others: nat) returns (r: Result<()>)
    requires SoundPlan(plan) && CodesUsed(console.production, console.used)
    modifies console
    ensures old(console.trace) <= console.trace && old(console.used) <= console.used && CodesUsed(console.production, console.used)
    ensures r.Ok? ==> OneCommit(console.trace[|old(console.trace)|..]) && PublishedTo(old(console.production), console.production, plan, expected)
    ensures console.edits == old(console.edits) + 1 || (console.edits == old(console.edits) && r == Raised(false))
    ensures r.Raised? ==> if console.edits > old(console.edits) then CleanedUp(console.trace[|old(console.trace)|..])
                          else console.trace == old(console.trace) + [OpenEdit]
    ensures r == Raised(false) ==> console.production == old(console.production)
    ensures console.production == old(console.production) || PublishedTo(old(console.production), console.production, plan, expected)
    ensures console.faults >= old(console.faults)
    ensures console.faults == old(console.faults) ==> (r.Ok? <==> Publishable(old(console.production), old(console.used), plan, expected))
  {
    var reply, usableId := console.Open();
    if !usableId { return Raised(false); }
    ghost var sent := console.trace;
    r := InsidePublish(console, plan, expected, others);
    ghost var inside := console.trace[|sent|..];
    Framed(inside);
    assert console.trace[|old(console.trace)|..] == [OpenEdit] + inside;
    if r.Raised? {
      CleanupAfterFailure(console);
      assert console.trace[|old(console.trace)|..] == [OpenEdit] + inside + [DiscardEdit];
    }
  }

  // ---- read_max_version_code ----

  ghost predicate HighestOn(tracks: seq<seq<Release>>, n: nat, maximum: nat)
    requires n <= |tracks|
  {
    && (forall t, j, k :: 0 <= t < n && 0 <= j < |tracks[t]| && 0 <= k < |tracks[t][j].codes| ==> tracks[t][j].codes[k] <= maximum)
    && (maximum > 0 ==> exists t, j :: 0 <= t < n && 0 <= j < |tracks[t]| && maximum in tracks[t][j].codes)
  }

  /** Every release of every track has valid version codes. */
  ghost predicate AllTracksValid(console: Console)
    reads console
  {
    forall r :: console.OnSomeTrack(r) ==> AllValid([r], 1)
  }

  /** The highest version code over all tracks; 0 when there is none. */
  ghost predicate HighestAnywhere(console: Console, maximum: nat)
    reads console
  {
    && (forall r, k :: console.OnSomeTrack(r) && 0 <= k < |r.codes| ==> r.codes[k] <= maximum)
    && (maximum > 0 ==> exists r :: console.OnSomeTrack(r) && maximum in r.codes)
  }

  /** The cleanup after a good read is outside the try: when it fails the call raises and sends nothing more. */
  method ReadMaxVersionCode(console: Console) returns (r: Result<nat>)
    modifies console`draft, console`otherDrafts, console`trace, console`edits, console`faults
    ensures console.faults >= old(console.faults)
    ensures console.faults == old(console.faults) ==> (r.Ok? <==> AllTracksValid(console))
    ensures r.Ok? ==> AllTracksValid(console) && HighestAnywhere(console, r.value)
    ensures r.Ok? ==> console.edits == old(console.edits) + 1
    ensures console.edits == old(console.edits) + 1 || console.edits == old(console.edits)
    ensures console.trace == old(console.trace)
                             + if console.edits > old(console.edits) then [OpenEdit, ReadTracks, DiscardEdit] else [OpenEdit]
  {
    var reply, usableId := console.Open();
    if !usableId { return Raised(false); }
    var tracks;
    reply, tracks := console.ReadAll();
    var maximum := 0;
    var ok := reply.Accepted?;
    if ok {
      var trouble := console.Trouble();  // the answer is malformed
      ok := !trouble;
    }
    if ok {
      ok, maximum := HighestAcross(tracks);
      assert console.draft == console.production && console.otherDrafts == console.others;
      forall r: Release ensures (exists t :: 0 <= t < |tracks| && r in tracks[t]) <==> console.OnSomeTrack(r) {
        assert Among(r, console.draft, console.otherDrafts) == console.OnSomeTrack(r);
      }
      TracksAre(console, tracks);
    }
    if !ok {
      CleanupAfterFailure(console);
      return Raised(false);
    }
    reply := console.Discard();
    if !reply.Accepted? { return Raised(false); }
    r := Ok(maximum);
  }

  /** What holds of every listed release holds of every release of every track. */
  lemma TracksAre(console: Console, tracks: seq<seq<Release>>)
    requires forall r :: (exists t :: 0 <= t < |tracks| && r in tracks[t]) <==> console.OnSomeTrack(r)
    ensures (forall t :: 0 <= t < |tracks| ==> AllValid(tracks[t], |tracks[t]|)) <==> AllTracksValid(console)
    ensures forall maximum :: HighestOn(tracks, |tracks|, maximum) ==> HighestAnywhere(console, maximum)
  {
    if forall t :: 0 <= t < |tracks| ==> AllValid(tracks[t], |tracks[t]|) {
      forall r | console.OnSomeTrack(r) ensures AllValid([r], 1) {
        var t :| 0 <= t < |tracks| && r in tracks[t];
        var j :| 0 <= j < |tracks[t]| && tracks[t][j] == r;
        assert AllValid(tracks[t], |tracks[t]|);
      }
    }
    if AllTracksValid(console) {
      forall t | 0 <= t < |tracks| ensures AllValid(tracks[t], |tracks[t]|) {
        forall j, k | 0 <= j < |tracks[t]| && 0 <= k < |tracks[t][j].codes| ensures IsVersionCode(tracks[t][j].codes[k]) {
          assert tracks[t][j] in tracks[t] && console.OnSomeTrack(tracks[t][j]);
          assert AllValid([tracks[t][j]], 1) && [tracks[t][j]][0].codes[k] == tracks[t][j].codes[k];
        }
      }
    }
    forall maximum | HighestOn(tracks, |tracks|, maximum) ensures HighestAnywhere(console, maximum) {
      forall r, k | console.OnSomeTrack(r) && 0 <= k < |r.codes| ensures r.codes[k] <= maximum {
        var t :| 0 <= t < |tracks| && r in tracks[t];
        var j :| 0 <= j < |tracks[t]| && tracks[t][j] == r;
      }
      if maximum > 0 {
        var t, j :| 0 <= t < |tracks| && 0 <= j < |tracks[t]| && maximum in tracks[t][j].codes;
        assert tracks[t][j] in tracks[t] && console.OnSomeTrack(tracks[t][j]);
      }
    }
  }

  method HighestAcross(tracks: seq<seq<Release>>) returns (ok: bool, maximum: nat)
    ensures ok <==> forall t :: 0 <= t < |tracks| ==> AllValid(tracks[t], |tracks[t]|)
    ensures ok ==> HighestOn(tracks, |tracks|, maximum)
  {
    maximum := 0;
    for t := 0 to |tracks|
      invariant forall s :: 0 <= s < t ==> AllValid(tracks[s], |tracks[s]|)
      invariant HighestOn(tracks, t, maximum)
    {
      ghost var before := maximum;
      for j := 0 to |tracks[t]|
        invariant maximum >= before && AllValid(tracks[t], j)
        invariant forall i, k :: 0 <= i < j && 0 <= k < |tracks[t][i].codes| ==> tracks[t][i].codes[k] <= maximum
        invariant maximum == before || exists i :: 0 <= i < j && maximum in tracks[t][i].codes
      {
        var valid, higher := HighestOf(tracks[t][j].codes, maximum);
        if !valid { return false, 0; }
        maximum := higher;
      }
    }
    ok := true;
  }

  // ---- whole runs ----

  datatype Command =
    | Control(version: Option<nat>, action: Action, percentage: Option<real>)
    | Publish(tracks: seq<string>, stable: bool, mode: string, share: real, name: string, notes: string, code: nat, others: nat)

  /** Every release stays where it is, keeps its codes and name, and never loses users. */
  ghost predicate Grown(before: seq<Release>, after: seq<Release>) {
    |before| <= |after|
    && forall i :: 0 <= i < |before| ==>
         after[i].codes == before[i].codes && after[i].rest == before[i].rest && Share(after[i]) >= Share(before[i])
  }

  lemma ControlGrows(before: seq<Release>, after: seq<Release>, version: Option<nat>, action: Action, percentage: Option<real>)
    requires MovedBy(before, after, version, action, percentage)
    ensures Grown(before, after)
    ensures SingleRollout(before) ==> SingleRollout(after)
    ensures forall used :: CodesUsed(before, used) ==> CodesUsed(after, used)
  {
    var i: nat :| SoleNewest(before, i) && Moved(before[i], action, percentage).Some?
                  && after == before[i := Moved(before[i], action, percentage).value];
    var requested := if action.Increase? then percentage.value / 100.0
                     else if action.Auto? then AutoMove(before[i].fraction.value).value.1 / 100.0 else 0.0;
    var effective := if action.Auto? then AutoMove(before[i].fraction.value).value.0 else action;
    assert Moved(before[i], action, percentage) == Mutated(before[i], effective, requested);
    MutationNeverShrinks(before[i], effective, requested);
    if SingleRollout(before) { MutationKeepsSingleRollout(before, i, effective, requested); }
  }

  /** Halting and resuming the same version puts production back exactly. */
  lemma HaltThenResumeRestores(before: seq<Release>, halted: seq<Release>, after: seq<Release>, version: nat)
    requires MovedBy(before, halted, Some(version), Halt, None) && MovedBy(halted, after, Some(version), Resume, None)
    ensures after == before
  {
    var i: nat :| SoleNewest(before, i) && before[i].codes == [version] && Moved(before[i], Halt, None).Some?
                  && halted == before[i := Moved(before[i], Halt, None).value];
    var j: nat :| SoleNewest(halted, j) && halted[j].codes == [version] && Moved(halted[j], Resume, None).Some?
                  && after == halted[j := Moved(halted[j], Resume, None).value];
    assert halted[i].codes == [version];
    NewestIsFirst(halted, j);
  }

  /**
   Over every run of planned publications and rollout actions, with requests refused or lost at any
   point: at most one production release is in progress, every halted version code is below it, and
   no release loses users.
   */
  method Run(console: Console, commands: seq<Command>)
    requires SingleRollout(console.production) && CodesUsed(console.production, console.used)
    modifies console
    ensures SingleRollout(console.production) && CodesUsed(console.production, console.used)
    ensures Grown(old(console.production), console.production)
  {
    for i := 0 to |commands|
      invariant SingleRollout(console.production) && CodesUsed(console.production, console.used)
      invariant Grown(old(console.production), console.production)
    {
      ghost var before := console.production;
      match commands[i] {
        case Control(version, action, percentage) =>
          var r := ControlRollout(console, version, action, percentage);
          if console.production != before { ControlGrows(before, console.production, version, action, percentage); }
        case Publish(tracks, stable, mode, share, name, notes, code, others) =>
          var plan := BuildPlan(tracks, stable, mode, share, name, notes);
          if plan.Some? {
            var r := PublishRelease(console, plan.value, code, others);
            if console.production != before { PublishingKeepsSingleRollout(before, console.production, plan.value, code); }
          }
      }
    }
  }
}
