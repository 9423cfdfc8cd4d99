/** Staged rollouts on the production track (google-play-edit.py, android-play-release-plan.py). */
module RolloutControl {
  import opened Wrappers
  import JsMaps
  import opened PlayConsole

  datatype Action = Status | Increase | Halt | Resume | Finalize | Auto

  /** An exception says whether it was CommitOutcomeUnknown. */
  datatype Result<+T> = Ok(value: T) | Raised(unknown: bool)

  datatype Report = Report(version: Option<nat>, decision: string, status: string, percentage: Option<real>, committed: bool)

  const IN_PROGRESS := "inProgress"
  const HALTED := "halted"
  const COMPLETED := "completed"
  const DRAFT := "draft"
  const MAX_VERSION_CODE := 2_100_000_000

  predicate IsVersionCode(c: nat) { 0 < c <= MAX_VERSION_CODE }

  // ---- the invariant of the production track ----

  /** A fraction strictly between 0 and 1, on exactly the releases that are rolling out. */
  predicate IsRollout(r: Release) {
    (r.status == IN_PROGRESS || r.status == HALTED) && r.fraction.Some? && 0.0 < r.fraction.value < 1.0
  }

  ghost predicate Below(r: Release, code: nat) { forall k :: 0 <= k < |r.codes| ==> r.codes[k] < code }

  ghost predicate SingleRollout(releases: seq<Release>) {
    && (forall i :: 0 <= i < |releases| && releases[i].status == IN_PROGRESS ==> |releases[i].codes| == 1)
    && (forall i, j :: 0 <= i < j < |releases| ==> !(releases[i].status == IN_PROGRESS && releases[j].status == IN_PROGRESS))
    && (forall i, j :: 0 <= i < |releases| && 0 <= j < |releases| && releases[i].status == IN_PROGRESS && releases[j].status == HALTED ==>
          Below(releases[j], releases[i].codes[0]))
  }

  /** Release i is the only one with the highest version code, and has no other. */
  ghost predicate SoleNewest(releases: seq<Release>, i: nat) {
    && i < |releases| && |releases[i].codes| == 1
    && forall j :: 0 <= j < |releases| && j != i ==> Below(releases[j], releases[i].codes[0])
  }

  /** What one action may do to the release it is aimed at. */
  function Mutated(target: Release, action: Action, requested: real): Option<Release> {
    if target.fraction.None? || !(0.0 < target.fraction.value < 1.0) then None
    else match action
      case Increase => if target.status == IN_PROGRESS && requested > target.fraction.value then Some(target.(fraction := Some(requested))) else None
      case Halt => if target.status == IN_PROGRESS then Some(target.(status := HALTED)) else None
      case Resume => if target.status == HALTED then Some(target.(status := IN_PROGRESS)) else None
      case Finalize => if target.status == IN_PROGRESS || target.status == HALTED then Some(target.(status := COMPLETED, fraction := None)) else None
      case _ => None
  }

  /** Any mutation of the sole newest release keeps the invariant. */
  lemma MutationKeepsSingleRollout(releases: seq<Release>, i: nat, action: Action, requested: real)
    requires SingleRollout(releases) && SoleNewest(releases, i) && Mutated(releases[i], action, requested).Some?
    ensures SingleRollout(releases[i := Mutated(releases[i], action, requested).value])
  {
    var after := releases[i := Mutated(releases[i], action, requested).value];
    assert forall j :: 0 <= j < |releases| && j != i ==> after[j] == releases[j];
    assert after[i].codes == releases[i].codes;
    if releases[i].status == HALTED && after[i].status == IN_PROGRESS {
      forall j | 0 <= j < |releases| && j != i ensures releases[j].status != IN_PROGRESS {
        assert Below(releases[j], releases[i].codes[0]);
      }
    }
  }

  /** ... and loses nobody: the share of users never goes down. */
  function Share(r: Release): real {
    if r.status == COMPLETED then 1.0 else if r.fraction.Some? then r.fraction.value else 0.0
  }

  lemma MutationNeverShrinks(target: Release, action: Action, requested: real)
    requires Mutated(target, action, requested).Some? && (action.Increase? ==> requested < 1.0)
    ensures Share(Mutated(target, action, requested).value) >= Share(target)
    ensures Mutated(target, action, requested).value.codes == target.codes
    ensures Mutated(target, action, requested).value.rest == target.rest
    ensures action.Halt? ==> Mutated(Mutated(target, action, requested).value, Resume, requested) == Some(target)
  {
  }

  // ---- reading the track ----

  ghost predicate Highest(releases: seq<Release>, n: nat, maximum: nat)
    requires n <= |releases|
  {
    && (forall j, k :: 0 <= j < n && 0 <= k < |releases[j].codes| ==> releases[j].codes[k] <= maximum)
    && (maximum > 0 ==> exists j :: 0 <= j < n && maximum in releases[j].codes)
  }

  /** Every release that has `code` has nothing else, and these are the ones. */
  ghost predicate Matches(releases: seq<Release>, n: nat, code: nat, matching: seq<nat>)
    requires n <= |releases|
  {
    && (forall j :: 0 <= j < n && code in releases[j].codes ==> releases[j].codes == [code])
    && (forall j :: j in matching <==> 0 <= j < n && code in releases[j].codes)
    && (forall x :: 0 <= x < |matching| ==> matching[x] < n)
    && (forall x, y :: 0 <= x < y < |matching| ==> matching[x] < matching[y])
  }

  ghost predicate AllValid(releases: seq<Release>, n: nat)
    requires n <= |releases|
  {
    forall j, k :: 0 <= j < n && 0 <= k < |releases[j].codes| ==> IsVersionCode(releases[j].codes[k])
  }

  ghost predicate Unambiguous(releases: seq<Release>, n: nat, code: nat)
    requires n <= |releases|
  {
    forall j :: 0 <= j < n && code in releases[j].codes ==> releases[j].codes == [code]
  }

  method HighestOf(codes: seq<nat>, start: nat) returns (ok: bool, maximum: nat)
    ensures ok <==> forall k :: 0 <= k < |codes| ==> IsVersionCode(codes[k])
    ensures ok ==> maximum >= start && (maximum == start || maximum in codes) && forall k :: 0 <= k < |codes| ==> codes[k] <= maximum
  {
    maximum := start;
    for k := 0 to |codes|
      invariant maximum >= start && (maximum == start || maximum in codes)
      invariant forall j :: 0 <= j < k ==> IsVersionCode(codes[j]) && codes[j] <= maximum
    {
      if !IsVersionCode(codes[k]) { return false, 0; }
      if codes[k] > maximum { maximum := codes[k]; }
    }
    ok := true;
  }

  /** The first loop of control_rollout. */
  method Scan(releases: seq<Release>, version: Option<nat>) returns (ok: bool, matching: seq<nat>, maximum: nat)
    ensures ok <==> AllValid(releases, |releases|) && (version.Some? ==> Unambiguous(releases, |releases|, version.value))
    ensures ok ==> Highest(releases, |releases|, maximum)
    ensures ok && version.Some? ==> Matches(releases, |releases|, version.value, matching)
  {
    matching, maximum := [], 0;
    for i := 0 to |releases|
      invariant AllValid(releases, i) && (version.Some? ==> Unambiguous(releases, i, version.value))
      invariant Highest(releases, i, maximum)
      invariant version.Some? ==> Matches(releases, i, version.value, matching)
    {
      var valid, higher := HighestOf(releases[i].codes, maximum);
      if !valid { return false, [], 0; }
      if version.Some? && version.value in releases[i].codes {
        if releases[i].codes != [version.value] { return false, [], 0; }
        matching := matching + [i];
      }
      maximum := higher;
    }
    ok := true;
  }

  /** The second loop: which releases have the newest code. */
  method FindNewest(releases: seq<Release>, maximum: nat) returns (ok: bool, matching: seq<nat>)
    ensures ok <==> Unambiguous(releases, |releases|, maximum)
    ensures ok ==> Matches(releases, |releases|, maximum, matching)
  {
    matching := [];
    for i := 0 to |releases|
      invariant Matches(releases, i, maximum, matching)
    {
      if maximum in releases[i].codes {
        if releases[i].codes != [maximum] { return false, []; }
        matching := matching + [i];
      }
    }
    ok := true;
  }

  /** A single match of the highest code is the sole newest release. */
  lemma SingleMatchIsNewest(releases: seq<Release>, code: nat, matching: seq<nat>)
    requires Highest(releases, |releases|, code) && Matches(releases, |releases|, code, matching) && |matching| == 1
    ensures SoleNewest(releases, matching[0]) && releases[matching[0]].codes == [code]
  {
    assert matching[0] in matching;
    forall j | 0 <= j < |releases| && j != matching[0] ensures Below(releases[j], code) {
      assert j !in matching;
      assert forall k :: 0 <= k < |releases[j].codes| ==> releases[j].codes[k] in releases[j].codes;
    }
  }

  /** ... and the sole newest release is what a scan finds. */
  lemma NewestIsMatched(releases: seq<Release>, i: nat, maximum: nat)
    requires SoleNewest(releases, i) && AllValid(releases, |releases|) && Highest(releases, |releases|, maximum)
    ensures maximum == releases[i].codes[0] > 0 && Unambiguous(releases, |releases|, maximum)
    ensures forall matching :: Matches(releases, |releases|, maximum, matching) ==> matching == [i]
  {
    var code := releases[i].codes[0];
    assert releases[i].codes == [code] && code <= maximum && IsVersionCode(code);
    forall j | 0 <= j < |releases| && j != i ensures forall c :: c in releases[j].codes ==> c < code {
      assert Below(releases[j], code);
    }
    forall matching | Matches(releases, |releases|, maximum, matching) ensures matching == [i] {
      OnlyOneMatch(matching, i);
    }
  }

  lemma OnlyOneMatch(matching: seq<nat>, i: nat)
    requires forall j :: j in matching <==> j == i
    requires forall x, y :: 0 <= x < y < |matching| ==> matching[x] < matching[y]
    ensures matching == [i]
  {
    var found := set k: nat | k in matching;
    assert found == {i};
    JsMaps.Distinct(matching);
    assert |found| == 1 && matching[0] in matching;
  }

  // ---- the automatic schedule ----

  function Abs(x: real): real { if x < 0.0 then -x else x }

  /** math.isclose(a, b, abs_tol=1e-6), with its default relative tolerance of 1e-9. */
  predicate IsClose(a: real, b: real) {
    var larger := if Abs(a) < Abs(b) then Abs(b) else Abs(a);
    var relative := larger / 1000000000.0;
    Abs(a - b) <= if relative < 0.000001 then 0.000001 else relative
  }

  /** What auto does next to a release in progress at this fraction. */
  function AutoMove(fraction: real): Option<(Action, real)> {
    if IsClose(fraction * 100.0, 5.0) then Some((Increase, 20.0))
    else if IsClose(fraction * 100.0, 20.0) then Some((Increase, 50.0))
    else if IsClose(fraction * 100.0, 50.0) then Some((Finalize, 0.0))
    else None
  }

  /** One committed auto run, on the release it finds. */
  function AutoStep(r: Release): Option<Release> {
    if r.status != IN_PROGRESS || r.fraction.None? || AutoMove(r.fraction.value).None? then None
    else Mutated(r, AutoMove(r.fraction.value).value.0, AutoMove(r.fraction.value).value.1 / 100.0)
  }

  /** How many committed auto runs are left before the release is complete. */
  function StepsLeft(r: Release): nat {
    if r.status != IN_PROGRESS || r.fraction.None? then 0
    else if IsClose(r.fraction.value * 100.0, 5.0) then 3
    else if IsClose(r.fraction.value * 100.0, 20.0) then 2
    else if IsClose(r.fraction.value * 100.0, 50.0) then 1
    else 0
  }

  function AutoRuns(r: Release, n: nat): Option<Release>
    decreases n
  {
    if n == 0 then Some(r) else match AutoStep(r) { case None => None case Some(next) => AutoRuns(next, n - 1) }
  }

  lemma AutoCountsDown(r: Release)
    requires AutoStep(r).Some?
    ensures StepsLeft(AutoStep(r).value) == StepsLeft(r) - 1
    ensures AutoStep(r).value.status == IN_PROGRESS || AutoStep(r).value.status == COMPLETED
    ensures StepsLeft(r) == 1 <==> AutoStep(r).value.status == COMPLETED
  {
    assert 20.0 / 100.0 * 100.0 == 20.0 && 50.0 / 100.0 * 100.0 == 50.0;
  }

  /** From a percentage on the schedule, auto completes the release in exactly as many runs as are left. */
  lemma {:induction false} AutoCompletes(r: Release)
    requires r.status == IN_PROGRESS && IsRollout(r) && StepsLeft(r) > 0
    ensures AutoRuns(r, StepsLeft(r)).Some? && AutoRuns(r, StepsLeft(r)).value.status == COMPLETED
    ensures forall n :: 0 <= n < StepsLeft(r) ==> AutoRuns(r, n).Some? && AutoRuns(r, n).value.status == IN_PROGRESS
    ensures AutoRuns(r, StepsLeft(r) + 1).None?
    // from 5 percent through 20 and 50
    ensures StepsLeft(r) == 3 ==> AutoRuns(r, 1).value.fraction == Some(0.2) && AutoRuns(r, 2).value.fraction == Some(0.5)
    ensures StepsLeft(r) == 2 ==> AutoRuns(r, 1).value.fraction == Some(0.5)
    decreases StepsLeft(r)
  {
    assert AutoStep(r).Some? by { ClosePercentages(r.fraction.value); }
    var next := AutoStep(r).value;
    AutoCountsDown(r);
    if next.status == IN_PROGRESS {
      AutoCompletes(next);
      assert AutoRuns(r, 1) == AutoRuns(next, 0) && AutoRuns(r, 2) == AutoRuns(next, 1);
    }
    forall n | 0 <= n < StepsLeft(r) ensures AutoRuns(r, n).Some? && AutoRuns(r, n).value.status == IN_PROGRESS {
      if n > 0 { assert AutoRuns(r, n) == AutoRuns(next, n - 1); }
    }
  }

  lemma ClosePercentages(fraction: real)
    requires 0.0 < fraction < 1.0
    ensures IsClose(fraction * 100.0, 5.0) ==> fraction < 0.2
    ensures IsClose(fraction * 100.0, 20.0) ==> fraction < 0.5
  {
  }

  // ---- one edit, as the requests show it ----

  ghost predicate NoTerminal(t: seq<Sent>) {
    forall k :: 0 <= k < |t| ==> !t[k].Commit? && !t[k].DiscardEdit?
  }

  /** One commit, sent last; nothing discarded. */
  ghost predicate OneCommit(t: seq<Sent>) {
    t != [] && t[|t| - 1].Commit? && NoTerminal(t[..|t| - 1])
  }

  /** One discard, sent last, of an edit that wrote no track. */
  ghost predicate OneDiscard(t: seq<Sent>) {
    t != [] && t[|t| - 1].DiscardEdit? && NoTerminal(t[..|t| - 1]) && forall k :: 0 <= k < |t| ==> !t[k].WriteTrack?
  }

  /** What an exception inside the edit may leave behind: at most one commit, nothing after it. */
  ghost predicate AtMostOneCommit(t: seq<Sent>) {
    (forall k :: 0 <= k < |t| ==> !t[k].Commit?) || (t != [] && OneCommit(t))
  }

  /** ... and what the whole call leaves behind then: a final attempt to discard the edit. */
  ghost predicate CleanedUp(t: seq<Sent>) {
    t != [] && t[|t| - 1].DiscardEdit? && AtMostOneCommit(t[..|t| - 1])
  }

  /** The commit of this call changed production to `after`, or never took effect. */
  ghost predicate AllOrNothing(before: seq<Release>, now: seq<Release>, sent: seq<Sent>, after: seq<Release>) {
    now == before || (now == after && exists k :: 0 <= k < |sent| && sent[k].Commit?)
  }

  /** _cleanup_after_failure: the error of the cleanup is only a note on the first one. */
  method CleanupAfterFailure(console: Console)
    modifies console`trace, console`faults
    ensures console.trace == old(console.trace) + [DiscardEdit] && console.faults >= old(console.faults)
  {
    var reply := console.Discard();
  }

  method CommitEdit(console: Console) returns (r: Result<()>)
    modifies console`production, console`others, console`trace, console`faults
    ensures console.faults >= old(console.faults) && (r.Raised? ==> console.faults > old(console.faults))
    ensures console.trace == old(console.trace) + [Commit]
    ensures console.production == console.draft || console.production == old(console.production)
    ensures r.Ok? ==> console.production == console.draft
    ensures r == Raised(false) ==> console.production == old(console.production)
  {
    var reply := console.CommitEdit();
    match reply {
      case Accepted => r := Ok(());
      case Refused => r := Raised(false);
      case Lost => r := Raised(true);
    }
  }

  // ---- control_rollout ----

  predicate WellAsked(version: Option<nat>, action: Action, percentage: Option<real>) {
    && (action.Auto? ==> version.None?)
    && (version.None? ==> action.Auto? || action.Status?)
    && (version.Some? ==> IsVersionCode(version.value))
    && (if action.Increase? then percentage.Some? && 0.0 < percentage.value < 100.0 else percentage.None?)
  }

  /** The production track after this action on release i. */
  ghost predicate MovedBy(before: seq<Release>, after: seq<Release>, version: Option<nat>, action: Action, percentage: Option<real>) {
    WellAsked(version, action, percentage)
    && exists i: nat :: SoleNewest(before, i) && (version.Some? ==> before[i].codes == [version.value])
                && Moved(before[i], action, percentage).Some? && after == before[i := Moved(before[i], action, percentage).value]
  }

  function Moved(r: Release, action: Action, percentage: Option<real>): Option<Release> {
    match action
    case Auto => AutoStep(r)
    case Increase => if percentage.Some? then Mutated(r, Increase, percentage.value / 100.0) else None
    case _ => Mutated(r, action, 0.0)
  }

  /** The version asked about is the sole newest, or an empty track is asked for its status. */
  ghost predicate HasTarget(releases: seq<Release>, version: Option<nat>, action: Action) {
    AllValid(releases, |releases|)
    && ((action.Status? && version.None? && releases == [])
        || exists i: nat :: SoleNewest(releases, i) && (version.Some? ==> releases[i].codes == [version.value]))
  }

  /** The release can be reported on, or moved, as asked. */
  predicate Allows(r: Release, action: Action, percentage: Option<real>) {
    && (r.status == IN_PROGRESS || r.status == HALTED ==> IsRollout(r))
    && (action.Status? || (action.Auto? && r.status in {DRAFT, COMPLETED, HALTED}) || Moved(r, action, percentage).Some?)
  }

  /** When nothing fails on the way, exactly these calls return. */
  ghost predicate Answerable(releases: seq<Release>, version: Option<nat>, action: Action, percentage: Option<real>) {
    && WellAsked(version, action, percentage) && HasTarget(releases, version, action)
    && forall i: nat :: SoleNewest(releases, i) ==> Allows(releases[i], action, percentage)
  }

  lemma OneNewest(releases: seq<Release>, i: nat, j: nat)
    requires SoleNewest(releases, i) && SoleNewest(releases, j)
    ensures i == j
  {
    NewestIsFirst(releases, j);
    assert i != j ==> Below(releases[i], releases[j].codes[0]) && Below(releases[j], releases[i].codes[0]);
  }

  lemma TargetIsUnambiguous(releases: seq<Release>, version: Option<nat>, action: Action)
    requires HasTarget(releases, version, action)
    ensures AllValid(releases, |releases|) && (version.Some? ==> Unambiguous(releases, |releases|, version.value))
  {
    if version.Some? {
      var i: nat :| SoleNewest(releases, i) && releases[i].codes == [version.value];
      assert forall j :: 0 <= j < |releases| && j != i ==> Below(releases[j], version.value);
    }
  }

  /** Which release the call is about. */
  method FindTarget(releases: seq<Release>, version: Option<nat>, action: Action) returns (target: Result<Option<nat>>)
    requires (version.Some? || action.Auto? || action.Status?) && (action.Auto? ==> version.None?)
    ensures target.Ok? && target.value.Some? ==>
              SoleNewest(releases, target.value.value) && (version.Some? ==> releases[target.value.value].codes == [version.value])
    ensures target == Ok(None) ==> action.Status? && version.None? && releases == []
    ensures target.Ok? <==> HasTarget(releases, version, action)
  {
    var ok, matching, maximum := Scan(releases, version);
    if HasTarget(releases, version, action) { TargetIsUnambiguous(releases, version, action); }
    if !ok { return Raised(false); }
    forall i: nat | SoleNewest(releases, i) ensures maximum == releases[i].codes[0] > 0 { NewestIsMatched(releases, i, maximum); }
    if i: nat :| SoleNewest(releases, i) { NewestIsMatched(releases, i, maximum); }
    var code := maximum;
    if version.None? {
      if maximum == 0 {
        if action.Status? && releases == [] { return Ok(None); }
        return Raised(false);
      }
      ok, matching := FindNewest(releases, maximum);
      if !ok { return Raised(false); }
    } else {
      code := version.value;
    }
    if matching == [] { return Raised(false); }
    if |matching| != 1 { return Raised(false); }
    if !action.Auto? && maximum > code { return Raised(false); }
    assert matching[0] in matching && code in releases[matching[0]].codes;
    var k :| 0 <= k < |releases[matching[0]].codes| && releases[matching[0]].codes[k] == code;
    assert code == maximum;
    SingleMatchIsNewest(releases, code, matching);
    target := Ok(Some(matching[0]));
  }

  /** The part of control_rollout inside its try, after the edit is open. */
  method InsideControl(console: Console, version: Option<nat>, action: Action, percentage: Option<real>) returns (r: Result<Report>)
    requires WellAsked(version, action, percentage) && console.draft == console.production
    modifies console`production, console`draft, console`others, console`otherDrafts, console`trace, console`faults
    ensures old(console.trace) <= console.trace
    ensures r.Ok? && r.value.committed ==>
              OneCommit(console.trace[|old(console.trace)|..])
              && MovedBy(old(console.production), console.production, version, action, percentage)
    ensures r.Ok? && !r.value.committed ==>
              OneDiscard(console.trace[|old(console.trace)|..]) && console.production == old(console.production)
    ensures r.Raised? ==> AtMostOneCommit(console.trace[|old(console.trace)|..])
    ensures r == Raised(false) ==> console.production == old(console.production)
    ensures console.production == old(console.production) || MovedBy(old(console.production), console.production, version, action, percentage)
    ensures console.faults >= old(console.faults)
    ensures console.faults == old(console.faults) ==> (r.Ok? <==> Answerable(old(console.production), version, action, percentage))
  {
    var reply, releases := console.Read();
    if !reply.Accepted? { return Raised(false); }
    var trouble := console.Trouble();
    if trouble { return Raised(false); }  // the answer is malformed or about another track
    var found := FindTarget(releases, version, action);
    if found.Raised? { return Raised(false); }
    if found.value.None? {
      reply := console.Discard();
      if !reply.Accepted? { return Raised(false); }
      return Ok(Report(None, "none", "none", None, false));
    }
    var i := found.value.value;
    var target := releases[i];
    if (target.status == IN_PROGRESS || target.status == HALTED) && !IsRollout(target) { return Raised(false); }
    if action.Status? || (action.Auto? && target.status in {DRAFT, COMPLETED, HALTED}) {
      r := ReportOn(console, target, action);
    } else {
      r := Move(console, releases, i, action, percentage);
    }
    forall j: nat | SoleNewest(releases, j) ensures j == i { OneNewest(releases, i, j); }
  }

  /** The answers that change nothing: the edit is discarded first. */
  method ReportOn(console: Console, target: Release, action: Action) returns (r: Result<Report>)
    requires |target.codes| == 1 && (target.status == IN_PROGRESS || target.status == HALTED ==> IsRollout(target))
    modifies console`trace, console`faults
    ensures console.trace == old(console.trace) + [DiscardEdit]
    ensures console.faults >= old(console.faults) && (r.Raised? ==> console.faults > old(console.faults) && r == Raised(false))
    ensures r.Ok? ==> !r.value.committed
  {
    var reply := console.Discard();
    if !reply.Accepted? { return Raised(false); }
    var shown := if target.status == IN_PROGRESS || target.status == HALTED then Some(target.fraction.value * 100.0) else None;
    r := Ok(Report(Some(target.codes[0]), Decision(action, target), target.status, shown, false));
  }

  /** The answers that change the release: one track update, one commit. */
  method Move(console: Console, releases: seq<Release>, i: nat, action: Action, percentage: Option<real>) returns (r: Result<Report>)
    requires SoleNewest(releases, i) && console.draft == console.production == releases
    modifies console`production, console`draft, console`others, console`otherDrafts, console`trace, console`faults
    ensures var moved := Moved(releases[i], action, percentage);
            if moved.None? then r == Raised(false) && console.trace == old(console.trace) && console.production == releases
            else
              && (console.trace == old(console.trace) + [WriteTrack(PRODUCTION, moved.value)]
                  || console.trace == old(console.trace) + [WriteTrack(PRODUCTION, moved.value), Commit])
              && (r.Ok? ==> r.value.committed && console.production == releases[i := moved.value]
                            && console.trace == old(console.trace) + [WriteTrack(PRODUCTION, moved.value), Commit])
              && (console.production == releases || console.production == releases[i := moved.value])
              && (r == Raised(false) ==> console.production == releases)
              && (r.Raised? ==> console.faults > old(console.faults))
    ensures console.faults >= old(console.faults)
  {
    var target := releases[i];
    var moved := Moved(target, action, percentage);
    if moved.None? { return Raised(false); }
    var reply := console.Write(PRODUCTION, moved.value);
    if !reply.Accepted? { return Raised(false); }
    NewestIsFirst(releases, i);
    MovedKeepsCodes(target, action, percentage);
    MergedReplaces(releases, moved.value, i);
    var committed := CommitEdit(console);
    if committed.Raised? { return Raised(committed.unknown); }
    r := Ok(Report(Some(target.codes[0]), Decision(action, target), moved.value.status,
                   if moved.value.fraction.Some? then Some(moved.value.fraction.value * 100.0) else None, true));
  }

  /** The decision an automatic run reports; other actions report themselves. */
  function Decision(action: Action, target: Release): string {
    if !action.Auto? then Name(action)
    else if target.status == DRAFT then "waiting"
    else if target.status == COMPLETED then "complete"
    else if target.status == HALTED then "paused"
    else if target.fraction.Some? && AutoMove(target.fraction.value).Some? then Name(AutoMove(target.fraction.value).value.0)
    else ""
  }

  function Name(action: Action): string {
    match action
    case Status => "status"
    case Increase => "increase"
    case Halt => "halt"
    case Resume => "resume"
    case Finalize => "finalize"
    case Auto => "auto"
  }

  lemma NewestIsFirst(releases: seq<Release>, i: nat)
    requires SoleNewest(releases, i)
    ensures forall j :: 0 <= j < |releases| && j != i ==> releases[j].codes != releases[i].codes
  {
    forall j | 0 <= j < |releases| && j != i ensures releases[j].codes != releases[i].codes {
      assert Below(releases[j], releases[i].codes[0]);
    }
  }

  lemma MovedKeepsCodes(r: Release, action: Action, percentage: Option<real>)
    requires Moved(r, action, percentage).Some?
    ensures Moved(r, action, percentage).value.codes == r.codes
  {
  }

  /** The same, with the request that opened the edit in front and a cleanup behind. */
  lemma Framed(t: seq<Sent>)
    ensures OneCommit(t) ==> OneCommit([OpenEdit] + t)
    ensures OneDiscard(t) ==> OneDiscard([OpenEdit] + t)
    ensures AtMostOneCommit(t) ==> CleanedUp([OpenEdit] + t + [DiscardEdit])
  {
    var framed := [OpenEdit] + t;
    if t != [] { assert framed[..|framed| - 1] == [OpenEdit] + t[..|t| - 1]; }
    assert (framed + [DiscardEdit])[..|framed|] == framed;
  }

  /**
   control_rollout. Normal return: one terminal request, and it tells whether production moved. An
   exception once an edit id is known: at most one commit, then an attempt to discard the edit. An
   exception before that leaves no attempt, although the edit may exist on the server.
   */
  method ControlRollout(console: Console, version: Option<nat>, action: Action, percentage: Option<real>)
    returns (r: Result<Report>)
    modifies console`production, console`draft, console`others, console`otherDrafts, console`trace, console`edits, console`faults
    ensures old(console.trace) <= console.trace
    ensures r.Ok? && r.value.committed ==>
              OneCommit(console.trace[|old(console.trace)|..])
              && MovedBy(old(console.production), console.production, version, action, percentage)
    ensures r.Ok? && !r.value.committed ==>
              OneDiscard(console.trace[|old(console.trace)|..]) && console.production == old(console.production)
    ensures console.edits == old(console.edits) + 1 || (console.edits == old(console.edits) && r == Raised(false))
    ensures r.Raised? ==> if console.edits > old(console.edits) then CleanedUp(console.trace[|old(console.trace)|..])
                          else console.trace == old(console.trace) || console.trace == old(console.trace) + [OpenEdit]
    ensures r == Raised(false) ==> console.production == old(console.production)
    ensures console.production == old(console.production) || MovedBy(old(console.production), console.production, version, action, percentage)
    ensures console.faults >= old(console.faults)
    ensures console.faults == old(console.faults) ==> (r.Ok? <==> Answerable(old(console.production), version, action, percentage))
  {
    if !WellAsked(version, action, percentage) { return Raised(false); }
    var reply, usableId := console.Open();
    if !usableId { return Raised(false); }
    ghost var sent := console.trace;
    r := InsideControl(console, version, action, percentage);
    ghost var inside := console.trace[|sent|..];
    Framed(inside);
    assert console.trace[|old(console.trace)|..] == [OpenEdit] + inside;
    if r.Raised? {
      CleanupAfterFailure(console);
      assert console.trace[|old(console.trace)|..] == [OpenEdit] + inside + [DiscardEdit];
    }
  }
}
