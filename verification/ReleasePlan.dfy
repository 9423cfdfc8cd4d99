/** Which tracks a release goes to, and as what (android-play-release-plan.py). */
module ReleasePlan {
  import opened Wrappers
  import opened PlayConsole
  import opened RolloutControl

  /** One entry of a plan; publishing adds the version code. */
  datatype TrackPlan = TrackPlan(track: string, status: string, fraction: Option<real>, rest: string)

  const NONE := "none"
  const STABLE_TRACKS := [PRODUCTION, "beta", "internal"]

  predicate IsAlphanumeric(c: char) { 'a' <= c <= 'z' || 'A' <= c <= 'Z' || '0' <= c <= '9' }

  predicate IsTrack(s: string) {
    1 <= |s| <= 100 && IsAlphanumeric(s[0])
    && forall i :: 0 <= i < |s| ==> IsAlphanumeric(s[i]) || s[i] == '.' || s[i] == '_' || s[i] == '-'
  }

  predicate Distinct(names: seq<string>) { forall i, j :: 0 <= i < j < |names| ==> names[i] != names[j] }

  /** resolve_rollout: the mode after strip and lower; the fraction is there exactly when staged. */
  function ResolveRollout(mode: string, percentage: real): (r: Option<Option<real>>)
    ensures r.Some? && r.value.Some? ==> mode == "staged" && 0.0 < r.value.value < 1.0
    ensures r.Some? && r.value.None? ==> mode == "immediate"
  {
    if mode == "immediate" then Some(None)
    else if mode == "staged" && 0.0 < percentage < 100.0 then Some(Some(percentage / 100.0))
    else None
  }

  /** resolve_tracks, for the names between the commas, stripped. */
  method ResolveTracks(names: seq<string>, internalTest: bool, stableTag: bool) returns (r: Option<seq<string>>)
    ensures r.Some? ==> Distinct(r.value) && NONE !in r.value && forall t :: t in r.value ==> IsTrack(t)
    ensures r.Some? && PRODUCTION in r.value ==> r.value == if stableTag then STABLE_TRACKS else [PRODUCTION]
    ensures r.Some? && !internalTest && r.value != STABLE_TRACKS && names != [""] ==> forall t :: t in r.value ==> t in names
  {
    if internalTest { return Some(["internal"]); }
    var requested := if names == [""] then [PRODUCTION] else names;
    var tracks: seq<string> := [];
    for i := 0 to |requested|
      invariant Distinct(tracks) && forall t :: t in tracks ==> IsTrack(t) && t in requested
    {
      var track := requested[i];
      if track == "" { continue; }
      if !IsTrack(track) { return None; }
      if track !in tracks { tracks := tracks + [track]; }
    }
    if tracks == [] { return None; }
    if NONE in tracks { return if tracks == [NONE] then Some([]) else None; }
    if PRODUCTION in tracks && tracks != [PRODUCTION] { return None; }
    if stableTag && tracks == [PRODUCTION] { return Some(STABLE_TRACKS); }
    r := Some(tracks);
  }

  /** list(dict.fromkeys(tracks)). */
  method Unique(tracks: seq<string>) returns (unique: seq<string>)
    ensures Distinct(unique) && forall t :: t in unique <==> t in tracks
    ensures Distinct(tracks) ==> unique == tracks
  {
    unique := [];
    for i := 0 to |tracks|
      invariant Distinct(unique) && forall t :: t in unique <==> t in tracks[..i]
      invariant Distinct(tracks) ==> unique == tracks[..i]
    {
      if tracks[i] !in unique { unique := unique + [tracks[i]]; }
    }
    assert tracks[..|tracks|] == tracks;
  }

  /** A plan entry is a completed release, or production's staged one. */
  predicate SoundEntry(p: TrackPlan) {
    (p.status == COMPLETED && p.fraction.None?)
    || (p.track == PRODUCTION && p.status == IN_PROGRESS && p.fraction.Some? && 0.0 < p.fraction.value < 1.0)
  }

  ghost predicate SoundPlan(plan: seq<TrackPlan>) {
    && (forall i :: 0 <= i < |plan| ==> SoundEntry(plan[i]))
    && forall i, j :: 0 <= i < j < |plan| ==> plan[i].track != plan[j].track
  }

  /** build_plan: production appears only in a stable plan, once, and in progress exactly when staged. */
  method BuildPlan(tracks: seq<string>, stable: bool, mode: string, percentage: real, version: string, notes: string)
    returns (plan: Option<seq<TrackPlan>>)
    ensures plan.Some? ==> SoundPlan(plan.value) && plan.value != []
    ensures plan.Some? ==> forall t :: t in tracks <==> exists i :: 0 <= i < |plan.value| && plan.value[i].track == t
    ensures plan.Some? && stable ==> |plan.value| == 3 && forall i :: 0 <= i < 3 ==> plan.value[i].track == STABLE_TRACKS[i]
    ensures plan.Some? ==> forall i :: 0 <= i < |plan.value| ==>
              (plan.value[i].track == PRODUCTION ==> stable)
              && (plan.value[i].status == IN_PROGRESS <==> plan.value[i].track == PRODUCTION && mode == "staged")
    // what resolve_tracks returns always has a plan, under a rollout that resolves
    ensures Distinct(tracks) ==>
              (plan.Some? <==> ResolveRollout(mode, percentage).Some? && tracks != [] && (forall t :: t in tracks ==> IsTrack(t) && t != NONE)
                               && if stable then tracks == STABLE_TRACKS else PRODUCTION !in tracks)
  {
    var rollout := ResolveRollout(mode, percentage);
    if rollout.None? { return None; }
    var unique := Unique(tracks);
    if unique == [] { return None; }
    for i := 0 to |unique|
      invariant forall j :: 0 <= j < i ==> IsTrack(unique[j]) && unique[j] != NONE
    {
      if !IsTrack(unique[i]) || unique[i] == NONE { return None; }
    }
    if stable {
      if unique != STABLE_TRACKS { return None; }
    } else if PRODUCTION in unique { return None; }
    var releases: seq<TrackPlan> := [];
    for i := 0 to |unique|
      invariant |releases| == i && forall j :: 0 <= j < i ==> releases[j].track == unique[j] && SoundEntry(releases[j])
      invariant forall j :: 0 <= j < i ==> (releases[j].status == IN_PROGRESS <==> unique[j] == PRODUCTION && mode == "staged")
    {
      var track := unique[i];
      var staged := stable && track == PRODUCTION && rollout.value.Some?;
      var release := TrackPlan(track, if staged then IN_PROGRESS else COMPLETED, if staged then rollout.value else None,
                               version + (if stable then notes else " testing"));
      releases := releases + [release];
    }
    forall t | t in tracks ensures exists i :: 0 <= i < |releases| && releases[i].track == t {
      var k :| 0 <= k < |unique| && unique[k] == t;
      assert releases[k].track == t;
    }
    plan := Some(releases);
  }
}
