/** The remote side of the Google Play scripts: one package's tracks and one open edit. */
module PlayConsole {
  import opened Wrappers

  /** `rest` stands for the fields that the scripts copy and never look at. */
  datatype Release = Release(codes: seq<nat>, status: string, fraction: Option<real>, rest: string)

  /** One request, as it goes out. */
  datatype Sent = OpenEdit | ReadTrack | ReadTracks | Upload(code: nat) | WriteTrack(track: string, release: Release) | Other | Commit | DiscardEdit

  /** Refused: the API answered no, and did nothing. Lost: no usable answer, done or not. */
  datatype Reply = Accepted | Refused | Lost

  /** A track update names one release: it replaces the one with the same codes, or joins the track. */
  function Merged(releases: seq<Release>, r: Release): seq<Release> {
    if releases == [] then [r]
    else if releases[0].codes == r.codes then [r] + releases[1..]
    else [releases[0]] + Merged(releases[1..], r)
  }

  lemma {:induction false} MergedReplaces(releases: seq<Release>, r: Release, i: nat)
    requires i < |releases| && releases[i].codes == r.codes
    requires forall j :: 0 <= j < i ==> releases[j].codes != r.codes
    ensures Merged(releases, r) == releases[i := r]
  {
    if i > 0 {
      MergedReplaces(releases[1..], r, i - 1);
      assert releases[i := r] == [releases[0]] + releases[1..][i - 1 := r];
    } else {
      assert releases[0 := r] == [r] + releases[1..];
    }
  }

  lemma {:induction false} MergedAppends(releases: seq<Release>, r: Release)
    requires forall j :: 0 <= j < |releases| ==> releases[j].codes != r.codes
    ensures Merged(releases, r) == releases + [r]
  {
    if releases != [] {
      MergedAppends(releases[1..], r);
      assert releases + [r] == [releases[0]] + (releases[1..] + [r]);
    }
  }

  const PRODUCTION := "production"

  function WithRelease(tracks: map<string, seq<Release>>, track: string, r: Release): map<string, seq<Release>> {
    tracks[track := Merged(if track in tracks then tracks[track] else [], r)]
  }

  predicate Among(r: Release, production: seq<Release>, others: map<string, seq<Release>>) {
    r in production || exists t :: t in others && t != PRODUCTION && r in others[t]
  }

  class Console {
    var production: seq<Release>   // what users get
    var draft: seq<Release>        // the same track in the open edit
    var others: map<string, seq<Release>>       // the other tracks
    var otherDrafts: map<string, seq<Release>>  // ... in the open edit
    var used: set<nat>             // every version code ever uploaded
    ghost var trace: seq<Sent>     // every request so far
    ghost var edits: nat           // how many edits were opened whose id came back usable
    ghost var faults: nat          // how often a request was refused, lost, or answered unusably

    constructor (production: seq<Release>, others: map<string, seq<Release>>, used: set<nat>)
      ensures this.production == production && this.others == others && this.used == used && trace == [] && edits == 0
    {
      this.production, this.draft, this.used := production, production, used;
      this.others, this.otherDrafts := others, others;
      this.trace, this.edits, this.faults := [], 0, 0;
    }

    /** A release of some track, as users get it. */
    ghost predicate OnSomeTrack(r: Release)
      reads this
    {
      Among(r, production, others)
    }

    /** Anything else that can go wrong: a malformed answer, another track's answer. */
    method Trouble() returns (trouble: bool)
      modifies this`faults
      ensures faults >= old(faults) && (trouble ==> faults > old(faults))
    {
      trouble := *;
      if trouble { faults := faults + 1; }
    }

    /** Whether a request gets through. */
    method Send(request: Sent) returns (reply: Reply)
      modifies this`faults, this`trace
      ensures trace == old(trace) + [request]
      ensures faults >= old(faults) && (!reply.Accepted? ==> faults > old(faults))
    {
      trace := trace + [request];
      if * { return Accepted; }
      faults := faults + 1;
      if * { return Refused; }
      reply := Lost;
    }

    method Open() returns (reply: Reply, usableId: bool)
      modifies this`draft, this`otherDrafts, this`trace, this`edits, this`faults
      ensures trace == old(trace) + [OpenEdit] && (reply.Accepted? ==> draft == production && otherDrafts == others)
      ensures usableId ==> reply.Accepted?
      ensures edits == old(edits) + if usableId then 1 else 0
      ensures faults >= old(faults) && (!usableId ==> faults > old(faults))
    {
      draft, otherDrafts := production, others;
      reply := Send(OpenEdit);
      if !reply.Accepted? { return reply, false; }
      var unusable := Trouble();
      usableId := !unusable;
      if usableId { edits := edits + 1; }
    }

    method Read() returns (reply: Reply, releases: seq<Release>)
      modifies this`trace, this`faults
      ensures trace == old(trace) + [ReadTrack] && (reply.Accepted? ==> releases == draft)
      ensures faults >= old(faults) && (!reply.Accepted? ==> faults > old(faults))
    {
      reply := Send(ReadTrack);
      releases := if reply.Accepted? then draft else [];
    }

    /** The list of all tracks of the edit. */
    method ReadAll() returns (reply: Reply, tracks: seq<seq<Release>>)
      modifies this`trace, this`faults
      ensures trace == old(trace) + [ReadTracks]
      ensures reply.Accepted? ==> forall r :: (exists t :: 0 <= t < |tracks| && r in tracks[t]) <==> Among(r, draft, otherDrafts)
      ensures faults >= old(faults) && (!reply.Accepted? ==> faults > old(faults))
    {
      reply := Send(ReadTracks);
      tracks := [];
      if !reply.Accepted? { return; }
      tracks := [draft];
      var names := otherDrafts.Keys - {PRODUCTION};
      while names != {}
        invariant names <= otherDrafts.Keys - {PRODUCTION} && |tracks| > 0 && tracks[0] == draft
        invariant forall t :: 0 < t < |tracks| ==> exists n :: n in otherDrafts && n != PRODUCTION && tracks[t] == otherDrafts[n]
        invariant forall n :: n in otherDrafts && n != PRODUCTION && n !in names ==> exists t :: 0 <= t < |tracks| && tracks[t] == otherDrafts[n]
        decreases names
      {
        var name :| name in names;
        names := names - {name};
        ghost var before := tracks;
        tracks := tracks + [otherDrafts[name]];
        assert tracks[|before|] == otherDrafts[name];
        assert forall t :: 0 <= t < |before| ==> tracks[t] == before[t];
      }
    }

    method Write(track: string, release: Release) returns (reply: Reply)
      modifies this`draft, this`otherDrafts, this`trace, this`faults
      ensures trace == old(trace) + [WriteTrack(track, release)]
      ensures reply.Accepted? ==> draft == if track == PRODUCTION then Merged(old(draft), release) else old(draft)
      ensures reply.Accepted? ==> otherDrafts == if track == PRODUCTION then old(otherDrafts) else WithRelease(old(otherDrafts), track, release)
      ensures faults >= old(faults) && (!reply.Accepted? ==> faults > old(faults))
    {
      reply := Send(WriteTrack(track, release));
      if reply.Refused? { return; }
      if reply.Lost? {
        if * { return; }
      }
      if track == PRODUCTION {
        draft := Merged(draft, release);
      } else {
        otherDrafts := WithRelease(otherDrafts, track, release);
      }
    }

    /** Version codes are used once. */
    method UploadBundle(code: nat) returns (reply: Reply)
      modifies this`used, this`trace, this`faults
      ensures trace == old(trace) + [Upload(code)] && old(used) <= used
      ensures reply.Accepted? ==> code !in old(used) && used == old(used) + {code}
      ensures faults >= old(faults) && (!reply.Accepted? && code !in old(used) ==> faults > old(faults))
    {
      reply := Send(Upload(code));
      if code in used { return if reply.Lost? then Lost else Refused; }
      if reply.Refused? { return; }
      used := used + {code};
    }

    method SendOther() returns (reply: Reply)
      modifies this`trace, this`faults
      ensures trace == old(trace) + [Other]
      ensures faults >= old(faults) && (!reply.Accepted? ==> faults > old(faults))
    {
      reply := Send(Other);
    }

    /** A refused commit did nothing; after a lost one it may have taken effect. */
    method CommitEdit() returns (reply: Reply)
      modifies this`production, this`others, this`trace, this`faults
      ensures trace == old(trace) + [Commit]
      ensures (production == draft && others == otherDrafts) || (production == old(production) && others == old(others))
      ensures reply.Accepted? ==> production == draft && others == otherDrafts
      ensures reply.Refused? ==> production == old(production) && others == old(others)
      ensures faults >= old(faults) && (!reply.Accepted? ==> faults > old(faults))
    {
      reply := Send(Commit);
      if reply.Refused? { return; }
      if reply.Lost? {
        if * { return; }
      }
      production, others := draft, otherDrafts;
    }

    method Discard() returns (reply: Reply)
      modifies this`trace, this`faults
      ensures trace == old(trace) + [DiscardEdit]
      ensures faults >= old(faults) && (!reply.Accepted? ==> faults > old(faults))
    {
      reply := Send(DiscardEdit);
    }
  }
}
