/**
 Attachment link edits through If-Match: the server's half (server.ts) and the MCP client's retry loop
 (cloud-service.ts), as in sections 8.8.3 and 13.1.1 of RFC 9110.
 */
module ConditionalPatch {
  import opened Text
  import opened Wrappers

  // ---- header strings ----

  function UntilComma(s: string): nat
    ensures UntilComma(s) <= |s|
    ensures forall i :: 0 <= i < UntilComma(s) ==> s[i] != ','
    ensures UntilComma(s) < |s| ==> s[UntilComma(s)] == ','
  {
    if s == "" || s[0] == ',' then 0 else 1 + UntilComma(s[1..])
  }

  /** s.split(','). */
  function Split(s: string): seq<string>
    decreases |s|
  {
    var n := UntilComma(s);
    if n == |s| then [s] else [s[..n]] + Split(s[n + 1..])
  }

  predicate IfMatchAccepts(header: string, etag: string) {
    Trim(header) == "*" || exists i :: 0 <= i < |Split(header)| && Trim(Split(header)[i]) == etag
  }

  /** A strong entity tag as the client demands it: quotes around anything but quotes. */
  predicate IsStrong(s: string) {
    |s| >= 2 && s[0] == '"' && s[|s| - 1] == '"' && forall i :: 0 < i < |s| - 1 ==> s[i] != '"'
  }

  predicate IsHex(s: string) { forall i :: 0 <= i < |s| ==> '0' <= s[i] <= '9' || 'a' <= s[i] <= 'f' }

  const ETAG_PREFIX := "\"mindwtr-entity-sha256-"

  function EtagOf(digest: string): string { ETAG_PREFIX + digest + "\"" }

  /** A generated tag has no comma and no outer space, so as a header it accepts itself only. */
  lemma GeneratedTagAcceptsItselfOnly(digest: string, etag: string)
    requires IsHex(digest)
    ensures IsStrong(EtagOf(digest))
    ensures IfMatchAccepts(EtagOf(digest), etag) <==> etag == EtagOf(digest)
  {
    var header := EtagOf(digest);
    assert |ETAG_PREFIX| == 23;
    forall i | 0 <= i < |header| ensures header[i] != ',' && (0 < i < |header| - 1 ==> header[i] != '"') {
      if i < 23 { assert header[i] == ETAG_PREFIX[i]; } else if i < |header| - 1 { assert header[i] == digest[i - 23]; }
    }
    assert header[0] == '"' && header[|header| - 1] == '"';
    assert Split(header) == [header];
    assert Trim(header) == header && |header| > 1;
    assert Split(header)[0] == header;
  }

  lemma SameTagSameDigest(a: string, b: string)
    requires EtagOf(a) == EtagOf(b)
    ensures a == b
  {
    assert EtagOf(a)[23..|EtagOf(a)| - 1] == a;
    assert EtagOf(b)[23..|EtagOf(b)| - 1] == b;
  }

  // ---- the server ----

  datatype Entity<A, R> = Entity(attachments: A, rest: R, rev: nat)

  /** A commit and its author: a link edit of the version it was meant for, or any other write of these attachments. */
  datatype Commit<A, R, L> = LinkEdit(who: nat, on: Entity<A, R>, links: L) | Write(who: nat, attachments: A)

  function Fold<A, R, L>(apply: (A, L) -> A, initial: A, log: seq<Commit<A, R, L>>): A
    decreases |log|
  {
    if log == [] then initial
    else
      var before := Fold(apply, initial, log[..|log| - 1]);
      match log[|log| - 1]
      case LinkEdit(_, _, links) => apply(before, links)
      case Write(_, attachments) => attachments
  }

  lemma FoldMore<A, R, L>(apply: (A, L) -> A, initial: A, log: seq<Commit<A, R, L>>, c: Commit<A, R, L>)
    ensures Fold(apply, initial, log + [c]) ==
            if c.LinkEdit? then apply(Fold(apply, initial, log), c.links) else c.attachments
  {
    assert (log + [c])[..|log|] == log;
  }

  /** Each link edit in the log was made on the attachments that the commits before it had left. */
  ghost predicate EditsInPlace<A, R, L>(apply: (A, L) -> A, initial: A, log: seq<Commit<A, R, L>>) {
    forall i {:trigger log[i]} :: 0 <= i < |log| && log[i].LinkEdit? ==> log[i].on.attachments == Fold(apply, initial, log[..i])
  }

  lemma EditsStayInPlace<A, R, L>(apply: (A, L) -> A, initial: A, log: seq<Commit<A, R, L>>, c: Commit<A, R, L>)
    requires EditsInPlace(apply, initial, log) && (c.LinkEdit? ==> c.on.attachments == Fold(apply, initial, log))
    ensures EditsInPlace(apply, initial, log + [c])
  {
    var more := log + [c];
    forall i | 0 <= i < |more| && more[i].LinkEdit? ensures more[i].on.attachments == Fold(apply, initial, more[..i]) {
      assert more[..i] == log[..i];
      if i == |log| { assert log[..i] == log; }
    }
  }

  /** Where in the log this caller has committed since then. */
  function MineSince<A, R, L>(log: seq<Commit<A, R, L>>, start: nat, who: nat): set<nat> {
    set i | start <= i < |log| && log[i].who == who
  }

  /** A request that reached the server or was lost, and its sender. */
  datatype Request = GetBy(who: nat) | PatchBy(who: nat)

  /** A version of the entity, and who was given it. */
  datatype Given<A, R> = Given(who: nat, entity: Entity<A, R>)

  /** This caller was given this version since then. */
  ghost predicate GivenSince<A, R>(given: seq<Given<A, R>>, start: nat, who: nat, entity: Entity<A, R>) {
    exists j :: start <= j < |given| && given[j] == Given(who, entity)
  }

  /** SHA-256 of an entity's response body, taken to be injective. */
  ghost predicate IsDigest<A(!new), R(!new)>(digest: Entity<A, R> -> string) {
    && (forall e :: IsHex(digest(e)))
    && (forall e, f :: digest(e) == digest(f) ==> e == f)
  }

  datatype Reply<A, R> = Ok(entity: Entity<A, R>) | NotFound | Changed | Error

  class Server<A(!new,0), L(0), R(!new,0)> {
    const apply: (A, L) -> A  // applyLinkAttachments
    const digest: Entity<A, R> -> string
    const initial: A
    var entity: Entity<A, R>
    var deleted: bool
    ghost var log: seq<Commit<A, R, L>>
    ghost var given: seq<Given<A, R>>       // every version handed out, in order
    ghost var requests: multiset<Request>   // every request sent
    ghost var faults: nat  // deletions, and requests that failed for another reason than a changed entity

    /** The attachments are the fold of everything committed, in commit order, and each edit met the version it was meant for. */
    ghost predicate Valid()
      reads this
    {
      IsDigest(digest) && entity.attachments == Fold(apply, initial, log) && EditsInPlace(apply, initial, log)
    }

    constructor (apply: (A, L) -> A, digest: Entity<A, R> -> string, entity: Entity<A, R>)
      requires IsDigest(digest)
      ensures Valid() && this.apply == apply && this.digest == digest && this.entity == entity
      ensures log == [] && given == [] && requests == multiset{}
    {
      this.apply, this.digest, this.initial, this.entity := apply, digest, entity.attachments, entity;
      this.deleted, this.log, this.given, this.requests, this.faults := false, [], [], multiset{}, 0;
    }

    method Trouble() returns (trouble: bool)
      modifies this`faults
      ensures faults >= old(faults) && (trouble ==> faults > old(faults))
    {
      trouble := *;
      if trouble { faults := faults + 1; }
    }

    /** GET of the entity; the tag may be missing or weak on an older server. */
    method Get(ghost who: nat) returns (reply: Reply<A, R>, etag: Option<string>)
      requires Valid()
      modifies this`faults, this`requests, this`given
      ensures Valid() && faults >= old(faults) && requests == old(requests) + multiset{GetBy(who)}
      ensures faults == old(faults) && !deleted ==> reply.Ok? && etag == Some(EtagOf(digest(entity)))
      ensures reply.Ok? ==> !deleted && reply.entity == entity && (etag.None? || !IsStrong(etag.value) || etag == Some(EtagOf(digest(entity))))
      ensures given == if reply.Ok? then old(given) + [Given(who, entity)] else old(given)
      ensures !reply.Changed?
    {
      requests := requests + multiset{GetBy(who)};
      var trouble := Trouble();
      if trouble { return Error, None; }
      if deleted { return NotFound, None; }
      given := given + [Given(who, entity)];
      trouble := Trouble();
      if trouble { return Ok(entity), None; }
      reply, etag := Ok(entity), Some(EtagOf(digest(entity)));
    }

    /**
     PATCH under the write lock. `intent` is what the client is after: the links it applied, and the
     version it applied them to. A reply can be lost after the commit.
     */
    method Patch(ghost who: nat, ifMatch: string, attachments: A, rest: R, ghost intent: (Entity<A, R>, L)) returns (reply: Reply<A, R>)
      requires Valid() && ifMatch == EtagOf(digest(intent.0)) && attachments == apply(intent.0.attachments, intent.1)
      modifies this`entity, this`log, this`requests, this`faults
      ensures Valid() && requests == old(requests) + multiset{PatchBy(who)}
      ensures (log == old(log) && entity == old(entity))
              || (old(entity) == intent.0 && log == old(log) + [LinkEdit(who, intent.0, intent.1)] && entity.attachments == attachments)
      ensures reply.Ok? ==> log != old(log) && reply.entity == entity
      ensures reply.Changed? ==> log == old(log) && old(entity) != intent.0
      ensures faults >= old(faults)
      ensures faults == old(faults) && !deleted ==> if old(entity) == intent.0 then reply.Ok? else reply.Changed?
    {
      requests := requests + multiset{PatchBy(who)};
      var trouble := Trouble();
      if trouble { return Error; }
      if deleted { return NotFound; }
      GeneratedTagAcceptsItselfOnly(digest(intent.0), EtagOf(digest(entity)));
      if !IfMatchAccepts(ifMatch, EtagOf(digest(entity))) { return Changed; }
      SameTagSameDigest(digest(intent.0), digest(entity));
      trouble := Trouble();
      if trouble { return Error; }  // aborted, rejected, or the write failed
      entity := Entity(attachments, rest, entity.rev + 1);
      FoldMore(apply, initial, log, LinkEdit(who, intent.0, intent.1));
      EditsStayInPlace(apply, initial, log, LinkEdit(who, intent.0, intent.1));
      log := log + [LinkEdit(who, intent.0, intent.1)];
      trouble := Trouble();
      if trouble { return Error; }  // the reply was lost
      reply := Ok(entity);
    }

    /** One act of somebody else: a read, an edit of links on the version just read, any other write, a deletion. */
    method Intrude(ghost who: nat)
      requires Valid()
      modifies this
      ensures Valid() && OnlyOthers(old(log), log, old(given), given, old(requests), requests, who) && faults >= old(faults)
      ensures log == old(log) ==> entity == old(entity)
      ensures faults == old(faults) ==> deleted == old(deleted)
    {
      hide Fold, EditsInPlace, IsDigest, EtagOf, IsStrong, IfMatchAccepts;
      var rest: R := *;
      ghost var other: nat := *;
      if other == who { other := who + 1; }
      if * {
        var reply, etag := Get(other);
      } else if * {
        var links: L := *;
        var reply := Patch(other, EtagOf(digest(entity)), apply(entity.attachments, links), rest, (entity, links));
      } else if * {
        var written: A := *;
        FoldMore(apply, initial, log, Write(other, written));
        EditsStayInPlace(apply, initial, log, Write(other, written));
        entity := Entity(written, rest, entity.rev + 1);
        log := log + [Write(other, written)];
      } else {
        deleted := *;
        faults := faults + 1;
      }
    }

    /** Everybody but this caller, for as long as they like. */
    method Interfere(ghost who: nat)
      requires Valid()
      modifies this
      ensures Valid() && OnlyOthers(old(log), log, old(given), given, old(requests), requests, who) && faults >= old(faults)
      ensures log == old(log) ==> entity == old(entity)
      ensures faults == old(faults) ==> deleted == old(deleted)
    {
      hide Fold, EditsInPlace, IsDigest, OnlyOthers;
      ghost var log0, given0, requests0 := log, given, requests;
      NobodyElse(log, given, requests, who);
      var rounds :| rounds >= 0;
      for i := 0 to rounds
        invariant Valid() && OnlyOthers(log0, log, given0, given, requests0, requests, who) && faults >= old(faults)
        invariant log == old(log) ==> entity == old(entity)
        invariant faults == old(faults) ==> deleted == old(deleted)
      {
        ghost var log1, given1, requests1 := log, given, requests;
        Intrude(who);
        OnlyOthersOn(log0, log1, log, given0, given1, given, requests0, requests1, requests, who);
      }
    }
  }

  /** Whatever was committed, handed out or sent since was not this caller's. */
  ghost predicate OnlyOthers<A, R, L>(log0: seq<Commit<A, R, L>>, log: seq<Commit<A, R, L>>, given0: seq<Given<A, R>>, given: seq<Given<A, R>>,
                                      requests0: multiset<Request>, requests: multiset<Request>, who: nat) {
    && log0 <= log && given0 <= given
    && (forall i :: |log0| <= i < |log| ==> log[i].who != who)
    && requests[GetBy(who)] == requests0[GetBy(who)] && requests[PatchBy(who)] == requests0[PatchBy(who)]
  }

  lemma NobodyElse<A, R, L>(log: seq<Commit<A, R, L>>, given: seq<Given<A, R>>, requests: multiset<Request>, who: nat)
    ensures OnlyOthers(log, log, given, given, requests, requests, who)
  {
  }

  lemma OnlyOthersOn<A, R, L>(log0: seq<Commit<A, R, L>>, log1: seq<Commit<A, R, L>>, log2: seq<Commit<A, R, L>>,
                              given0: seq<Given<A, R>>, given1: seq<Given<A, R>>, given2: seq<Given<A, R>>,
                              requests0: multiset<Request>, requests1: multiset<Request>, requests2: multiset<Request>, who: nat)
    requires OnlyOthers(log0, log1, given0, given1, requests0, requests1, who)
    requires OnlyOthers(log1, log2, given1, given2, requests1, requests2, who)
    ensures OnlyOthers(log0, log2, given0, given2, requests0, requests2, who)
    ensures log2 == log0 ==> log1 == log0
  {
    assert log2 == log0 ==> |log1| == |log0|;
  }

  // ---- the client ----

  const CLOUD_ATTACHMENT_PATCH_ATTEMPTS := 3

  datatype Outcome<A, R> = Committed(entity: Entity<A, R>) | Conflict | Failed

  lemma EntityTagIsStrong<A(!new,0), L(0), R(!new,0)>(server: Server<A, L, R>)
    requires server.Valid()
    ensures IsStrong(EtagOf(server.digest(server.entity)))
  {
    GeneratedTagAcceptsItselfOnly(server.digest(server.entity), "");
  }

  /** readEntityForConditionalPatch. */
  method ReadForPatch<A(!new,0), L(0), R(!new,0)>(server: Server<A, L, R>, ghost who: nat) returns (read: Option<(Entity<A, R>, string)>)
    requires server.Valid()
    modifies server`faults, server`requests, server`given
    ensures server.Valid() && server.faults >= old(server.faults) && server.requests == old(server.requests) + multiset{GetBy(who)}
    ensures old(server.given) <= server.given
    ensures server.faults == old(server.faults) && !server.deleted ==> read.Some?
    ensures read.Some? ==>
              && read.value.0 == server.entity && read.value.1 == EtagOf(server.digest(server.entity))
              && server.given == old(server.given) + [Given(who, server.entity)]
  {
    hide Fold, EditsInPlace, IsDigest, EtagOf, IsStrong;
    EntityTagIsStrong(server);
    var reply, etag := server.Get(who);
    if !reply.Ok? || etag.None? || !IsStrong(etag.value) { return None; }
    read := Some((reply.entity, etag.value));
  }

  /**
   conditionalAttachmentPatch, with everybody else at work between any two requests. What it did is
   read off the server: its commits in the log, the versions it was given, and the requests it sent.
   */
  method PatchLinks<A(!new,0), L(0), R(!new,0)>(server: Server<A, L, R>, ghost who: nat, links: L, rest: R) returns (o: Outcome<A, R>)
    requires server.Valid()
    modifies server
    ensures server.Valid() && old(server.log) <= server.log && old(server.given) <= server.given
    // at most one commit: this link edit, of a version that this call was given
    ensures MineSince(server.log, |old(server.log)|, who) == {} || exists i :: MineSince(server.log, |old(server.log)|, who) == {i}
    ensures forall i :: i in MineSince(server.log, |old(server.log)|, who) ==>
              && server.log[i].LinkEdit? && server.log[i].links == links
              && GivenSince(server.given, |old(server.given)|, who, server.log[i].on)
    // success is that one commit, and hands out what it made
    ensures o.Committed? ==>
              exists i :: MineSince(server.log, |old(server.log)|, who) == {i}
                          && o.entity.attachments == server.apply(server.log[i].on.attachments, links)
    // a conflict committed nothing, sent all its requests, and means that others committed between each read and patch
    ensures o.Conflict? ==>
              && MineSince(server.log, |old(server.log)|, who) == {}
              && |server.log| >= |old(server.log)| + CLOUD_ATTACHMENT_PATCH_ATTEMPTS
              && server.requests[PatchBy(who)] == old(server.requests)[PatchBy(who)] + CLOUD_ATTACHMENT_PATCH_ATTEMPTS
    ensures server.requests[PatchBy(who)] <= old(server.requests)[PatchBy(who)] + CLOUD_ATTACHMENT_PATCH_ATTEMPTS
    ensures server.requests[GetBy(who)] <= old(server.requests)[GetBy(who)] + CLOUD_ATTACHMENT_PATCH_ATTEMPTS
    // nothing else stops the call
    ensures o.Failed? && !old(server.deleted) ==> server.faults > old(server.faults)
  {
    hide Fold, EditsInPlace, IsDigest, EtagOf, MineSince, GivenSince;
    var attempt := 1;
    while attempt <= CLOUD_ATTACHMENT_PATCH_ATTEMPTS
      invariant 1 <= attempt <= CLOUD_ATTACHMENT_PATCH_ATTEMPTS + 1 && server.Valid()
      invariant old(server.log) <= server.log && old(server.given) <= server.given
      invariant |server.log| >= |old(server.log)| + attempt - 1
      invariant forall i :: |old(server.log)| <= i < |server.log| ==> server.log[i].who != who
      invariant server.requests[PatchBy(who)] == old(server.requests)[PatchBy(who)] + attempt - 1
      invariant server.requests[GetBy(who)] == old(server.requests)[GetBy(who)] + attempt - 1
      invariant server.faults >= old(server.faults) && (server.faults == old(server.faults) ==> server.deleted == old(server.deleted))
    {
      server.Interfere(who);
      var read := ReadForPatch(server, who);
      if read.None? {
        OneCommit(server.log, server.log, |old(server.log)|, who);
        return Failed;
      }
      var (current, etag) := read.value;
      ghost var given := server.given;
      server.Interfere(who);
      WasGiven(given, server.given, |old(server.given)|, who, current);
      ghost var before := server.log;
      var reply := server.Patch(who, etag, server.apply(current.attachments, links), rest, (current, links));
      OneCommit(before, server.log, |old(server.log)|, who);
      if reply.Ok? { return Committed(reply.entity); }
      if !reply.Changed? { return Failed; }
      attempt := attempt + 1;
    }
    OneCommit(server.log, server.log, |old(server.log)|, who);
    o := Conflict;  // the third 412
  }

  lemma WasGiven<A, R>(given: seq<Given<A, R>>, later: seq<Given<A, R>>, start: nat, who: nat, entity: Entity<A, R>)
    requires start < |given| && given[|given| - 1] == Given(who, entity) && given <= later
    ensures GivenSince(later, start, who, entity)
  {
    assert later[|given| - 1] == Given(who, entity);
  }

  /** A log without this caller's commits, and then at most one of them. */
  lemma OneCommit<A, R, L>(before: seq<Commit<A, R, L>>, log: seq<Commit<A, R, L>>, start: nat, who: nat)
    requires start <= |before| <= |log| <= |before| + 1 && before <= log
    requires forall i :: start <= i < |before| ==> before[i].who != who
    ensures MineSince(log, start, who) == if |log| > |before| && log[|before|].who == who then {|before|} else {}
  {
  }
}
