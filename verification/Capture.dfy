/**
 Voice capture (server-capture.ts): the audio is published before the document that names it, and a
 failed document write deletes the audio only when the canonical document proves it unreferenced.
 */
module Capture {
  import opened Wrappers
  import opened Volumes
  import opened SystemCalls
  import opened Publication
  import opened Removal
  import Docs = Attachments
  import Keys = AttachmentKeys

  datatype Document = Document(tasks: seq<Docs.Owner>, projects: seq<Docs.Owner>)

  const EMPTY := Document([], [])

  datatype Blob = Audio(bytes: seq<nat>) | Json(doc: Document) | Unparsed

  // ---- names ----

  function DocPath(ns: string): Path { [ns + ".json"] }

  function AudioRoot(ns: string): Path { [ns, "attachments"] }

  function AudioPath(ns: string, name: string): Path { AudioRoot(ns) + [name] }

  function CloudKeyOf(name: string): string { Keys.ATTACHMENTS_PREFIX + name }

  /** Stage names start with a dot; namespaces and audio names do not. */
  predicate Undotted(name: string) { name != "" && name[0] != '.' }

  predicate IsStage(name: string) { name != "" && name[0] == '.' }

  predicate IsAudioName(name: string) { Keys.IsCapturedName(name) && Undotted(name) }

  /** The path a capture stores under is the one that GET /v1/<cloudKey> reads. */
  lemma AudioIsServedWhereItIsStored(ns: string, name: string)
    requires IsAudioName(name)
    ensures Keys.ServedKey(CloudKeyOf(name)) == Keys.StoredKey(CloudKeyOf(name)) == Some(name)
    ensures AudioRoot(ns) + Keys.Segments(name) == AudioPath(ns, name)
  {
    Keys.CapturedKeyLinesUp(name);
  }

  // ---- documents ----

  function Ids(doc: Document): set<string> { set o | o in doc.tasks :: o.id }

  predicate DistinctIds(doc: Document) {
    forall i, j :: 0 <= i < j < |doc.tasks| ==> doc.tasks[i].id != doc.tasks[j].id
  }

  /** Every attachment reference in a document, live or not. */
  predicate Mentions(doc: Document, cloudKey: string) {
    (exists i, j :: 0 <= i < |doc.tasks| && 0 <= j < |doc.tasks[i].attachments| && doc.tasks[i].attachments[j].cloudKey == cloudKey)
    || (exists i, j :: 0 <= i < |doc.projects| && 0 <= j < |doc.projects[i].attachments| && doc.projects[i].attachments[j].cloudKey == cloudKey)
  }

  /** What the shared finalize pass may do: it drops no task, repeats none, and invents neither a task nor a reference. */
  ghost predicate Faithful(input: Document, output: Document) {
    && Ids(output) == Ids(input) && (DistinctIds(input) ==> DistinctIds(output))
    && forall k :: Mentions(output, k) ==> Mentions(input, k)
  }

  ghost predicate IsFinalize(finalize: Document -> Option<Document>) {
    forall d :: finalize(d).Some? ==> Faithful(d, finalize(d).value)
  }

  function AddTask(doc: Document, task: Docs.Owner): Document { doc.(tasks := doc.tasks + [task]) }

  predicate Carries(task: Docs.Owner, cloudKey: string) {
    exists j :: 0 <= j < |task.attachments| && task.attachments[j].cloudKey == cloudKey
  }

  lemma AddedTask(doc: Document, task: Docs.Owner, k: string)
    ensures Ids(AddTask(doc, task)) == Ids(doc) + {task.id}
    ensures DistinctIds(doc) && task.id !in Ids(doc) ==> DistinctIds(AddTask(doc, task))
    ensures Mentions(AddTask(doc, task), k) ==> Mentions(doc, k) || Carries(task, k)
  {
    var more := AddTask(doc, task);
    assert forall o :: o in more.tasks <==> o in doc.tasks || o == task;
    assert forall i :: 0 <= i < |doc.tasks| ==> doc.tasks[i].id in Ids(doc);
  }

  // ---- the invariant ----

  /** The audio of every capture so far, by name. */
  type Recordings = map<string, seq<nat>>

  /** A document is safe when each capture it names has its audio durably in place. */
  ghost predicate AudioInPlace(d: Disk<Blob>, ns: string, recorded: Recordings, doc: Document) {
    forall name :: name in recorded && Mentions(doc, CloudKeyOf(name)) ==>
      DurableFile(d, AudioPath(ns, name), Audio(recorded[name]))
  }

  ghost predicate SafeEntry(d: Disk<Blob>, ns: string, recorded: Recordings, e: Option<Entry>) {
    e.None?
    || (&& e.value.File? && e.value.ino in d.inodes && d.inodes[e.value.ino].synced
        && (d.inodes[e.value.ino].content.Json? ==>
              DistinctIds(d.inodes[e.value.ino].content.doc) && AudioInPlace(d, ns, recorded, d.inodes[e.value.ino].content.doc)))
  }

  /** Whatever document a crash may leave: no task twice, and no capture without its audio. */
  ghost predicate Inv(d: Disk<Blob>, ns: string, recorded: Recordings) {
    && Undotted(ns) && (forall name :: name in recorded ==> IsAudioName(name))
    && forall e :: Possible(d, DocPath(ns), e) ==> SafeEntry(d, ns, recorded, e)
  }

  ghost predicate DocumentHas(d: Disk<Blob>, e: Option<Entry>, doc: Document) {
    e.Some? && e.value.File? && e.value.ino in d.inodes && d.inodes[e.value.ino].synced
    && d.inodes[e.value.ino].content == Json(doc)
  }

  /** No document that a crash may leave names this key. */
  ghost predicate Unmentioned(d: Disk<Blob>, ns: string, cloudKey: string) {
    forall e, doc :: Possible(d, DocPath(ns), e) && DocumentHas(d, e, doc) ==> !Mentions(doc, cloudKey)
  }

  /** Every document that a crash may leave has these tasks. */
  ghost predicate NeverLost(d: Disk<Blob>, ns: string, ids: set<string>) {
    ids != {} ==> forall e :: Possible(d, DocPath(ns), e) ==> exists doc :: DocumentHas(d, e, doc) && ids <= Ids(doc)
  }

  // ---- what may change ----

  ghost predicate KeepsSynced(pre: Disk<Blob>, post: Disk<Blob>) {
    forall i :: i in pre.inodes && pre.inodes[i].synced ==> i in post.inodes && post.inodes[i] == pre.inodes[i]
  }

  /** No document can turn up that could not before. */
  ghost predicate SameDocuments(pre: Disk<Blob>, post: Disk<Blob>, ns: string) {
    KeepsSynced(pre, post) && forall e :: Possible(post, DocPath(ns), e) ==> Possible(pre, DocPath(ns), e)
  }

  /** ... except this one. */
  ghost predicate AddsDocument(pre: Disk<Blob>, post: Disk<Blob>, ns: string, doc: Document) {
    KeepsSynced(pre, post) && forall e :: Possible(post, DocPath(ns), e) ==> Possible(pre, DocPath(ns), e) || DocumentHas(post, e, doc)
  }

  lemma SameIsKept(pre: Disk<Blob>, post: Disk<Blob>, ns: string, recorded: Recordings, e: Option<Entry>, doc: Document)
    requires Inv(pre, ns, recorded) && KeepsSynced(pre, post) && Possible(pre, DocPath(ns), e)
    ensures DocumentHas(post, e, doc) <==> DocumentHas(pre, e, doc)
  {
    assert SafeEntry(pre, ns, recorded, e);
  }

  lemma SameStaysUnmentioned(pre: Disk<Blob>, post: Disk<Blob>, ns: string, recorded: Recordings, k: string)
    requires Inv(pre, ns, recorded) && SameDocuments(pre, post, ns) && Unmentioned(pre, ns, k)
    ensures Unmentioned(post, ns, k)
  {
    forall e, doc | Possible(post, DocPath(ns), e) && DocumentHas(post, e, doc) ensures !Mentions(doc, k) {
      SameIsKept(pre, post, ns, recorded, e, doc);
    }
  }

  /** Steps that add no document and keep the audio keep the invariant. */
  lemma InvKept(pre: Disk<Blob>, post: Disk<Blob>, ns: string, recorded: Recordings, hole: set<Path>)
    requires Inv(pre, ns, recorded) && Keeps(pre, post, hole)
    requires forall e :: Possible(post, DocPath(ns), e) ==> Possible(pre, DocPath(ns), e)
    requires forall name :: AudioPath(ns, name) in hole ==> name !in recorded || Unmentioned(pre, ns, CloudKeyOf(name))
    ensures Inv(post, ns, recorded) && SameDocuments(pre, post, ns)
  {
    forall e | Possible(post, DocPath(ns), e) ensures SafeEntry(post, ns, recorded, e) {
      EntryKept(pre, post, ns, recorded, hole, e);
    }
  }

  lemma EntryKept(pre: Disk<Blob>, post: Disk<Blob>, ns: string, recorded: Recordings, hole: set<Path>, e: Option<Entry>)
    requires SafeEntry(pre, ns, recorded, e) && Keeps(pre, post, hole)
    requires forall name, doc :: AudioPath(ns, name) in hole && name in recorded && DocumentHas(pre, e, doc) ==> !Mentions(doc, CloudKeyOf(name))
    ensures SafeEntry(post, ns, recorded, e)
  {
    if e.Some? && pre.inodes[e.value.ino].content.Json? {
      var doc := pre.inodes[e.value.ino].content.doc;
      assert DocumentHas(pre, e, doc);
      forall name | name in recorded && Mentions(doc, CloudKeyOf(name))
        ensures DurableFile(post, AudioPath(ns, name), Audio(recorded[name]))
      {
        FileKept(pre, post, hole, AudioPath(ns, name), Audio(recorded[name]));
      }
    }
  }

  lemma FileKept(pre: Disk<Blob>, post: Disk<Blob>, hole: set<Path>, p: Path, content: Blob)
    requires Keeps(pre, post, hole) && DurableFile(pre, p, content) && p !in hole
    ensures DurableFile(post, p, content)
  {
    var ino: nat :| DurableAt(pre, p, File(ino)) && HoldsSynced(pre, ino, content);
    assert DurableAt(post, p, File(ino)) && HoldsSynced(post, ino, content);
  }

  lemma AudioPathsDiffer(ns: string, name: string, stage: string)
    requires Undotted(ns) && IsStage(stage)
    ensures DocPath(ns) != AudioPath(ns, name) && [stage] != AudioPath(ns, name) && [stage] != DocPath(ns)
    ensures Undotted(name) ==> AudioRoot(ns) + [stage] != AudioPath(ns, name)
    ensures !BelowFirstStep([], AudioRoot(ns), DocPath(ns))
    ensures !BelowFirstStep(AudioRoot(ns), AudioRoot(ns), AudioPath(ns, name))
  {
    assert |DocPath(ns)| == 1 && |AudioPath(ns, name)| == 3;
    assert AudioPath(ns, name)[2] == name && (AudioRoot(ns) + [stage])[2] == stage;
    assert DocPath(ns)[0] == ns + ".json";
    assert AudioRoot(ns)[..1] == [ns];
    assert |ns + ".json"| == |ns| + 5;
  }

  // ---- the steps ----

  /** Nothing on the disk stands in the way of storing this audio, or of writing the document. */
  ghost predicate AudioFits(d: Disk<Blob>, ns: string, name: string, stage: string) {
    Clear(d, [], AudioRoot(ns)) && AudioRoot(ns) + [stage] !in d.entries && Visible(d, AudioPath(ns, name)) != Some(Directory)
  }

  ghost predicate DocumentFits(d: Disk<Blob>, ns: string, stage: string) {
    [stage] !in d.entries && Visible(d, DocPath(ns)) != Some(Directory)
  }

  /** storeCaptureAudio: false stands for its 500 response. */
  method StoreAudio(vol: Volume<Blob>, ns: string, name: string, bytes: seq<nat>, stage: string, mtime: int, ghost recorded: Recordings)
    returns (o: Outcome<bool>)
    requires vol.Valid() && Inv(vol.disk, ns, recorded) && IsAudioName(name) && IsStage(stage)
    requires Unmentioned(vol.disk, ns, CloudKeyOf(name))
    modifies vol
    ensures vol.Valid() && Inv(vol.disk, ns, recorded[name := bytes]) && SameDocuments(old(vol.disk), vol.disk, ns)
    ensures !o.Crashed? ==> Visible(vol.disk, DocPath(ns)) == Visible(old(vol.disk), DocPath(ns))
    ensures o == Returned(true) ==> DurableFile(vol.disk, AudioPath(ns, name), Audio(bytes))
    ensures !o.Crashed? ==> forall other :: IsStage(other) ==> Visible(vol.disk, [other]) == Visible(old(vol.disk), [other])
    ensures vol.faults >= old(vol.faults)
    ensures vol.faults == old(vol.faults) && AudioFits(old(vol.disk), ns, name, stage) ==> o == Returned(true)
  {
    ghost var start := vol.disk;
    AudioPathsDiffer(ns, name, stage);
    RecordingUnmentioned(start, ns, name, bytes, recorded);
    forall other | IsStage(other) ensures !BelowFirstStep([], AudioRoot(ns), [other]) { AudioPathsDiffer(ns, name, other); }
    var trouble := vol.Trouble();
    if trouble { return Threw; }  // the storage root is no longer the one seen at startup
    var ensured := EnsureDirectoryWithinRoot(vol, [], AudioRoot(ns), true);
    InvKept(start, vol.disk, ns, recorded[name := bytes], {});
    SameStaysUnmentioned(start, vol.disk, ns, recorded, CloudKeyOf(name));
    if ensured.Crashed? { return Crashed; }
    if ensured.Threw? { return Threw; }
    if !ensured.value { return Returned(false); }
    ghost var walked := vol.disk;
    assert DurableDir(start, []) && DurableDir(walked, AudioRoot(ns));
    assert Parent(AudioPath(ns, name)) == AudioRoot(ns);
    if AudioFits(start, ns, name, stage) {
      assert |AudioRoot(ns) + [stage]| == 3 == |AudioPath(ns, name)| && |AudioRoot(ns)| == 2;
      assert Visible(walked, AudioRoot(ns) + [stage]).None? && Visible(walked, AudioPath(ns, name)) != Some(Directory);
      assert Ready(walked, AudioRoot(ns), AudioPath(ns, name), AudioRoot(ns) + [stage]);
    }
    ghost var ino;
    o, ino := PublishFile(vol, AudioRoot(ns), AudioPath(ns, name), Audio(bytes), stage, mtime);
    StoredStep(walked, vol.disk, ns, name, bytes, stage, ino, recorded[name := bytes]);
  }

  lemma StoredStep(pre: Disk<Blob>, post: Disk<Blob>, ns: string, name: string, bytes: seq<nat>, stage: string, ino: nat, recorded: Recordings)
    requires Inv(pre, ns, recorded) && IsAudioName(name) && IsStage(stage) && Unmentioned(pre, ns, CloudKeyOf(name))
    requires PublicationFrame(pre, post, AudioRoot(ns), AudioPath(ns, name), AudioRoot(ns) + [stage], ino, Audio(bytes))
    ensures Inv(post, ns, recorded) && SameDocuments(pre, post, ns)
  {
    AudioPathsDiffer(ns, name, stage);
    assert Parent(AudioPath(ns, name)) == AudioRoot(ns);
    forall other | AudioPath(ns, other) in {AudioPath(ns, name), AudioRoot(ns) + [stage]}
      ensures other !in recorded || Unmentioned(pre, ns, CloudKeyOf(other))
    {
      assert AudioPath(ns, other)[2] == other && AudioPath(ns, name)[2] == name && (AudioRoot(ns) + [stage])[2] == stage;
    }
    InvKept(pre, post, ns, recorded, {AudioPath(ns, name), AudioRoot(ns) + [stage]});
  }

  lemma RecordingUnmentioned(d: Disk<Blob>, ns: string, name: string, bytes: seq<nat>, recorded: Recordings)
    requires Inv(d, ns, recorded) && IsAudioName(name) && Unmentioned(d, ns, CloudKeyOf(name))
    ensures Inv(d, ns, recorded[name := bytes])
  {
    forall e | Possible(d, DocPath(ns), e) ensures SafeEntry(d, ns, recorded[name := bytes], e) {
      assert SafeEntry(d, ns, recorded, e);
      if e.Some? && d.inodes[e.value.ino].content.Json? {
        assert DocumentHas(d, e, d.inodes[e.value.ino].content.doc);
      }
    }
  }

  /** writeCloudData of a document whose captures all have their audio in place. */
  method WriteDocument(vol: Volume<Blob>, ns: string, doc: Document, stage: string, mtime: int, ghost recorded: Recordings)
    returns (o: Outcome<()>)
    requires vol.Valid() && Inv(vol.disk, ns, recorded) && IsStage(stage)
    requires DistinctIds(doc) && AudioInPlace(vol.disk, ns, recorded, doc)
    modifies vol
    ensures vol.Valid() && Inv(vol.disk, ns, recorded) && AddsDocument(old(vol.disk), vol.disk, ns, doc)
    ensures o.Returned? ==> NeverLost(vol.disk, ns, Ids(doc)) && Reads(vol.disk, ns, doc)
    ensures o.Threw? ==> OnlyVisibleIsNew(old(vol.disk), vol.disk, ns)
    ensures o.Threw? ==> Visible(vol.disk, DocPath(ns)) == Visible(old(vol.disk), DocPath(ns)) || Reads(vol.disk, ns, doc)
    ensures vol.faults >= old(vol.faults)
    ensures vol.faults == old(vol.faults) && DocumentFits(old(vol.disk), ns, stage) ==> o.Returned?
  {
    ghost var start := vol.disk;
    ghost var ino;
    AudioPathsDiffer(ns, "", stage);
    o, ino := WriteData(vol, DocPath(ns), Json(doc), stage, mtime);
    assert Parent(DocPath(ns)) == [] && [] + [stage] == [stage];
    WrittenStep(start, vol.disk, ns, doc, stage, ino, recorded);
    if o.Returned? {
      assert DurableDir(start, []);
      WrittenDurably(vol.disk, ns, doc);
    }
    if Visible(vol.disk, DocPath(ns)) == Some(File(ino)) {
      assert Possible(vol.disk, DocPath(ns), Some(File(ino)));
    }
  }

  /** A document that is possible but not visible after a failed write was possible before it. */
  ghost predicate OnlyVisibleIsNew(pre: Disk<Blob>, post: Disk<Blob>, ns: string) {
    KeepsSynced(pre, post)
    && forall e :: Possible(post, DocPath(ns), e) && e != Visible(post, DocPath(ns)) ==> Possible(pre, DocPath(ns), e)
  }

  lemma SameHasNothingNew(pre: Disk<Blob>, post: Disk<Blob>, ns: string)
    requires SameDocuments(pre, post, ns)
    ensures OnlyVisibleIsNew(pre, post, ns)
  {
  }

  /** Steps around a failed write that add no document, and leave the visible one after it, hide nothing new. */
  lemma StillOnlyVisibleIsNew(start: Disk<Blob>, pre: Disk<Blob>, written: Disk<Blob>, post: Disk<Blob>, ns: string)
    requires SameDocuments(start, pre, ns) && OnlyVisibleIsNew(pre, written, ns) && SameDocuments(written, post, ns)
    requires Visible(post, DocPath(ns)) == Visible(written, DocPath(ns))
    ensures OnlyVisibleIsNew(start, post, ns)
  {
  }

  lemma SameAsItself(d: Disk<Blob>, ns: string)
    ensures SameDocuments(d, d, ns)
  {
  }

  /** A reader finds this document. */
  ghost predicate Reads(d: Disk<Blob>, ns: string, doc: Document) {
    DocumentHas(d, Visible(d, DocPath(ns)), doc)
  }

  lemma WrittenStep(pre: Disk<Blob>, post: Disk<Blob>, ns: string, doc: Document, stage: string, ino: nat, recorded: Recordings)
    requires Inv(pre, ns, recorded) && IsStage(stage)
    requires DistinctIds(doc) && AudioInPlace(pre, ns, recorded, doc)
    requires PublicationFrame(pre, post, [], DocPath(ns), [stage], ino, Json(doc))
    ensures Inv(post, ns, recorded)
    ensures AddsDocument(pre, post, ns, doc)
    ensures forall e :: Possible(post, DocPath(ns), e) ==> Possible(pre, DocPath(ns), e) || e == Some(File(ino))
  {
    assert Parent(DocPath(ns)) == [];
    AudioPathsDiffer(ns, "", stage);
    var hole := {DocPath(ns), [stage]};
    forall name ensures AudioPath(ns, name) !in hole { AudioPathsDiffer(ns, name, stage); }
    forall e | Possible(post, DocPath(ns), e)
      ensures Possible(pre, DocPath(ns), e) || (e == Some(File(ino)) && DocumentHas(post, e, doc))
      ensures SafeEntry(post, ns, recorded, e)
    {
      if Possible(pre, DocPath(ns), e) {
        EntryKept(pre, post, ns, recorded, hole, e);
      } else {
        forall name | name in recorded && Mentions(doc, CloudKeyOf(name))
          ensures DurableFile(post, AudioPath(ns, name), Audio(recorded[name]))
        {
          FileKept(pre, post, hole, AudioPath(ns, name), Audio(recorded[name]));
        }
      }
    }
  }

  lemma WrittenDurably(d: Disk<Blob>, ns: string, doc: Document)
    requires DurableFile(d, DocPath(ns), Json(doc))
    ensures NeverLost(d, ns, Ids(doc)) && Reads(d, ns, doc)
  {
    var ino: nat :| DurableAt(d, DocPath(ns), File(ino)) && HoldsSynced(d, ino, Json(doc));
    forall e | Possible(d, DocPath(ns), e) ensures DocumentHas(d, e, doc) {
    }
  }

  /** removeOrphanedCaptureAudio: every way this ends keeps the invariant, and it never throws. */
  method RemoveOrphanedAudio(vol: Volume<Blob>, ns: string, name: string, ghost recorded: Recordings) returns (crashed: bool)
    requires vol.Valid() && Inv(vol.disk, ns, recorded) && IsAudioName(name)
    // only the document a reader finds can name this capture
    requires forall e, doc :: Possible(vol.disk, DocPath(ns), e) && e != Visible(vol.disk, DocPath(ns)) && DocumentHas(vol.disk, e, doc) ==>
               !Mentions(doc, CloudKeyOf(name))
    modifies vol
    ensures vol.Valid() && Inv(vol.disk, ns, recorded) && SameDocuments(old(vol.disk), vol.disk, ns)
    ensures !crashed ==> Visible(vol.disk, DocPath(ns)) == Visible(old(vol.disk), DocPath(ns))
    // the audio goes only when no document names it
    ensures !Unmentioned(old(vol.disk), ns, CloudKeyOf(name)) ==> vol.disk == old(vol.disk)
    // ... and then durably
    ensures vol.faults >= old(vol.faults) && (crashed ==> vol.faults > old(vol.faults))
    ensures vol.faults == old(vol.faults) && Reachable(old(vol.disk), AudioRoot(ns)) && Obstructs(old(vol.disk), AudioPath(ns, name))
            && (exists doc :: Reads(old(vol.disk), ns, doc) && !Mentions(doc, CloudKeyOf(name))) ==>
              forall e :: Possible(vol.disk, AudioPath(ns, name), e) ==> e == None
  {
    hide Mentions, Clear, Keeps, Settled, DurableDir, Inv, StillPossible, StaysInView;
    NothingChanges(vol.disk, ns, recorded);
    crashed := false;
    var trouble := vol.Trouble();
    if trouble { return; }  // the storage root is no longer the one seen at startup
    var canonical := ReadDocument(vol, ns);
    if canonical.None? || Mentions(canonical.value, CloudKeyOf(name)) { return; }
    ghost var start := vol.disk;
    trouble := vol.Trouble();
    if trouble { return; }  // ... or stopped being it during the read
    var resolved := EnsureDirectoryWithinRoot(vol, [], AudioRoot(ns), false);
    if Reachable(start, AudioRoot(ns)) { ReachableIsClear(start, AudioRoot(ns)); }
    if resolved != Returned(true) { return resolved.Crashed?; }
    assert Parent(AudioPath(ns, name)) == AudioRoot(ns);
    var removal, code := DurablyRemoveEntry(vol, AudioPath(ns, name), false, true);
    AudioPathsDiffer(ns, name, ".");
    forall other | AudioPath(ns, other) in {AudioPath(ns, name)}
      ensures other !in recorded || Unmentioned(start, ns, CloudKeyOf(other))
    {
      assert AudioPath(ns, other)[2] == other && AudioPath(ns, name)[2] == name;
    }
    InvKept(start, vol.disk, ns, recorded, {AudioPath(ns, name)});
    crashed := removal.Crashed?;
  }

  lemma NothingChanges(d: Disk<Blob>, ns: string, recorded: Recordings)
    requires Inv(d, ns, recorded)
    ensures SameDocuments(d, d, ns) && Undotted(ns)
  {
  }

  lemma {:induction false} ReachableIsClear(d: Disk<Blob>, dir: Path)
    requires Reachable(d, dir)
    ensures Clear(d, [], dir)
    decreases |dir|
  {
    if dir != [] {
      ReachableIsClear(d, Parent(dir));
      forall k | 0 < k <= |dir| ensures !Obstructs(d, dir[..k]) {
        if k < |dir| { assert dir[..k] == Parent(dir)[..k]; } else { assert dir[..k] == dir; }
      }
    }
  }

  /** Reading the canonical document; None when it is missing, unreadable or not a document. */
  method ReadDocument(vol: Volume<Blob>, ns: string) returns (doc: Option<Document>)
    requires vol.Valid()
    modifies vol`faults
    ensures doc.Some? ==> Read(vol.disk, DocPath(ns)) == Some(Json(doc.value))
    ensures vol.faults >= old(vol.faults)
    ensures vol.faults == old(vol.faults) && doc.None? ==> forall d :: Read(vol.disk, DocPath(ns)) != Some(Json(d))
  {
    var trouble := vol.Trouble();
    if trouble { return None; }  // the read failed
    var found := Read(vol.disk, DocPath(ns));
    doc := if found.Some? && found.value.Json? then Some(found.value.doc) else None;
  }

  // ---- one request ----

  /** A capture: its id (the captureId, or a generated one), and its audio under a fresh name. */
  datatype Request = Request(captureId: Option<string>, generatedId: string, audio: Option<(string, seq<nat>)>,
                             attachments: seq<Docs.Attachment>)
  {
    function Id(): string { if captureId.Some? then captureId.value else generatedId }

    function Task(): Docs.Owner { Docs.Owner(Id(), false, attachments) }

    /** The new entry carries no other capture key than the one of its own audio. */
    ghost predicate OnlyOwnAudio() {
      && (audio.Some? ==> IsAudioName(audio.value.0))
      && forall name :: IsAudioName(name) && Carries(Task(), CloudKeyOf(name)) ==> audio.Some? && name == audio.value.0
    }
  }

  datatype Response = Created | Replayed | Refused(status: nat)

  /** Generated ids and attachment names are new to every document that could still turn up. */
  ghost predicate Fresh(d: Disk<Blob>, ns: string, request: Request) {
    && (request.audio.Some? ==> Unmentioned(d, ns, CloudKeyOf(request.audio.value.0)))
    && (request.captureId.None? ==> forall doc :: Reads(d, ns, doc) ==> request.generatedId !in Ids(doc))
  }

  /** The document a write starts from: what a reader finds, or an empty one when there is none. */
  ghost predicate StartsFrom(d: Disk<Blob>, ns: string, doc: Document) {
    Reads(d, ns, doc) || (Visible(d, DocPath(ns)).None? && doc == EMPTY)
  }

  method LoadDocument(vol: Volume<Blob>, ns: string, ghost recorded: Recordings) returns (doc: Option<Document>)
    requires vol.Valid() && Inv(vol.disk, ns, recorded)
    modifies vol`faults
    ensures vol.faults >= old(vol.faults)
    ensures vol.faults == old(vol.faults) ==> (doc.Some? <==> exists d :: StartsFrom(vol.disk, ns, d))
    ensures doc.Some? ==> StartsFrom(vol.disk, ns, doc.value)
    ensures doc.Some? ==> DistinctIds(doc.value) && AudioInPlace(vol.disk, ns, recorded, doc.value)
  {
    if !Exists(vol.disk, DocPath(ns)) {
      assert StartsFrom(vol.disk, ns, EMPTY);
      return Some(EMPTY);
    }
    doc := ReadDocument(vol, ns);
    assert forall d :: StartsFrom(vol.disk, ns, d) ==> Read(vol.disk, DocPath(ns)) == Some(Json(d));
    if doc.Some? {
      assert Possible(vol.disk, DocPath(ns), Visible(vol.disk, DocPath(ns)));
      assert StartsFrom(vol.disk, ns, doc.value);
    }
  }

  /** A document that starts from what readers find loses no acknowledged task. */
  lemma StartsFromKnows(d: Disk<Blob>, ns: string, doc: Document, ids: set<string>)
    requires StartsFrom(d, ns, doc) && NeverLost(d, ns, ids)
    ensures ids <= Ids(doc)
  {
    if ids != {} {
      assert Possible(d, DocPath(ns), Visible(d, DocPath(ns)));
      var x :| DocumentHas(d, Visible(d, DocPath(ns)), x) && ids <= Ids(x);
    }
  }

  lemma ReadyToWrite(d: Disk<Blob>, ns: string, recorded: Recordings, request: Request, doc: Document, output: Document)
    requires Inv(d, ns, recorded) && StartsFrom(d, ns, doc) && DistinctIds(doc) && request.Id() !in Ids(doc)
    requires request.OnlyOwnAudio() && Faithful(AddTask(doc, request.Task()), output)
    requires request.audio.Some? && request.audio.value.0 in recorded ==>
               DurableFile(d, AudioPath(ns, request.audio.value.0), Audio(recorded[request.audio.value.0]))
    ensures DistinctIds(output) && AudioInPlace(d, ns, recorded, output) && Ids(output) == Ids(doc) + {request.Id()}
  {
    AddedTask(doc, request.Task(), "");
    forall name | name in recorded && Mentions(output, CloudKeyOf(name))
      ensures DurableFile(d, AudioPath(ns, name), Audio(recorded[name]))
    {
      AddedTask(doc, request.Task(), CloudKeyOf(name));
      if Mentions(doc, CloudKeyOf(name)) {
        assert Possible(d, DocPath(ns), Visible(d, DocPath(ns)));
      }
    }
  }

  /** The document write and, when it throws, the cleanup after it. */
  method WriteCapture(vol: Volume<Blob>, ns: string, request: Request, doc: Document, output: Document,
                      docStage: string, mtime: int, ghost recorded: Recordings) returns (o: Outcome<Response>)
    requires vol.Valid() && Inv(vol.disk, ns, recorded) && IsStage(docStage)
    requires StartsFrom(vol.disk, ns, doc) && DistinctIds(doc) && request.Id() !in Ids(doc)
    requires request.OnlyOwnAudio() && Faithful(AddTask(doc, request.Task()), output)
    requires request.audio.Some? ==>
               && Unmentioned(vol.disk, ns, CloudKeyOf(request.audio.value.0))
               && (request.audio.value.0 in recorded ==>
                     DurableFile(vol.disk, AudioPath(ns, request.audio.value.0), Audio(recorded[request.audio.value.0])))
    modifies vol
    ensures vol.Valid() && Inv(vol.disk, ns, recorded) && AddsDocument(old(vol.disk), vol.disk, ns, output)
    ensures o.Returned? ==> o.value == Created && NeverLost(vol.disk, ns, {request.Id()})
                            && Reads(vol.disk, ns, output) && request.Id() in Ids(output)
    ensures o.Threw? ==> OnlyVisibleIsNew(old(vol.disk), vol.disk, ns)
    ensures vol.faults >= old(vol.faults)
    ensures vol.faults == old(vol.faults) && DocumentFits(old(vol.disk), ns, docStage) ==> o.Returned?
  {
    ghost var start := vol.disk;
    SameAsItself(start, ns);
    SameHasNothingNew(start, start, ns);
    ReadyToWrite(start, ns, recorded, request, doc, output);
    var written := Threw;
    var aborted := vol.Trouble();
    if !aborted {
      written := WriteDocument(vol, ns, output, docStage, mtime, recorded);
    }
    if written.Crashed? { return Crashed; }
    if written.Returned? {
      assert Reads(vol.disk, ns, output) && request.Id() in Ids(output);
      FewerNeverLost(vol.disk, ns, Ids(output), {request.Id()});
      return Returned(Created);
    }
    if request.audio.Some? {
      OnlyVisibleNames(start, vol.disk, ns, recorded, CloudKeyOf(request.audio.value.0));
      ghost var failed := vol.disk;
      var crashed := RemoveOrphanedAudio(vol, ns, request.audio.value.0, recorded);
      AddedStaysAdded(start, failed, vol.disk, ns, output);
      if crashed { return Crashed; }
      StillOnlyVisibleIsNew(start, start, failed, vol.disk, ns);
    }
    o := Threw;
  }

  lemma AddedStaysAdded(pre: Disk<Blob>, written: Disk<Blob>, post: Disk<Blob>, ns: string, doc: Document)
    requires AddsDocument(pre, written, ns, doc) && SameDocuments(written, post, ns)
    ensures AddsDocument(pre, post, ns, doc)
  {
    forall e | Possible(post, DocPath(ns), e) ensures Possible(pre, DocPath(ns), e) || DocumentHas(post, e, doc) {
      assert DocumentHas(written, e, doc) ==> DocumentHas(post, e, doc);
    }
  }

  lemma FewerNeverLost(d: Disk<Blob>, ns: string, ids: set<string>, fewer: set<string>)
    requires NeverLost(d, ns, ids) && fewer <= ids
    ensures NeverLost(d, ns, fewer)
  {
  }

  lemma OnlyVisibleNames(pre: Disk<Blob>, post: Disk<Blob>, ns: string, recorded: Recordings, cloudKey: string)
    requires Inv(pre, ns, recorded) && Unmentioned(pre, ns, cloudKey)
    requires forall e :: Possible(post, DocPath(ns), e) && e != Visible(post, DocPath(ns)) ==> Possible(pre, DocPath(ns), e)
    requires KeepsSynced(pre, post)
    ensures forall e, doc :: Possible(post, DocPath(ns), e) && e != Visible(post, DocPath(ns)) && DocumentHas(post, e, doc) ==>
              !Mentions(doc, cloudKey)
  {
    forall e, doc | Possible(post, DocPath(ns), e) && e != Visible(post, DocPath(ns)) && DocumentHas(post, e, doc)
      ensures !Mentions(doc, cloudKey)
    {
      assert SafeEntry(pre, ns, recorded, e);
      assert DocumentHas(pre, e, doc);
    }
  }

  lemma StillStartsFrom(pre: Disk<Blob>, post: Disk<Blob>, ns: string, recorded: Recordings, doc: Document)
    requires StartsFrom(pre, ns, doc) && KeepsSynced(pre, post) && Visible(post, DocPath(ns)) == Visible(pre, DocPath(ns))
    ensures StartsFrom(post, ns, doc)
  {
  }

  lemma AddedAfterSame(pre: Disk<Blob>, staged: Disk<Blob>, post: Disk<Blob>, ns: string, recorded: Recordings, doc: Document)
    requires SameDocuments(pre, staged, ns) && AddsDocument(staged, post, ns, doc)
    ensures AddsDocument(pre, post, ns, doc)
  {
  }

  /** The only document a capture can add is the one a reader finds, with this task, finalized. */
  ghost predicate Advances(pre: Disk<Blob>, post: Disk<Blob>, ns: string, request: Request) {
    SameDocuments(pre, post, ns)
    || exists base, doc :: StartsFrom(pre, ns, base) && Faithful(AddTask(base, request.Task()), doc) && AddsDocument(pre, post, ns, doc)
  }

  /** No document that a crash may leave has a task with this id. */
  ghost predicate Unused(d: Disk<Blob>, ns: string, id: string) {
    forall e, doc :: Possible(d, DocPath(ns), e) && DocumentHas(d, e, doc) ==> id !in Ids(doc)
  }

  /** A capture loses no task that was safe, and brings in no id and no key but its own. */
  lemma AdvancesKeeps(pre: Disk<Blob>, post: Disk<Blob>, ns: string, recorded: Recordings, request: Request)
    requires Inv(pre, ns, recorded) && Advances(pre, post, ns, request)
    ensures forall ids :: NeverLost(pre, ns, ids) ==> NeverLost(post, ns, ids)
    ensures forall k :: Unmentioned(pre, ns, k) && !Carries(request.Task(), k) ==> Unmentioned(post, ns, k)
    ensures forall id :: Unused(pre, ns, id) && id != request.Id() ==> Unused(post, ns, id)
  {
    var base, doc := EMPTY, EMPTY;
    if !SameDocuments(pre, post, ns) {
      base, doc :| StartsFrom(pre, ns, base) && Faithful(AddTask(base, request.Task()), doc) && AddsDocument(pre, post, ns, doc);
      AddedTask(base, request.Task(), "");
    }
    forall ids | NeverLost(pre, ns, ids) ensures NeverLost(post, ns, ids) {
      if ids != {} {
        forall e | Possible(post, DocPath(ns), e) ensures exists x :: DocumentHas(post, e, x) && ids <= Ids(x) {
          if Possible(pre, DocPath(ns), e) {
            var x :| DocumentHas(pre, e, x) && ids <= Ids(x);
            SameIsKept(pre, post, ns, recorded, e, x);
          } else {
            StartsFromKnows(pre, ns, base, ids);
            assert DocumentHas(post, e, doc);
          }
        }
      }
    }
    forall k | Unmentioned(pre, ns, k) && !Carries(request.Task(), k) ensures Unmentioned(post, ns, k) {
      forall e, x | Possible(post, DocPath(ns), e) && DocumentHas(post, e, x) ensures !Mentions(x, k) {
        if Possible(pre, DocPath(ns), e) {
          SameIsKept(pre, post, ns, recorded, e, x);
        } else {
          assert Possible(pre, DocPath(ns), Visible(pre, DocPath(ns)));
          AddedTask(base, request.Task(), k);
        }
      }
    }
    forall id | Unused(pre, ns, id) && id != request.Id() ensures Unused(post, ns, id) {
      forall e, x | Possible(post, DocPath(ns), e) && DocumentHas(post, e, x) ensures id !in Ids(x) {
        if Possible(pre, DocPath(ns), e) {
          SameIsKept(pre, post, ns, recorded, e, x);
        } else {
          assert Possible(pre, DocPath(ns), Visible(pre, DocPath(ns)));
        }
      }
    }
  }

  /** The rest of the locked section, for a capture that is new: the audio, then the document. */
  method AddCapture(vol: Volume<Blob>, ns: string, request: Request, doc: Document, output: Document,
                    audioStage: string, docStage: string, mtime: int, ghost recorded: Recordings, ghost recordedAfter: Recordings)
    returns (o: Outcome<Response>)
    requires vol.Valid() && Inv(vol.disk, ns, recordedAfter) && IsStage(audioStage) && IsStage(docStage)
    requires StartsFrom(vol.disk, ns, doc) && DistinctIds(doc) && request.Id() !in Ids(doc)
    requires request.OnlyOwnAudio() && Faithful(AddTask(doc, request.Task()), output)
    requires recordedAfter == if request.audio.Some? then recorded[request.audio.value.0 := request.audio.value.1] else recorded
    requires request.audio.Some? ==> Unmentioned(vol.disk, ns, CloudKeyOf(request.audio.value.0))
    modifies vol
    ensures vol.Valid() && Inv(vol.disk, ns, recordedAfter) && AddsDocument(old(vol.disk), vol.disk, ns, output)
    ensures o == Returned(Created) ==> NeverLost(vol.disk, ns, {request.Id()}) && Reads(vol.disk, ns, output) && request.Id() in Ids(output)
    ensures o.Returned? ==> o.value in {Created, Refused(500)}
    ensures o.Threw? ==> OnlyVisibleIsNew(old(vol.disk), vol.disk, ns)
    ensures vol.faults >= old(vol.faults)
    ensures vol.faults == old(vol.faults) && DocumentFits(old(vol.disk), ns, docStage)
            && (request.audio.Some? ==> AudioFits(old(vol.disk), ns, request.audio.value.0, audioStage)) ==>
              o == Returned(Created)
  {
    hide Inv, Faithful, Reachable, Clear, CloudKeyOf, OnlyVisibleIsNew;
    ghost var start := vol.disk;
    SameAsItself(start, ns);
    if request.audio.Some? {
      var stored := StoreAudio(vol, ns, request.audio.value.0, request.audio.value.1, audioStage, mtime, recordedAfter);
      assert recordedAfter[request.audio.value.0 := request.audio.value.1] == recordedAfter;
      SameHasNothingNew(start, vol.disk, ns);
      if stored.Crashed? { return Crashed; }
      if stored.Threw? { return Threw; }
      if !stored.value { return Returned(Refused(500)); }
      SameStaysUnmentioned(start, vol.disk, ns, recordedAfter, CloudKeyOf(request.audio.value.0));
    }
    ghost var staged := vol.disk;
    StillStartsFrom(start, staged, ns, recordedAfter, doc);
    assert DocumentFits(start, ns, docStage) ==> DocumentFits(staged, ns, docStage) by {
      assert Visible(staged, [docStage]) == Visible(start, [docStage]);
    }
    o := WriteCapture(vol, ns, request, doc, output, docStage, mtime, recordedAfter);
    AddedAfterSame(start, staged, vol.disk, ns, recordedAfter, output);
    SameAsItself(vol.disk, ns);
    if o.Threw? { StillOnlyVisibleIsNew(start, staged, vol.disk, vol.disk, ns); }
  }

  /** What a request is answered when nothing goes wrong: a replay, a new task, or a refusal. */
  ghost predicate RightAnswer(before: Disk<Blob>, after: Disk<Blob>, ns: string, request: Request,
                              finalize: Document -> Option<Document>, r: Response)
  {
    if doc :| StartsFrom(before, ns, doc) then
      var next := finalize(AddTask(doc, request.Task()));
      if request.captureId.Some? && request.Id() in Ids(doc) then r == Replayed
      else if next.None? then r == Refused(400)
      else r == Created && Reads(after, ns, next.value)
    else r == Refused(500)
  }

  lemma AnswerIsRight(before: Disk<Blob>, after: Disk<Blob>, ns: string, request: Request, finalize: Document -> Option<Document>,
                      doc: Document, r: Response)
    requires StartsFrom(before, ns, doc)
    requires var next := finalize(AddTask(doc, request.Task()));
             if request.captureId.Some? && request.Id() in Ids(doc) then r == Replayed
             else if next.None? then r == Refused(400)
             else r == Created && Reads(after, ns, next.value)
    ensures RightAnswer(before, after, ns, request, finalize, r)
  {
    forall other | StartsFrom(before, ns, other) ensures other == doc { StartsFromOne(before, ns, other, doc); }
  }

  lemma StartsFromOne(d: Disk<Blob>, ns: string, a: Document, b: Document)
    requires StartsFrom(d, ns, a) && StartsFrom(d, ns, b)
    ensures a == b
  {
  }

  /** The locked section of handleCaptureRequest. */
  method LockedCapture(vol: Volume<Blob>, ns: string, request: Request, finalize: Document -> Option<Document>,
                       audioStage: string, docStage: string, mtime: int, ghost recorded: Recordings)
    returns (o: Outcome<Response>, ghost recordedAfter: Recordings)
    requires vol.Valid() && Inv(vol.disk, ns, recorded) && IsFinalize(finalize)
    requires IsStage(audioStage) && IsStage(docStage) && request.OnlyOwnAudio() && Fresh(vol.disk, ns, request)
    modifies vol
    ensures vol.Valid() && Inv(vol.disk, ns, recordedAfter)
    ensures recordedAfter == if request.audio.Some? then recorded[request.audio.value.0 := request.audio.value.1] else recorded
    ensures Advances(old(vol.disk), vol.disk, ns, request)
    ensures o == Returned(Created) ==>
              NeverLost(vol.disk, ns, {request.Id()}) && exists doc :: Reads(vol.disk, ns, doc) && request.Id() in Ids(doc)
    ensures o == Returned(Replayed) ==>
              vol.disk == old(vol.disk) && request.captureId.Some? && exists doc :: Reads(vol.disk, ns, doc) && request.Id() in Ids(doc)
    // an attempt that throws can leave a new document only where a reader finds it, so that a replay answers for no other
    ensures o.Threw? ==> OnlyVisibleIsNew(old(vol.disk), vol.disk, ns)
    ensures o.Threw? && Unused(old(vol.disk), ns, request.Id()) ==> OnlyVisibleHas(vol.disk, ns, request.Id())
    // once a reader finds the capture, retrying it changes nothing
    ensures request.captureId.Some? && (exists doc :: Reads(old(vol.disk), ns, doc) && request.Id() in Ids(doc)) ==>
              vol.disk == old(vol.disk) && !o.Crashed? && o != Returned(Created)
    ensures vol.faults >= old(vol.faults)
    ensures vol.faults == old(vol.faults) && DocumentFits(old(vol.disk), ns, docStage)
            && (request.audio.Some? ==> AudioFits(old(vol.disk), ns, request.audio.value.0, audioStage)) ==>
              o.Returned? && RightAnswer(old(vol.disk), vol.disk, ns, request, finalize, o.value)
  {
    hide Inv, Unused, OnlyVisibleIsNew, OnlyVisibleHas, NeverLost, DocumentFits, AudioFits, RightAnswer, Advances, Faithful;
    hide SameDocuments, AddsDocument, Clear, IsFinalize, AudioInPlace, IsAudioName, Carries;
    hide Reads, Fresh, StartsFrom, Unmentioned, Ids, Visible, Possible, IsStage, DistinctIds;
    ghost var start := vol.disk;
    SameAsItself(start, ns);
    SameHasNothingNew(start, start, ns);
    StillAdvances(start, start, ns, request);
    if Unused(start, ns, request.Id()) { FirstAttemptIsOnlyVisible(start, start, ns, recorded, request.Id()); }
    recordedAfter := if request.audio.Some? then recorded[request.audio.value.0 := request.audio.value.1] else recorded;
    FreshAudio(start, ns, request);
    if request.audio.Some? { RecordingUnmentioned(start, ns, request.audio.value.0, request.audio.value.1, recorded); }
    var aborted := vol.Trouble();
    if aborted { return Threw, recordedAfter; }
    var loaded := LoadDocument(vol, ns, recordedAfter);
    if loaded.None? {
      NoDocumentToStartFrom(start, vol.disk, ns, request, finalize);
      return Returned(Refused(500)), recordedAfter;
    }
    var doc := loaded.value;
    FoundIffListed(start, ns, request, doc);
    if request.captureId.Some? && exists i :: 0 <= i < |doc.tasks| && doc.tasks[i].id == request.Id() {
      AnswerIsRight(start, vol.disk, ns, request, finalize, doc, Replayed);
      return Returned(Replayed), recordedAfter;
    }
    var finalized := finalize(AddTask(doc, request.Task()));
    if finalized.None? {
      AnswerIsRight(start, vol.disk, ns, request, finalize, doc, Refused(400));
      return Returned(Refused(400)), recordedAfter;
    }
    assert Faithful(AddTask(doc, request.Task()), finalized.value) by { FinalizeIsFaithful(finalize, AddTask(doc, request.Task())); }
    o := AddCapture(vol, ns, request, doc, finalized.value, audioStage, docStage, mtime, recorded, recordedAfter);
    AddedAdvances(start, vol.disk, ns, request, doc, finalized.value);
    if o == Returned(Created) { AnswerIsRight(start, vol.disk, ns, request, finalize, doc, Created); }
    if o.Threw? && Unused(start, ns, request.Id()) { FirstAttemptIsOnlyVisible(start, vol.disk, ns, recorded, request.Id()); }
  }

  lemma FreshAudio(d: Disk<Blob>, ns: string, request: Request)
    requires Fresh(d, ns, request) && request.OnlyOwnAudio()
    ensures request.audio.Some? ==> IsAudioName(request.audio.value.0) && Unmentioned(d, ns, CloudKeyOf(request.audio.value.0))
  {
  }

  /** A reader finds the capture exactly when the document to start from lists its id, and a generated id is not listed. */
  lemma FoundIffListed(d: Disk<Blob>, ns: string, request: Request, doc: Document)
    requires Fresh(d, ns, request) && StartsFrom(d, ns, doc)
    ensures request.Id() in Ids(doc) <==> exists i :: 0 <= i < |doc.tasks| && doc.tasks[i].id == request.Id()
    ensures request.Id() in Ids(doc) <==> exists x :: Reads(d, ns, x) && request.Id() in Ids(x)
    ensures request.captureId.None? ==> request.Id() !in Ids(doc)
  {
    if request.Id() in Ids(doc) {
      var o :| o in doc.tasks && o.id == request.Id();
      var i :| 0 <= i < |doc.tasks| && doc.tasks[i] == o;
      assert Reads(d, ns, doc);
    }
  }

  lemma FinalizeIsFaithful(finalize: Document -> Option<Document>, doc: Document)
    requires IsFinalize(finalize) && finalize(doc).Some?
    ensures Faithful(doc, finalize(doc).value)
  {
  }

  lemma StillAdvances(pre: Disk<Blob>, post: Disk<Blob>, ns: string, request: Request)
    requires SameDocuments(pre, post, ns)
    ensures Advances(pre, post, ns, request)
  {
  }

  lemma AddedAdvances(pre: Disk<Blob>, post: Disk<Blob>, ns: string, request: Request, base: Document, doc: Document)
    requires StartsFrom(pre, ns, base) && Faithful(AddTask(base, request.Task()), doc) && AddsDocument(pre, post, ns, doc)
    ensures Advances(pre, post, ns, request)
  {
  }

  lemma NoDocumentToStartFrom(before: Disk<Blob>, after: Disk<Blob>, ns: string, request: Request, finalize: Document -> Option<Document>)
    ensures !(exists d :: StartsFrom(before, ns, d)) ==> RightAnswer(before, after, ns, request, finalize, Refused(500))
  {
  }

  // ---- whole runs ----

  /** One arrival: the request, the two stage names it will draw, and the time. */
  datatype Arrival = Arrival(request: Request, audioStage: string, docStage: string, mtime: int)

  /** Generated ids and audio names are drawn at random: no earlier arrival and no earlier document has them. */
  ghost predicate FreshlyDrawn(d: Disk<Blob>, ns: string, arrivals: seq<Arrival>) {
    forall j :: 0 <= j < |arrivals| ==>
      && IsStage(arrivals[j].audioStage) && IsStage(arrivals[j].docStage) && arrivals[j].request.OnlyOwnAudio()
      && NewToDisk(d, ns, arrivals[j].request)
      && forall i :: 0 <= i < j ==> NewAfter(arrivals[i].request, arrivals[j].request)
  }

  ghost predicate NewToDisk(d: Disk<Blob>, ns: string, request: Request) {
    && (request.audio.Some? ==> Unmentioned(d, ns, CloudKeyOf(request.audio.value.0)))
    && (request.captureId.None? ==> Unused(d, ns, request.generatedId))
  }

  ghost predicate NewAfter(earlier: Request, later: Request) {
    && (later.audio.Some? ==> !Carries(earlier.Task(), CloudKeyOf(later.audio.value.0)))
    && (later.audio.Some? && earlier.audio.Some? ==> later.audio.value.0 != earlier.audio.value.0)
    && (later.captureId.None? ==> later.generatedId != earlier.Id())
  }

  /** No arrival draws the audio name of a capture recorded before. */
  predicate NewNames(recorded: Recordings, arrivals: seq<Arrival>) {
    forall i :: 0 <= i < |arrivals| && arrivals[i].request.audio.Some? ==> arrivals[i].request.audio.value.0 !in recorded
  }

  /** The audio of every capture so far, after these arrivals. */
  function Recorded(recorded: Recordings, arrivals: seq<Arrival>): Recordings {
    if arrivals == [] then recorded
    else RecordedBy(Recorded(recorded, arrivals[..|arrivals| - 1]), arrivals[|arrivals| - 1].request)
  }

  function RecordedBy(recorded: Recordings, request: Request): Recordings {
    if request.audio.Some? then recorded[request.audio.value.0 := request.audio.value.1] else recorded
  }

  /** Each arrival's name stands for that arrival's bytes, each earlier name for what it stood for, and there is no other. */
  lemma {:induction false} RecordedHoldsEachArrival(d: Disk<Blob>, ns: string, recorded: Recordings, arrivals: seq<Arrival>)
    requires FreshlyDrawn(d, ns, arrivals) && NewNames(recorded, arrivals)
    ensures forall name :: name in recorded ==> name in Recorded(recorded, arrivals) && Recorded(recorded, arrivals)[name] == recorded[name]
    ensures forall i :: 0 <= i < |arrivals| && arrivals[i].request.audio.Some? ==>
              && arrivals[i].request.audio.value.0 in Recorded(recorded, arrivals)
              && Recorded(recorded, arrivals)[arrivals[i].request.audio.value.0] == arrivals[i].request.audio.value.1
    ensures forall name :: name in Recorded(recorded, arrivals) ==>
              name in recorded
              || exists i :: 0 <= i < |arrivals| && arrivals[i].request.audio.Some? && arrivals[i].request.audio.value.0 == name
  {
    if arrivals != [] {
      var rest, last := arrivals[..|arrivals| - 1], arrivals[|arrivals| - 1].request;
      assert forall i :: 0 <= i < |rest| ==> rest[i] == arrivals[i] && NewAfter(arrivals[i].request, last);
      RecordedHoldsEachArrival(d, ns, recorded, rest);
    }
  }

  /** Whatever document a crash may leave, if it names the audio of this request then that audio is durable. */
  ghost predicate HasItsAudio(d: Disk<Blob>, ns: string, request: Request) {
    request.audio.Some? ==>
      forall e, doc :: Possible(d, DocPath(ns), e) && DocumentHas(d, e, doc) && Mentions(doc, CloudKeyOf(request.audio.value.0)) ==>
        DurableFile(d, AudioPath(ns, request.audio.value.0), Audio(request.audio.value.1))
  }

  lemma EachHasItsAudio(d: Disk<Blob>, start: Disk<Blob>, ns: string, recorded: Recordings, arrivals: seq<Arrival>)
    requires FreshlyDrawn(start, ns, arrivals) && NewNames(recorded, arrivals) && Inv(d, ns, Recorded(recorded, arrivals))
    ensures forall i :: 0 <= i < |arrivals| ==> HasItsAudio(d, ns, arrivals[i].request)
  {
    RecordedHoldsEachArrival(start, ns, recorded, arrivals);
    forall i | 0 <= i < |arrivals| ensures HasItsAudio(d, ns, arrivals[i].request) {
      var request := arrivals[i].request;
      if request.audio.Some? {
        forall e, doc | Possible(d, DocPath(ns), e) && DocumentHas(d, e, doc) && Mentions(doc, CloudKeyOf(request.audio.value.0))
          ensures DurableFile(d, AudioPath(ns, request.audio.value.0), Audio(request.audio.value.1))
        {
          assert SafeEntry(d, ns, Recorded(recorded, arrivals), e);
        }
      }
    }
  }

  function CreatedIds(arrivals: seq<Arrival>, responses: seq<Outcome<Response>>): set<string>
    requires |responses| <= |arrivals|
  {
    set i | 0 <= i < |responses| && responses[i] == Returned(Created) :: arrivals[i].request.Id()
  }

  /**
   Every run of captures, with a failure or a crash and restart at any step of any of them: each
   document that a crash may leave has the audio of every capture it names, no task twice, and every
   task that a 201 response acknowledged.
   */
  method Run(vol: Volume<Blob>, ns: string, arrivals: seq<Arrival>, finalize: Document -> Option<Document>, ghost recorded: Recordings)
    returns (responses: seq<Outcome<Response>>)
    requires vol.Valid() && Inv(vol.disk, ns, recorded) && IsFinalize(finalize)
    requires FreshlyDrawn(vol.disk, ns, arrivals) && NewNames(recorded, arrivals)
    modifies vol
    ensures vol.Valid() && |responses| == |arrivals|
    ensures Inv(vol.disk, ns, Recorded(recorded, arrivals)) && NeverLost(vol.disk, ns, CreatedIds(arrivals, responses))
    ensures forall i :: 0 <= i < |arrivals| ==> HasItsAudio(vol.disk, ns, arrivals[i].request)
  {
    hide Inv, NeverLost, FreshlyDrawn, NewToDisk, NewNames, CreatedIds, Advances, HasItsAudio, Reads, DocumentFits, AudioFits, RightAnswer;
    ghost var start := vol.disk;
    NoResponses(vol.disk, ns, arrivals);
    assert arrivals[0..] == arrivals;
    responses := [];
    while |responses| < |arrivals|
      invariant |responses| <= |arrivals| && vol.Valid() && Inv(vol.disk, ns, Recorded(recorded, arrivals[..|responses|]))
      invariant NeverLost(vol.disk, ns, CreatedIds(arrivals, responses))
      invariant FreshlyDrawn(vol.disk, ns, arrivals[|responses|..])
    {
      ghost var before, i, created := vol.disk, |responses|, CreatedIds(arrivals, responses);
      ghost var recordedBefore := Recorded(recorded, arrivals[..i]);
      var arrival := arrivals[|responses|];
      assert arrivals[i..][0] == arrival;
      FirstIsFresh(before, ns, arrivals[i..]);
      var response;
      ghost var recordedAfter;
      response, recordedAfter := LockedCapture(vol, ns, arrival.request, finalize, arrival.audioStage, arrival.docStage,
                                               arrival.mtime, recordedBefore);
      assert arrivals[..i + 1][..i] == arrivals[..i] && recordedAfter == Recorded(recorded, arrivals[..i + 1]);
      AdvancesKeeps(before, vol.disk, ns, recordedBefore, arrival.request);
      StillFreshlyDrawn(before, vol.disk, ns, arrivals[i..], recordedBefore);
      assert arrivals[i..][1..] == arrivals[i + 1..];
      responses := responses + [response];
      OneMoreResponse(arrivals, responses[..i], response);
      assert responses[..i] + [response] == responses;
      BothNeverLost(vol.disk, ns, created, CreatedIds(arrivals, responses), arrival.request.Id());
    }
    assert arrivals[..|arrivals|] == arrivals;
    EachHasItsAudio(vol.disk, start, ns, recorded, arrivals);
  }

  lemma OneMoreResponse(arrivals: seq<Arrival>, responses: seq<Outcome<Response>>, response: Outcome<Response>)
    requires |responses| < |arrivals|
    ensures CreatedIds(arrivals, responses + [response]) ==
            CreatedIds(arrivals, responses) + (if response == Returned(Created) then {arrivals[|responses|].request.Id()} else {})
  {
    var more := responses + [response];
    forall x ensures x in CreatedIds(arrivals, more) <==>
                     x in CreatedIds(arrivals, responses) || (response == Returned(Created) && x == arrivals[|responses|].request.Id())
    {
      if x in CreatedIds(arrivals, responses) {
        var i :| 0 <= i < |responses| && responses[i] == Returned(Created) && arrivals[i].request.Id() == x;
        assert more[i] == responses[i];
      }
      if response == Returned(Created) { assert more[|responses|] == response; }
    }
  }

  lemma BothNeverLost(d: Disk<Blob>, ns: string, ids: set<string>, more: set<string>, id: string)
    requires NeverLost(d, ns, ids)
    requires more == ids || (more == ids + {id} && NeverLost(d, ns, {id}))
    ensures NeverLost(d, ns, more)
  {
    if more != ids {
      forall e | Possible(d, DocPath(ns), e) ensures exists doc :: DocumentHas(d, e, doc) && more <= Ids(doc) {
        var x :| DocumentHas(d, e, x) && {id} <= Ids(x);
        if ids != {} {
          var y :| DocumentHas(d, e, y) && ids <= Ids(y);
          assert x == y;
        }
        assert more <= Ids(x);
      }
    }
  }

  lemma NoResponses(d: Disk<Blob>, ns: string, arrivals: seq<Arrival>)
    ensures NeverLost(d, ns, CreatedIds(arrivals, []))
  {
    assert CreatedIds(arrivals, []) == {};
  }

  lemma FirstIsFresh(d: Disk<Blob>, ns: string, arrivals: seq<Arrival>)
    requires arrivals != [] && FreshlyDrawn(d, ns, arrivals)
    ensures Fresh(d, ns, arrivals[0].request) && arrivals[0].request.OnlyOwnAudio()
    ensures IsStage(arrivals[0].audioStage) && IsStage(arrivals[0].docStage)
  {
    assert NewToDisk(d, ns, arrivals[0].request);
    assert Possible(d, DocPath(ns), Visible(d, DocPath(ns)));
  }

  lemma StillFreshlyDrawn(pre: Disk<Blob>, post: Disk<Blob>, ns: string, arrivals: seq<Arrival>, recorded: Recordings)
    requires arrivals != [] && FreshlyDrawn(pre, ns, arrivals) && Inv(pre, ns, recorded)
    requires Advances(pre, post, ns, arrivals[0].request)
    ensures FreshlyDrawn(post, ns, arrivals[1..])
  {
    AdvancesKeeps(pre, post, ns, recorded, arrivals[0].request);
    var rest := arrivals[1..];
    forall j | 0 <= j < |rest| ensures NewToDisk(post, ns, rest[j].request) {
      assert rest[j] == arrivals[j + 1] && NewAfter(arrivals[0].request, arrivals[j + 1].request);
    }
    forall j, i | 0 <= i < j < |rest| ensures NewAfter(rest[i].request, rest[j].request) {
      assert rest[j] == arrivals[j + 1] && rest[i] == arrivals[i + 1];
    }
  }

  // ---- a replay response is weaker than a creation ----

  /** No other document that a crash may leave has a task with this id. */
  ghost predicate OnlyVisibleHas(d: Disk<Blob>, ns: string, id: string) {
    forall e, doc :: Possible(d, DocPath(ns), e) && e != Visible(d, DocPath(ns)) && DocumentHas(d, e, doc) ==> id !in Ids(doc)
  }

  /**
   A replay answers for a capture that a reader finds. Where only the document that the reader finds
   has it, the capture is safe for good exactly when no failed write of that document is pending.
   */
  lemma ReplayIsDurableIffSettled(d: Disk<Blob>, ns: string, doc: Document, id: string)
    requires Reads(d, ns, doc) && id in Ids(doc) && OnlyVisibleHas(d, ns, id)
    ensures NeverLost(d, ns, {id}) <==> Settled(d, DocPath(ns))
  {
    assert {id} != {};
    if Settled(d, DocPath(ns)) {
      forall e | Possible(d, DocPath(ns), e) ensures exists x :: DocumentHas(d, e, x) && {id} <= Ids(x) {
        assert DocumentHas(d, e, doc);
      }
    }
    if NeverLost(d, ns, {id}) {
      forall e | Possible(d, DocPath(ns), e) ensures e == Visible(d, DocPath(ns)) {
        var x :| DocumentHas(d, e, x) && {id} <= Ids(x);
        assert id in {id};
      }
    }
  }

  /** That is the case after a first attempt at a capture that threw, if nothing had its id before. */
  lemma FirstAttemptIsOnlyVisible(pre: Disk<Blob>, d: Disk<Blob>, ns: string, recorded: Recordings, id: string)
    requires Inv(pre, ns, recorded) && Unused(pre, ns, id) && OnlyVisibleIsNew(pre, d, ns)
    ensures OnlyVisibleHas(d, ns, id)
  {
    forall e, doc | Possible(d, DocPath(ns), e) && e != Visible(d, DocPath(ns)) && DocumentHas(d, e, doc) ensures id !in Ids(doc) {
      SameIsKept(pre, d, ns, recorded, e, doc);
    }
  }

  /**
   The unsettled case: a replay acknowledges a capture that the next crash takes back. The first
   attempt renamed the document and failed to fsync its directory, the retry finds it and answers 200.
   */
  lemma ReplayedCaptureCanBeLost(ns: string, id: string) returns (staged: Disk<Blob>, d: Disk<Blob>, image: Disk<Blob>)
    requires Undotted(ns)
    ensures WellFormed(staged) && Visible(staged, DocPath(ns)).None? && Visible(staged, [".stage"]) == Some(File(0))
    ensures 0 in staged.inodes && staged.inodes[0].synced
    ensures Effect(Renamed(staged, [".stage"], DocPath(ns)), SyncedDir(Renamed(staged, [".stage"], DocPath(ns)), []), Failed(EIO), d)
    ensures Inv(d, ns, map[])
    ensures (exists doc :: Reads(d, ns, doc) && id in Ids(doc)) && !NeverLost(d, ns, {id})
    ensures CrashImage(d, image) && Visible(image, DocPath(ns)).None?
  {
    var task := Docs.Owner(id, false, []);
    var doc := Document([task], []);
    var stage := [".stage"];
    AudioPathsDiffer(ns, "", ".stage");
    staged := Disk(map[stage := File(0)], {}, map[0 := Inode(Json(doc), true, 0)]);
    d := Renamed(staged, stage, DocPath(ns));
    assert Visible(d, DocPath(ns)) == Some(File(0));
    assert task in doc.tasks;
    assert Reads(d, ns, doc) && id in Ids(doc);
    image := Disk(map[], {}, map[0 := Inode(Json(doc), true, 0)]);
    assert (DocPath(ns), None) in d.unsettled && Possible(d, DocPath(ns), None);
    ReplayIsDurableIffSettled(d, ns, doc, id);
    assert forall p :: p in d.entries.Keys + image.entries.Keys ==> p == DocPath(ns);
  }
}
