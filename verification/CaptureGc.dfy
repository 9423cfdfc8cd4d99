/** Orphan collection next to voice capture: when a pass may not take a capture's audio, and when it may. */
module CaptureGc {
  import opened Wrappers
  import opened Volumes
  import opened SystemCalls
  import opened Publication
  import opened Removal
  import opened Capture
  import Gc = AttachmentGc
  import Docs = Attachments
  import Keys = AttachmentKeys

  ghost function PassOver(ns: string, doc: Document, now: int): Gc.Pass {
    Gc.PassFor(AudioRoot(ns), doc.tasks, doc.projects, now)
  }

  /** The pass leaves this capture's audio alone: the document it was given keeps the name, or the file is young. */
  ghost predicate LeavesAudio(d: Disk<Blob>, ns: string, doc: Document, now: int, name: string) {
    || name in Keys.KeepSet(Docs.LiveKeys(doc.tasks + doc.projects))
    || exists ino: nat :: Visible(d, AudioPath(ns, name)) == Some(File(ino)) && ino in d.inodes
                          && d.inodes[ino].mtime > now - Gc.ORPHAN_ATTACHMENT_GC_GRACE_MS
  }

  /** ... and so for every capture named by a document that a crash may leave. */
  ghost predicate LeavesAllAudio(d: Disk<Blob>, ns: string, recorded: Recordings, doc: Document, now: int) {
    forall e, x, name :: Possible(d, DocPath(ns), e) && DocumentHas(d, e, x) && name in recorded && Mentions(x, CloudKeyOf(name)) ==>
      LeavesAudio(d, ns, doc, now, name)
  }

  /** A recorded audio file in place is doomed exactly when the pass does not leave it alone. */
  lemma LeavesWhatIsNotDoomed(d: Disk<Blob>, ns: string, doc: Document, now: int, name: string, bytes: seq<nat>)
    requires IsAudioName(name) && DurableFile(d, AudioPath(ns, name), Audio(bytes))
    ensures LeavesAudio(d, ns, doc, now, name) <==> !Gc.Doomed(d, PassOver(ns, doc, now), AudioPath(ns, name))
    ensures LeavesAudio(d, ns, doc, now, name) ==> AudioPath(ns, name) !in Gc.Removable(d, PassOver(ns, doc, now))
    ensures Visible(d, AudioPath(ns, name)).Some? && Visible(d, AudioPath(ns, name)).value.File?
    ensures Reachable(d, AudioRoot(ns))
  {
    var p := AudioPath(ns, name);
    Keys.CapturedKeyLinesUp(name);
    Keys.StoredFileHasItsKey(Keys.WithoutPrefix(CloudKeyOf(name)), name);
    assert p[|AudioRoot(ns)|..] == [name] == Keys.Segments(name) && Parent(p) == AudioRoot(ns);
    DurableIsReachable(d, AudioRoot(ns));
  }

  /** Such a pass keeps the capture invariant, however it ends. */
  lemma CollectionKeepsCaptures(pre: Disk<Blob>, post: Disk<Blob>, ns: string, recorded: Recordings, doc: Document, now: int)
    requires Inv(pre, ns, recorded) && LeavesAllAudio(pre, ns, recorded, doc, now)
    requires Gc.SafelySwept(pre, post, PassOver(ns, doc, now), AudioRoot(ns))
    ensures Inv(post, ns, recorded) && SameDocuments(pre, post, ns)
  {
    var hole := Gc.Removable(pre, PassOver(ns, doc, now));
    forall name | AudioPath(ns, name) in hole && name in recorded ensures Unmentioned(pre, ns, CloudKeyOf(name)) {
      forall e, x | Possible(pre, DocPath(ns), e) && DocumentHas(pre, e, x) ensures !Mentions(x, CloudKeyOf(name)) {
        if Mentions(x, CloudKeyOf(name)) {
          NamedAudioIsInPlace(pre, ns, recorded, e, x, name);
          LeavesWhatIsNotDoomed(pre, ns, doc, now, name, recorded[name]);
          assert false;
        }
      }
    }
    AudioPathsDiffer(ns, "", ".");
    assert |DocPath(ns)| < |AudioRoot(ns)|;
    InvKept(pre, post, ns, recorded, hole);
  }

  lemma NamedAudioIsInPlace(d: Disk<Blob>, ns: string, recorded: Recordings, e: Option<Entry>, x: Document, name: string)
    requires Inv(d, ns, recorded) && Possible(d, DocPath(ns), e) && DocumentHas(d, e, x)
    requires name in recorded && Mentions(x, CloudKeyOf(name))
    ensures IsAudioName(name) && DurableFile(d, AudioPath(ns, name), Audio(recorded[name]))
  {
    assert SafeEntry(d, ns, recorded, e);
  }

  /** A finished pass keeps the capture invariant exactly when it had to leave that audio alone. */
  lemma CleanCollectionKeepsCapturesIff(pre: Disk<Blob>, post: Disk<Blob>, ns: string, recorded: Recordings, doc: Document, now: int)
    requires Inv(pre, ns, recorded)
    requires Gc.Swept(pre, post, PassOver(ns, doc, now), AudioRoot(ns)) && Gc.Clean(post, PassOver(ns, doc, now), AudioRoot(ns))
    ensures Inv(post, ns, recorded) <==> LeavesAllAudio(pre, ns, recorded, doc, now)
  {
    hide Inv, Gc.SafelySwept, Gc.Clean, Gc.Doomed, Gc.Removable, DurableFile, Reachable, Possible, DocumentHas, LeavesAudio, Mentions;
    hide IsAudioName, CloudKeyOf;
    if LeavesAllAudio(pre, ns, recorded, doc, now) {
      CollectionKeepsCaptures(pre, post, ns, recorded, doc, now);
    } else {
      var e, x, name :| Possible(pre, DocPath(ns), e) && DocumentHas(pre, e, x) && name in recorded && Mentions(x, CloudKeyOf(name))
                        && !LeavesAudio(pre, ns, doc, now, name);
      NamedAudioIsInPlace(pre, ns, recorded, e, x, name);
      LeavesWhatIsNotDoomed(pre, ns, doc, now, name, recorded[name]);
      DoomedAudioIsGone(pre, post, PassOver(ns, doc, now), AudioPath(ns, name));
      DocumentStays(pre, post, ns, doc, now, e, x);
      MissingAudioBreaks(post, ns, recorded, e, x, name);
    }
  }

  /** A pass leaves the documents that a crash may show as they were. */
  lemma DocumentStays(pre: Disk<Blob>, post: Disk<Blob>, ns: string, doc: Document, now: int, e: Option<Entry>, x: Document)
    requires Gc.Swept(pre, post, PassOver(ns, doc, now), AudioRoot(ns))
    requires Possible(pre, DocPath(ns), e) && DocumentHas(pre, e, x)
    ensures Possible(post, DocPath(ns), e) && DocumentHas(post, e, x)
  {
    assert |DocPath(ns)| < |AudioRoot(ns)|;
  }

  lemma MissingAudioBreaks(d: Disk<Blob>, ns: string, recorded: Recordings, e: Option<Entry>, x: Document, name: string)
    requires Possible(d, DocPath(ns), e) && DocumentHas(d, e, x) && name in recorded && Mentions(x, CloudKeyOf(name))
    requires AudioPath(ns, name) !in d.entries
    ensures !Inv(d, ns, recorded)
  {
    assert Inv(d, ns, recorded) ==> SafeEntry(d, ns, recorded, e);
  }

  lemma DoomedAudioIsGone(pre: Disk<Blob>, post: Disk<Blob>, pass: Gc.Pass, p: Path)
    requires Gc.Swept(pre, post, pass, pass.root) && Gc.Clean(post, pass, pass.root)
    requires Gc.Doomed(pre, pass, p) && Reachable(pre, Parent(p))
    ensures p !in post.entries
  {
    assert p !in Gc.DoomedFiles(post, pass, pass.root);
  }

  /** With no failed document write pending, the pass's own document decides. */
  lemma SettledDocumentIsEnough(d: Disk<Blob>, ns: string, recorded: Recordings, doc: Document, now: int)
    requires Inv(d, ns, recorded) && Reads(d, ns, doc) && Settled(d, DocPath(ns))
    requires forall name :: name in recorded && Mentions(doc, CloudKeyOf(name)) ==> CloudKeyOf(name) in Docs.LiveKeys(doc.tasks + doc.projects)
    ensures LeavesAllAudio(d, ns, recorded, doc, now)
  {
    forall e, x, name | Possible(d, DocPath(ns), e) && DocumentHas(d, e, x) && name in recorded && Mentions(x, CloudKeyOf(name))
      ensures LeavesAudio(d, ns, doc, now, name)
    {
      LiveAudioIsKept(doc, name);
    }
  }

  lemma LiveAudioIsKept(doc: Document, name: string)
    requires IsAudioName(name) && CloudKeyOf(name) in Docs.LiveKeys(doc.tasks + doc.projects)
    ensures name in Keys.KeepSet(Docs.LiveKeys(doc.tasks + doc.projects))
  {
    Keys.CapturedKeyLinesUp(name);
    Keys.StoredKeyIsKeptIffKeyNormalizes(CloudKeyOf(name), name);
    assert Keys.KeepSet({CloudKeyOf(name)}) <= Keys.KeepSet(Docs.LiveKeys(doc.tasks + doc.projects));
  }

  /**
   With one pending, a pass can take the audio of a capture that the document a crash brings back
   still names: the visible document has dropped the capture, the old one is what the medium holds.
   */
  lemma CollectionCanOutrunTheDocument(ns: string, name: string, now: int)
    returns (pre: Disk<Blob>, post: Disk<Blob>, recorded: Recordings, doc: Document)
    requires Undotted(ns) && IsAudioName(name)
    ensures Inv(pre, ns, recorded) && Reads(pre, ns, doc) && !Settled(pre, DocPath(ns))
    ensures Gc.Swept(pre, post, PassOver(ns, doc, now), AudioRoot(ns))
    ensures !Inv(post, ns, recorded) && !LeavesAllAudio(pre, ns, recorded, doc, now)
  {
    doc := EMPTY;
    recorded := map[name := []];
    pre := PendingWrite(ns, name, now);
    var audio := AudioPath(ns, name);
    var pass := PassOver(ns, doc, now);
    AudioIsServedWhereItIsStored(ns, name);
    PendingWriteIsSafe(ns, name, now);
    OrphanedAudioIsDoomed(ns, name, now);
    var removed := SetEntry(pre, audio, None);
    RemoveStep(pre, removed, Done, audio);
    Gc.RemovedFile(pre, removed, pass, audio, true);
    post := SyncedDir(removed, AudioRoot(ns));
    Gc.SyncedStep(pre, removed, post, Done, pass, AudioRoot(ns));
    var named := Naming(name);
    assert Possible(post, DocPath(ns), Some(File(0))) by {
      AudioPathsDiffer(ns, name, ".");
      assert Parent(DocPath(ns)) == [] != AudioRoot(ns);
    }
    assert DocumentHas(post, Some(File(0)), named);
    assert Mentions(named, CloudKeyOf(name)) by { NamingMentions(name); }
    assert Visible(post, audio).None?;
    if LeavesAllAudio(pre, ns, recorded, doc, now) { CollectionKeepsCaptures(pre, post, ns, recorded, doc, now); }
  }

  function Naming(name: string): Document {
    Document([Docs.Owner("t", false, [Docs.Attachment(true, false, CloudKeyOf(name))])], [])
  }

  lemma NamingMentions(name: string)
    ensures forall k :: Mentions(Naming(name), k) <==> k == CloudKeyOf(name)
  {
    var doc := Naming(name);
    assert doc.tasks[0].attachments[0].cloudKey == CloudKeyOf(name);
  }

  /** The document that names the capture is durable, a document without it is visible and unsettled. */
  function PendingWrite(ns: string, name: string, now: int): Disk<Blob> {
    var past := now - Gc.ORPHAN_ATTACHMENT_GC_GRACE_MS;
    Disk(map[[ns] := Directory, AudioRoot(ns) := Directory, AudioPath(ns, name) := File(2), DocPath(ns) := File(1)],
         {(DocPath(ns), Some(File(0)))},
         map[0 := Inode(Json(Naming(name)), true, past), 1 := Inode(Json(EMPTY), true, past), 2 := Inode(Audio([]), true, past)])
  }

  lemma PendingWriteIsSafe(ns: string, name: string, now: int)
    requires Undotted(ns) && IsAudioName(name)
    ensures Inv(PendingWrite(ns, name, now), ns, map[name := []]) && Reads(PendingWrite(ns, name, now), ns, EMPTY)
    ensures !Settled(PendingWrite(ns, name, now), DocPath(ns))
  {
    var d := PendingWrite(ns, name, now);
    AudioPathsDiffer(ns, name, ".");
    assert Parent(AudioPath(ns, name)) == AudioRoot(ns) && Parent(AudioRoot(ns)) == [ns] && Parent([ns]) == [];
    assert [ns] != DocPath(ns) by { assert DocPath(ns)[0] == ns + ".json"; assert |ns + ".json"| == |ns| + 5; }
    assert DurableDir(d, [ns]) && DurableDir(d, AudioRoot(ns));
    assert DurableAt(d, AudioPath(ns, name), File(2)) && HoldsSynced(d, 2, Audio([]));
    NamingMentions(name);
    assert Possible(d, DocPath(ns), Some(File(0)));
  }

  lemma OrphanedAudioIsDoomed(ns: string, name: string, now: int)
    requires Undotted(ns) && IsAudioName(name)
    ensures Gc.Doomed(PendingWrite(ns, name, now), PassOver(ns, EMPTY, now), AudioPath(ns, name))
  {
    var p := AudioPath(ns, name);
    Keys.CapturedKeyLinesUp(name);
    Keys.StoredFileHasItsKey(Keys.WithoutPrefix(CloudKeyOf(name)), name);
    assert p[|AudioRoot(ns)|..] == [name] == Keys.Segments(name);
    AudioPathsDiffer(ns, name, ".");
    assert [ns] != p && AudioRoot(ns) != p;
    assert Docs.LiveKeys([]) == {};
  }
}
