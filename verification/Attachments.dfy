/** Which attachment keys a document references, and what a project purge hands over for deletion (server-attachments.ts). */
module Attachments {
  import opened Wrappers
  import opened JsMaps
  import Keys = AttachmentKeys

  datatype Attachment = Attachment(isFile: bool, deleted: bool, cloudKey: string)

  /** A task or a project. */
  datatype Owner = Owner(id: string, purged: bool, attachments: seq<Attachment>)

  function CloudKey(a: Attachment): Option<string> {
    if !a.isFile || a.cloudKey == "" then None else Keys.Normalize(a.cloudKey)
  }

  // ---- references ----

  predicate Names(o: Owner, a: Attachment) { !o.purged && a in o.attachments && a.isFile && !a.deleted && a.cloudKey != "" }

  /** The keys that live attachments of live owners carry, as written. */
  function LiveKeys(owners: seq<Owner>): set<string> {
    set o, a | o in owners && a in o.attachments && Names(o, a) :: a.cloudKey
  }

  function Normalized(keys: set<string>): set<string> {
    set c | c in keys && Keys.Normalize(c).Some? :: Keys.Normalize(c).value
  }

  lemma LiveKeysOfMore(owners: seq<Owner>, o: Owner)
    ensures LiveKeys(owners + [o]) == LiveKeys(owners) + LiveKeys([o])
  {
    assert forall x :: x in owners + [o] <==> x in owners || x == o;
    assert forall x :: x in [o] <==> x == o;
  }

  method CollectOwner(o: Owner, referenced0: set<string>) returns (referenced: set<string>)
    ensures referenced == referenced0 + Normalized(LiveKeys([o]))
  {
    hide Keys.Normalize;
    referenced := referenced0;
    if o.purged {
      assert LiveKeys([o]) == {};
      return;
    }
    for i := 0 to |o.attachments|
      invariant referenced == referenced0 + Normalized(LiveKeys([o.(attachments := o.attachments[..i])]))
    {
      var a := o.attachments[i];
      ghost var before, after := o.(attachments := o.attachments[..i]), o.(attachments := o.attachments[..i + 1]);
      OneAttachment(before, after, a);
      if !a.isFile || a.deleted || a.cloudKey == "" { continue; }
      var normalized := Keys.Normalize(a.cloudKey);
      if normalized.Some? { referenced := referenced + {normalized.value}; }
    }
    assert o.attachments[..|o.attachments|] == o.attachments;
  }

  lemma OneAttachment(before: Owner, after: Owner, a: Attachment)
    requires after == before.(attachments := before.attachments + [a])
    ensures LiveKeys([after]) == LiveKeys([before]) + (if Names(after, a) then {a.cloudKey} else {})
  {
    forall c ensures c in LiveKeys([after]) <==> c in LiveKeys([before]) || (Names(after, a) && c == a.cloudKey) {
      if c in LiveKeys([before]) {
        var o, x :| o in [before] && x in o.attachments && Names(o, x) && c == x.cloudKey;
        assert after in [after] && x in after.attachments && Names(after, x);
      }
      if Names(after, a) { assert after in [after] && a in after.attachments; }
      if c in LiveKeys([after]) {
        var o, x :| o in [after] && x in o.attachments && Names(o, x) && c == x.cloudKey;
        assert x != a ==> before in [before] && x in before.attachments && Names(before, x);
      }
    }
  }

  /** collectReferencedAttachmentCloudKeys: tasks first, then projects. */
  method CollectReferenced(tasks: seq<Owner>, projects: seq<Owner>) returns (referenced: set<string>)
    ensures referenced == Normalized(LiveKeys(tasks + projects))
  {
    var owners := tasks + projects;
    referenced := {};
    assert LiveKeys(owners[..0]) == {};
    for i := 0 to |owners|
      invariant referenced == Normalized(LiveKeys(owners[..i]))
    {
      assert owners[..i + 1] == owners[..i] + [owners[i]];
      LiveKeysOfMore(owners[..i], owners[i]);
      referenced := CollectOwner(owners[i], referenced);
    }
    assert owners[..|owners|] == owners;
  }

  function KeptForAll(keys: set<string>): set<string> {
    set k, p | k in keys && p in Keys.KeptFor(k) :: p
  }

  lemma KeptForOneMore(keys: set<string>, k: string)
    ensures KeptForAll(keys + {k}) == KeptForAll(keys) + Keys.KeptFor(k)
  {
  }

  /** The root-relative paths that the collector keeps for what a document references. */
  method CollectKept(tasks: seq<Owner>, projects: seq<Owner>) returns (keep: set<string>)
    ensures keep == Keys.KeepSet(LiveKeys(tasks + projects))
  {
    var referenced := CollectReferenced(tasks, projects);
    keep := {};
    ghost var all := referenced;
    ghost var done: set<string> := {};
    while referenced != {}
      invariant done + referenced == all && done !! referenced
      invariant keep == KeptForAll(done)
      decreases referenced
    {
      var cloudKey :| cloudKey in referenced;
      referenced := referenced - {cloudKey};
      KeptForOneMore(done, cloudKey);
      done := done + {cloudKey};
      var canonical := Keys.Normalize(Keys.WithoutPrefix(cloudKey));
      if canonical.None? { continue; }
      keep := keep + {canonical.value};
      if Keys.WithoutPrefix(cloudKey) != cloudKey { keep := keep + {cloudKey}; }
    }
    assert done == all;
  }
}
