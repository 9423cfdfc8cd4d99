/**
 A data volume with a visible layer and a durable one.

 A directory entry that changed since the last fsync of its directory may still be
 found, after a crash, with any value it has had since that fsync. File bytes that were
 not fsynced may be found with any content at all. Every system call may succeed, fail
 (with or without its effect), or be the last thing that happens before a crash.
 */
module Volumes {
  import opened Wrappers

  /** A path below the volume root, one name per element; the root is []. */
  type Path = seq<string>

  datatype Entry = Directory | File(ino: nat)

  datatype Inode<+C> = Inode(content: C, synced: bool, mtime: int)

  datatype Disk<+C> = Disk(
    entries: map<Path, Entry>,
    unsettled: set<(Path, Option<Entry>)>,  // values that the medium may still hold
    inodes: map<nat, Inode<C>>)

  datatype Errno = ENOENT | EEXIST | ENOTEMPTY | EIO

  datatype Io = Done | Failed(code: Errno) | Crash

  function Parent(p: Path): Path
    requires p != []
  {
    p[..|p| - 1]
  }

  function Visible<C>(d: Disk<C>, p: Path): Option<Entry> {
    if p in d.entries then Some(d.entries[p]) else None
  }

  /** The values a crash right now could leave at p. */
  predicate Possible<C>(d: Disk<C>, p: Path, e: Option<Entry>) {
    e == Visible(d, p) || (p, e) in d.unsettled
  }

  ghost predicate Settled<C>(d: Disk<C>, p: Path) {
    forall e :: Possible(d, p, e) ==> e == Visible(d, p)
  }

  /** Every directory from the root down to p exists. */
  predicate Reachable<C>(d: Disk<C>, p: Path)
    decreases |p|
  {
    p == [] || (Visible(d, p) == Some(Directory) && Reachable(d, Parent(p)))
  }

  /** Every directory from the root down to p exists and will survive every crash. */
  ghost predicate DurableDir<C>(d: Disk<C>, p: Path)
    decreases |p|
  {
    p == [] || (Visible(d, p) == Some(Directory) && Settled(d, p) && DurableDir(d, Parent(p)))
  }

  /** Every later crash finds p, and finds it holding e. */
  ghost predicate DurableAt<C>(d: Disk<C>, p: Path, e: Entry) {
    p != [] && Visible(d, p) == Some(e) && Settled(d, p) && DurableDir(d, Parent(p))
  }

  /** Every later crash finds a file at p with exactly these bytes. */
  ghost predicate DurableFile<C>(d: Disk<C>, p: Path, content: C) {
    exists ino: nat :: DurableAt(d, p, File(ino)) && HoldsSynced(d, ino, content)
  }

  ghost predicate HoldsSynced<C>(d: Disk<C>, ino: nat, content: C) {
    ino in d.inodes && d.inodes[ino].synced && d.inodes[ino].content == content
  }

  /** What a crash right now could make a reader of p find: nothing, or some bytes. */
  ghost predicate PossibleContent<C>(d: Disk<C>, p: Path, found: Option<C>) {
    || (found.None? && Possible(d, p, None))
    || (found.Some? && exists ino: nat ::
          Possible(d, p, Some(File(ino))) && ino in d.inodes
          && (d.inodes[ino].synced ==> d.inodes[ino].content == found.value))
  }

  /** Entries, visible or possible, name inodes that exist. */
  ghost predicate WellFormed<C>(d: Disk<C>) {
    && [] !in d.entries
    && forall p, ino: nat :: Possible(d, p, Some(File(ino))) ==> ino in d.inodes
  }

  // ---- effects of the system calls ----

  function SetEntry<C>(d: Disk<C>, p: Path, e: Option<Entry>): Disk<C> {
    d.(entries := if e.Some? then d.entries[p := e.value] else d.entries - {p},
       unsettled := d.unsettled + {(p, Visible(d, p))})
  }

  function SyncedDir<C>(d: Disk<C>, dir: Path): Disk<C> {
    d.(unsettled := set u | u in d.unsettled && !(u.0 != [] && Parent(u.0) == dir))
  }

  function Renamed<C>(d: Disk<C>, source: Path, destination: Path): Disk<C>
    requires source in d.entries
  {
    SetEntry(SetEntry(d, destination, Some(d.entries[source])), source, None)
  }

  /** A new directory is empty: names left behind by a directory that a crash dropped are gone. */
  function WithDirectory<C>(d: Disk<C>, p: Path): Disk<C> {
    d.(entries := (map q | q in d.entries && !(p < q) :: d.entries[q])[p := Directory],
       unsettled := d.unsettled + {(p, Visible(d, p))}
                    + (set q | q in d.entries && p < q :: (q, Some(d.entries[q]))))
  }

  function WithInode<C>(d: Disk<C>, ino: nat, inode: Inode<C>): Disk<C> {
    d.(inodes := d.inodes[ino := inode])
  }

  /** The states a crash in d can leave behind. */
  predicate CrashImage<C(==)>(d: Disk<C>, image: Disk<C>) {
    && image.unsettled == {}
    && (forall p {:trigger Visible(image, p)} ::
          p in d.entries.Keys + image.entries.Keys ==> Possible(d, p, Visible(image, p)))
    && image.inodes.Keys == d.inodes.Keys
    && (forall i :: i in d.inodes ==>
          image.inodes[i].synced && image.inodes[i].mtime == d.inodes[i].mtime
          && (d.inodes[i].synced ==> image.inodes[i].content == d.inodes[i].content))
  }

  /** A call whose full effect turns pre into full: done, failed before or after it, or cut by a crash. */
  ghost predicate Effect<C>(pre: Disk<C>, full: Disk<C>, io: Io, post: Disk<C>) {
    match io
    case Done => post == full
    case Failed(_) => post == pre || post == full
    case Crash => CrashImage(pre, post) || CrashImage(full, post)
  }

  // ---- what survives ----

  /**
   Everything durable before is durable after, except at the paths in `hole`; synced bytes
   are never rewritten.
   */
  ghost predicate Keeps<C>(pre: Disk<C>, post: Disk<C>, hole: set<Path>) {
    && (forall i :: i in pre.inodes ==>
          i in post.inodes && (pre.inodes[i].synced ==> post.inodes[i] == pre.inodes[i]))
    && (forall p, e {:trigger DurableAt(pre, p, e)} ::
          p !in hole && DurableAt(pre, p, e) ==> DurableAt(post, p, e))
  }

  /** The only value that a crash may newly find at p is e. */
  ghost predicate OnlyAdds<C>(pre: Disk<C>, post: Disk<C>, p: Path, e: Option<Entry>) {
    forall x :: Possible(post, p, x) ==> Possible(pre, p, x) || x == e
  }

  lemma KeepsIsTransitive<C>(a: Disk<C>, b: Disk<C>, c: Disk<C>, holeAB: set<Path>, holeBC: set<Path>)
    requires Keeps(a, b, holeAB) && Keeps(b, c, holeBC)
    ensures Keeps(a, c, holeAB + holeBC)
  {
    forall p, e | p !in holeAB + holeBC && DurableAt(a, p, e)
      ensures DurableAt(c, p, e)
    {
      assert DurableAt(b, p, e);
    }
  }

  lemma KeepsDurableDir<C>(pre: Disk<C>, post: Disk<C>, hole: set<Path>, dir: Path)
    requires Keeps(pre, post, hole) && DurableDir(pre, dir) && dir !in hole
    ensures DurableDir(post, dir)
  {
    if dir != [] {
      assert DurableAt(pre, dir, Directory);
    }
  }

  lemma {:induction false} DurableDirFrame<C>(pre: Disk<C>, post: Disk<C>, dir: Path)
    requires DurableDir(pre, dir)
    requires forall q :: q != [] && q <= dir ==> Visible(post, q) == Visible(pre, q)
    requires forall q, e :: q != [] && q <= dir && Possible(post, q, e) ==> Possible(pre, q, e)
    ensures DurableDir(post, dir)
    decreases |dir|
  {
    if dir != [] {
      DurableDirFrame(pre, post, Parent(dir));
    }
  }

  /** A durable directory is durable all the way up, and so are its ancestors. */
  lemma {:induction false} DurableAncestors<C>(d: Disk<C>, dir: Path, q: Path)
    requires DurableDir(d, dir) && q <= dir
    ensures DurableDir(d, q)
    ensures q != [] ==> Visible(d, q) == Some(Directory) && Settled(d, q)
    decreases |dir|
  {
    if q != dir {
      DurableAncestors(d, Parent(dir), q);
    }
  }

  lemma {:induction false} DurableIsReachable<C>(d: Disk<C>, dir: Path)
    requires DurableDir(d, dir)
    ensures Reachable(d, dir)
    decreases |dir|
  {
    if dir != [] {
      DurableIsReachable(d, Parent(dir));
    }
  }

  /** Changing what a path that is not a durable directory holds keeps everything durable elsewhere. */
  lemma SetEntryKeeps<C>(d: Disk<C>, p: Path, e: Option<Entry>)
    requires p != [] && !DurableDir(d, p)
    ensures Keeps(d, SetEntry(d, p, e), {p})
  {
    var post := SetEntry(d, p, e);
    forall q, x | q != p && DurableAt(d, q, x)
      ensures DurableAt(post, q, x)
    {
      if p <= Parent(q) {
        DurableAncestors(d, Parent(q), p);
      }
      DurableDirFrame(d, post, Parent(q));
      assert forall y :: Possible(post, q, y) ==> Possible(d, q, y);
    }
  }

  lemma SyncKeeps<C>(d: Disk<C>, dir: Path)
    ensures Keeps(d, SyncedDir(d, dir), {})
  {
    var post := SyncedDir(d, dir);
    forall q, x | DurableAt(d, q, x)
      ensures DurableAt(post, q, x)
    {
      DurableDirFrame(d, post, Parent(q));
      assert forall y :: Possible(post, q, y) ==> Possible(d, q, y);
    }
  }

  lemma SyncSettles<C>(d: Disk<C>, p: Path)
    requires p != []
    ensures Settled(SyncedDir(d, Parent(p)), p)
    ensures forall q, e :: Possible(SyncedDir(d, Parent(p)), q, e) ==> Possible(d, q, e)
    ensures DurableDir(d, Parent(p)) && p in d.entries ==> DurableAt(SyncedDir(d, Parent(p)), p, d.entries[p])
  {
    if DurableDir(d, Parent(p)) {
      DurableDirFrame(d, SyncedDir(d, Parent(p)), Parent(p));
    }
  }

  lemma WithDirectoryKeeps<C>(d: Disk<C>, p: Path)
    requires p != [] && Visible(d, p).None?
    ensures Keeps(d, WithDirectory(d, p), {})
  {
    var post := WithDirectory(d, p);
    forall q, x | DurableAt(d, q, x)
      ensures DurableAt(post, q, x)
    {
      if p <= q {
        if p != q {
          DurableAncestors(d, Parent(q), p);
        }
        assert false;
      }
      DurableDirFrame(d, post, Parent(q));
      assert forall y :: Possible(post, q, y) ==> Possible(d, q, y);
    }
  }

  lemma CrashKeeps<C>(d: Disk<C>, image: Disk<C>)
    requires CrashImage(d, image)
    ensures Keeps(d, image, {})
    ensures forall p, e :: Possible(image, p, e) ==> Possible(d, p, e)
  {
    assert forall p, e :: Possible(image, p, e) ==> e == Visible(image, p);
    forall q, x | DurableAt(d, q, x)
      ensures DurableAt(image, q, x)
    {
      forall r | r != [] && r <= Parent(q)
        ensures Visible(image, r) == Visible(d, r)
      {
        DurableAncestors(d, Parent(q), r);
        assert Possible(d, r, Visible(image, r));
      }
      DurableDirFrame(d, image, Parent(q));
      assert Possible(d, q, Visible(image, q));
    }
  }

  lemma InodeKeeps<C>(d: Disk<C>, ino: nat, inode: Inode<C>)
    requires ino in d.inodes ==> !d.inodes[ino].synced
    ensures Keeps(d, WithInode(d, ino, inode), {})
    ensures forall p, e :: Possible(WithInode(d, ino, inode), p, e) <==> Possible(d, p, e)
  {
    var post := WithInode(d, ino, inode);
    forall q, x | DurableAt(d, q, x)
      ensures DurableAt(post, q, x)
    {
      DurableDirFrame(d, post, Parent(q));
      assert forall y :: Possible(post, q, y) ==> Possible(d, q, y);
    }
  }

  /** Whatever way a call ends, it does no more than its full effect and one crash. */
  lemma EffectKeeps<C>(pre: Disk<C>, full: Disk<C>, io: Io, post: Disk<C>, hole: set<Path>)
    requires Effect(pre, full, io, post) && Keeps(pre, full, hole)
    ensures Keeps(pre, post, hole)
    ensures forall p, e :: Possible(post, p, e) ==> Possible(pre, p, e) || Possible(full, p, e)
  {
    if io.Crash? {
      if CrashImage(full, post) {
        CrashKeeps(full, post);
        KeepsIsTransitive(pre, full, post, hole, {});
        assert hole + {} == hole;
      } else {
        CrashKeeps(pre, post);
      }
    }
  }

  /** A crash exists in every state: losing nothing is one of the ways to crash. */
  function Rebooted<C>(d: Disk<C>): Disk<C> {
    d.(unsettled := {}, inodes := map i | i in d.inodes :: d.inodes[i].(synced := true))
  }

  lemma RebootIsCrash<C>(d: Disk<C>)
    ensures CrashImage(d, Rebooted(d))
  {
  }

  // ---- the definitions above say what a crash does ----

  function Read<C>(d: Disk<C>, p: Path): Option<C> {
    match Visible(d, p)
    case Some(File(ino)) => if ino in d.inodes then Some(d.inodes[ino].content) else None
    case _ => None
  }

  /** A file is durable exactly when its directory is and every crash leaves a reader those bytes. */
  lemma DurableFileIffEveryCrashKeepsIt<C>(d: Disk<C>, p: Path, ino: nat, content: C, other: C)
    requires p != [] && WellFormed(d) && DurableDir(d, Parent(p)) && other != content
    ensures DurableAt(d, p, File(ino)) && HoldsSynced(d, ino, content)
        <==> (forall image :: CrashImage(d, image) ==> Visible(image, p) == Some(File(ino)) && Read(image, p) == Some(content))
  {
    if DurableAt(d, p, File(ino)) && HoldsSynced(d, ino, content) {
      forall image | CrashImage(d, image)
        ensures Visible(image, p) == Some(File(ino)) && Read(image, p) == Some(content)
      {
        assert Possible(d, p, Visible(image, p));
      }
    } else if (forall image :: CrashImage(d, image) ==> Visible(image, p) == Some(File(ino)) && Read(image, p) == Some(content)) {
      RebootIsCrash(d);
      assert Visible(Rebooted(d), p) == Visible(d, p) == Some(File(ino));
      assert Possible(d, p, Some(File(ino)));
      if e :| Possible(d, p, e) && e != Visible(d, p) {
        var image := CrashInto(d, p, e);
        assert Visible(image, p) == e;
      } else if !d.inodes[ino].synced {
        var base := Rebooted(d);
        var image := base.(inodes := base.inodes[ino := base.inodes[ino].(content := other)]);
        assert forall q :: Visible(image, q) == Visible(d, q);
        assert CrashImage(d, image);
      }
    }
  }

  /** Each possible value at p is what some crash leaves there. */
  lemma CrashInto<C>(d: Disk<C>, p: Path, e: Option<Entry>) returns (image: Disk<C>)
    requires Possible(d, p, e)
    ensures CrashImage(d, image) && Visible(image, p) == e
  {
    var base := Rebooted(d);
    image := base.(entries := if e.Some? then base.entries[p := e.value] else base.entries - {p});
    assert forall q :: q != p ==> Visible(image, q) == Visible(d, q);
  }
}
