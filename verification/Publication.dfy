/**
 Staged publication of a file (server-storage.ts): create directories durably, write and
 fsync a stage, rename it over the destination, fsync the parent.
 */
module Publication {
  import opened Wrappers
  import opened Volumes
  import opened SystemCalls

  /** p lies at or below the first directory on the way from root to target. */
  predicate BelowFirstStep(root: Path, target: Path, p: Path) {
    root < target && target[..|root| + 1] <= p
  }

  /** Nothing changed outside the subtree that a walk from root to target may create. */
  ghost predicate OnlyCreates<C>(pre: Disk<C>, post: Disk<C>, root: Path, target: Path) {
    && (forall p, e :: !BelowFirstStep(root, target, p) && Possible(post, p, e) ==> Possible(pre, p, e))
    && (forall p, ino: nat :: Possible(post, p, Some(File(ino))) ==> Possible(pre, p, Some(File(ino))))
  }

  /** One step of the walk: Returned(None) goes on below p, Returned(Some(b)) ends the walk with b. */
  method EnsureSegment<C(0,==)>(vol: Volume<C>, p: Path, create: bool) returns (o: Outcome<Option<bool>>)
    requires vol.Valid() && p != []
    modifies vol`disk, vol`faults
    ensures vol.Valid()
    ensures Keeps(old(vol.disk), vol.disk, {})
    ensures OnlyCreates(old(vol.disk), vol.disk, Parent(p), p)
    ensures !o.Crashed? ==> forall q :: !(p <= q) ==> Visible(vol.disk, q) == Visible(old(vol.disk), q)
    ensures !o.Crashed? ==> forall q :: q != p ==> Visible(vol.disk, q) == Visible(old(vol.disk), q) || Visible(vol.disk, q).None?
    ensures !o.Crashed? ==> vol.disk.inodes == old(vol.disk).inodes
    ensures !create ==> vol.disk == old(vol.disk)
    ensures o == Returned(Some(true)) ==> !create && Visible(old(vol.disk), p).None?
    ensures o == Returned(Some(false)) ==> Obstructs(old(vol.disk), p)
    ensures vol.faults >= old(vol.faults)
    ensures vol.faults == old(vol.faults) && (create ==> Reachable(old(vol.disk), Parent(p))) ==>
              o == Returned(if Obstructs(old(vol.disk), p) then Some(false)
                            else if Visible(old(vol.disk), p).None? && !create then Some(true) else None)
    ensures o == Returned(None) ==> Visible(vol.disk, p) == Some(Directory)
    ensures o == Returned(None) && create && Reachable(old(vol.disk), Parent(p)) ==> Reachable(vol.disk, p)
    ensures o == Returned(None) && create && DurableDir(old(vol.disk), Parent(p)) ==> DurableDir(vol.disk, p)
  {
    hide Effect, CrashImage, Keeps, Settled, DurableDir, Reachable, WithDirectory, SyncedDir;
    KeepsItself(vol.disk, {});
    var trouble := vol.Trouble();
    if trouble { return Threw; }  // lstat or realpath failed
    if p !in vol.disk.entries {
      if !create { return Returned(Some(true)); }
      var io := vol.Mkdir(p);
      if Reachable(old(vol.disk), Parent(p)) {
        MkdirStep(old(vol.disk), vol.disk, io, p);
        if DurableDir(old(vol.disk), Parent(p)) { KeepsDurableDir(old(vol.disk), vol.disk, {}, Parent(p)); }
      }
      if io.Crash? { return Crashed; }
      if io.Failed? && io != Failed(EEXIST) { return Threw; }
      trouble := vol.Trouble();
      if trouble { return Threw; }
    }
    if Visible(vol.disk, p) != Some(Directory) { return Returned(Some(false)); }
    if create {
      ghost var before := vol.disk;
      if Reachable(old(vol.disk), Parent(p)) { StillReachable(old(vol.disk), before, p); }
      var io := vol.SyncDirectory(Parent(p));
      SyncStep(before, vol.disk, io, p);
      KeepsOn(old(vol.disk), before, vol.disk);
      if io.Crash? { return Crashed; }
      if io.Failed? { return Threw; }
      OneLevelMore(vol.disk, p);
    }
    o := Returned(None);
  }

  lemma KeepsOn<C>(a: Disk<C>, b: Disk<C>, c: Disk<C>)
    requires Keeps(a, b, {}) && Keeps(b, c, {})
    ensures Keeps(a, c, {})
  {
    KeepsIsTransitive(a, b, c, {}, {});
  }

  lemma OneLevelMore<C>(d: Disk<C>, p: Path)
    requires p != [] && Visible(d, p) == Some(Directory)
    ensures Reachable(d, Parent(p)) ==> Reachable(d, p)
    ensures DurableAt(d, p, Directory) ==> DurableDir(d, p)
  {
  }

  lemma {:induction false} StillReachable<C>(pre: Disk<C>, post: Disk<C>, p: Path)
    requires p != [] && Reachable(pre, Parent(p)) && forall q :: !(p <= q) ==> Visible(post, q) == Visible(pre, q)
    ensures Reachable(post, Parent(p))
  {
    SamePrefixesReachable(pre, post, Parent(p), Parent(p));
  }

  lemma {:induction false} SamePrefixesReachable<C>(pre: Disk<C>, post: Disk<C>, dir: Path, q: Path)
    requires q <= dir && Reachable(pre, q) && forall r :: r <= dir ==> Visible(post, r) == Visible(pre, r)
    ensures Reachable(post, q)
    decreases |q|
  {
    if q != [] {
      SamePrefixesReachable(pre, post, dir, Parent(q));
    }
  }

  /** Something that is not a directory sits on the way. */
  predicate Obstructs<C>(d: Disk<C>, p: Path) { Visible(d, p).Some? && Visible(d, p).value.File? }

  /** Nothing but directories, or nothing at all, on the way from root to target. */
  ghost predicate Clear<C>(d: Disk<C>, root: Path, target: Path) {
    forall k {:trigger target[..k]} :: |root| < k <= |target| ==> !Obstructs(d, target[..k])
  }

  /** Walks from root to target, one directory at a time, creating and publishing each when asked to. */
  method EnsureDirectoryWithinRoot<C(0,==)>(vol: Volume<C>, root: Path, target: Path, create: bool)
    returns (o: Outcome<bool>)
    requires vol.Valid()
    modifies vol`disk, vol`faults
    ensures vol.Valid()
    ensures Keeps(old(vol.disk), vol.disk, {})
    ensures OnlyCreates(old(vol.disk), vol.disk, root, target)
    ensures !o.Crashed? ==> forall p :: !BelowFirstStep(root, target, p) ==> Visible(vol.disk, p) == Visible(old(vol.disk), p)
    ensures !o.Crashed? ==> vol.disk.inodes == old(vol.disk).inodes
    ensures !create ==> vol.disk == old(vol.disk)
    ensures !(root <= target) ==> o == Returned(false)
    ensures o == Returned(false) ==> !(root <= target) || !Clear(old(vol.disk), root, target)
    ensures !o.Crashed? && root <= target ==>
              forall q :: Visible(vol.disk, q) == Visible(old(vol.disk), q) || Visible(vol.disk, q).None? || q <= target
    ensures vol.faults >= old(vol.faults)
    ensures vol.faults == old(vol.faults) && (create ==> Reachable(old(vol.disk), root)) ==>
              o.Returned? && (root <= target && Clear(old(vol.disk), root, target) ==> o.value)
    ensures o == Returned(true) && create && Reachable(old(vol.disk), root) ==> Reachable(vol.disk, target)
    ensures o == Returned(true) && create && DurableDir(old(vol.disk), root) ==> DurableDir(vol.disk, target)
  {
    if !(root <= target) { return Returned(false); }
    var current := root;
    while current != target
      invariant vol.Valid()
      invariant root <= current <= target
      invariant Keeps(old(vol.disk), vol.disk, {})
      invariant OnlyCreates(old(vol.disk), vol.disk, root, target)
      invariant forall p :: !BelowFirstStep(root, target, p) ==> Visible(vol.disk, p) == Visible(old(vol.disk), p)
      invariant !create ==> vol.disk == old(vol.disk)
      invariant vol.disk.inodes == old(vol.disk).inodes
      invariant vol.faults >= old(vol.faults)
      invariant forall q :: Visible(vol.disk, q) == Visible(old(vol.disk), q) || Visible(vol.disk, q).None? || q <= current
      invariant create && Reachable(old(vol.disk), root) ==> Reachable(vol.disk, current)
      invariant create && DurableDir(old(vol.disk), root) ==> DurableDir(vol.disk, current)
      decreases |target| - |current|
    {
      ghost var before := vol.disk;
      var next := target[..|current| + 1];
      assert Parent(next) == current;
      var step := EnsureSegment(vol, next, create);
      WalkStep(old(vol.disk), before, vol.disk, root, current, next, target);
      if step.Crashed? { return Crashed; }
      if step.Threw? { return Threw; }
      if step.value.Some? { return Returned(step.value.value); }
      current := next;
    }
    o := Returned(true);
  }

  lemma WalkStep<C>(start: Disk<C>, pre: Disk<C>, post: Disk<C>, root: Path, current: Path, next: Path, target: Path)
    requires root <= current < next <= target && |next| == |current| + 1
    requires Keeps(start, pre, {}) && OnlyCreates(start, pre, root, target)
    requires Keeps(pre, post, {}) && OnlyCreates(pre, post, current, next)
    ensures Keeps(start, post, {}) && OnlyCreates(start, post, root, target)
    ensures forall p :: next <= p ==> BelowFirstStep(root, target, p)
  {
    KeepsIsTransitive(start, pre, post, {}, {});
    forall p | next <= p ensures BelowFirstStep(root, target, p) {
      assert next[..|root| + 1] <= p;
      assert next[..|root| + 1] == target[..|root| + 1];
    }
    forall p, e | !BelowFirstStep(root, target, p) && Possible(post, p, e)
      ensures Possible(start, p, e)
    {
      assert !BelowFirstStep(current, next, p);
    }
  }

  lemma MkdirStep<C>(pre: Disk<C>, post: Disk<C>, io: Io, p: Path)
    requires p != [] && Visible(pre, p).None?
    requires Effect(pre, WithDirectory(pre, p), io, post)
    ensures Keeps(pre, post, {})
    ensures forall q, e :: !(p <= q) && Possible(post, q, e) ==> Possible(pre, q, e)
    ensures forall q, ino: nat :: Possible(post, q, Some(File(ino))) ==> Possible(pre, q, Some(File(ino)))
    ensures !io.Crash? ==> forall q :: !(p <= q) ==> Visible(post, q) == Visible(pre, q)
    ensures !io.Crash? ==> forall q :: q != p ==> Visible(post, q) == Visible(pre, q) || Visible(post, q).None?
    ensures !io.Crash? ==> post.inodes == pre.inodes && forall q :: Reachable(pre, q) ==> Reachable(post, q)
    ensures io.Done? ==> Visible(post, p) == Some(Directory)
  {
    var full := WithDirectory(pre, p);
    WithDirectoryKeeps(pre, p);
    if io.Crash? {
      if CrashImage(full, post) { CrashKeeps(full, post); } else { CrashKeeps(pre, post); }
    } else {
      forall q | Reachable(pre, q) ensures Reachable(post, q) { ReachableFrame(pre, post, p, q); }
    }
  }

  lemma {:induction false} ReachableFrame<C>(pre: Disk<C>, post: Disk<C>, p: Path, q: Path)
    requires Visible(pre, p).None? && p != []
    requires forall r :: !(p <= r) ==> Visible(post, r) == Visible(pre, r)
    requires Reachable(pre, q)
    ensures !(p <= q) && Reachable(post, q)
    decreases |q|
  {
    if q != [] {
      assert p <= q && p != q ==> p <= Parent(q);
      ReachableFrame(pre, post, p, Parent(q));
    }
  }

  /** Syncing the directory of p loses nothing, and makes p itself durable when it completes. */
  lemma SyncStep<C>(pre: Disk<C>, post: Disk<C>, io: Io, p: Path)
    requires p != []
    requires (io.Failed? && post == pre) || Effect(pre, SyncedDir(pre, Parent(p)), io, post)
    ensures Keeps(pre, post, {})
    ensures forall q, e :: Possible(post, q, e) ==> Possible(pre, q, e)
    ensures !io.Crash? ==> post.entries == pre.entries && post.inodes == pre.inodes
    ensures !io.Crash? ==> forall q :: Reachable(pre, q) ==> Reachable(post, q)
    ensures io.Done? && DurableDir(pre, Parent(p)) && p in pre.entries ==> DurableAt(post, p, pre.entries[p])
  {
    var full := SyncedDir(pre, Parent(p));
    SyncKeeps(pre, Parent(p));
    SyncSettles(pre, p);
    if io.Crash? {
      if CrashImage(full, post) { CrashKeeps(full, post); } else { CrashKeeps(pre, post); }
    } else {
      forall q | Reachable(pre, q) ensures Reachable(post, q) { SameEntriesReachable(pre, post, q); }
    }
  }

  lemma {:induction false} SameEntriesReachable<C>(pre: Disk<C>, post: Disk<C>, q: Path)
    requires post.entries == pre.entries
    ensures Reachable(post, q) <==> Reachable(pre, q)
    decreases |q|
  {
    if q != [] {
      SameEntriesReachable(pre, post, Parent(q));
    }
  }

  lemma {:induction false} NothingBelow<C>(d: Disk<C>, top: Path, p: Path)
    requires top != [] && Visible(d, top) != Some(Directory) && top <= p
    ensures !Reachable(d, p)
    decreases |p|
  {
    if p != top {
      NothingBelow(d, top, Parent(p));
    }
  }

  // ---- the stage ----

  /** prepareFilePublicationSafely's record: the staged inode and where it is to go. */
  class PreparedPublication {
    const filePath: Path
    const tempPath: Path
    const ino: nat
    var handleOpen: bool

    constructor (filePath: Path, tempPath: Path, ino: nat)
      ensures this.filePath == filePath && this.tempPath == tempPath && this.ino == ino && handleOpen
    {
      this.filePath, this.tempPath, this.ino := filePath, tempPath, ino;
      handleOpen := true;
    }
  }

  /** The staged inode exists and no crash can show it anywhere but at the stage's own path. */
  ghost predicate StageOwned<C>(d: Disk<C>, temp: Path, ino: nat) {
    && temp != [] && ino in d.inodes
    && Visible(d, temp) == Some(File(ino))
    && forall p :: Possible(d, p, Some(File(ino))) ==> p == temp
  }

  /** Nothing but `temp` and the destination can have changed, and the destination only to the staged inode. */
  ghost predicate OnlyPublishes<C>(pre: Disk<C>, post: Disk<C>, file: Path, temp: Path, ino: nat) {
    && Keeps(pre, post, {file, temp})
    && (forall p, e :: p != temp && Possible(post, p, e) ==>
          Possible(pre, p, e) || (p == file && e == Some(File(ino))))
  }

  /** Writing and syncing a staged inode changes no entry. */
  method StageBytes<C(0,==)>(vol: Volume<C>, ino: nat, data: C) returns (o: Outcome<()>)
    requires vol.Valid() && ino in vol.disk.inodes && !vol.disk.inodes[ino].synced
    modifies vol`disk, vol`faults
    ensures vol.faults >= old(vol.faults) && (!o.Returned? ==> vol.faults > old(vol.faults))
    ensures vol.Valid() && Keeps(old(vol.disk), vol.disk, {})
    ensures forall p, e :: Possible(vol.disk, p, e) ==> Possible(old(vol.disk), p, e)
    ensures !o.Crashed? ==> vol.disk.entries == old(vol.disk).entries && vol.disk.unsettled == old(vol.disk).unsettled
    ensures o.Returned? ==> HoldsSynced(vol.disk, ino, data)
  {
    ghost var start := vol.disk;
    KeepsItself(start, {});
    var io, written := vol.WriteFile(ino, data);
    StageStep(start, start, vol.disk, io, ino, start.inodes[ino].(content := written, synced := false));
    if io.Crash? { return Crashed; }
    if io.Failed? { return Threw; }
    ghost var staged := vol.disk;
    io := vol.SyncFile(ino);
    StageStep(start, staged, vol.disk, io, ino, staged.inodes[ino].(synced := true));
    if io.Crash? { return Crashed; }
    if io.Failed? { return Threw; }
    var trouble := vol.Trouble();
    if trouble { return Threw; }  // close failed
    o := Returned(());
  }

  lemma KeepsMore<C>(pre: Disk<C>, post: Disk<C>, hole: set<Path>)
    requires Keeps(pre, post, {})
    ensures Keeps(pre, post, hole)
  {
  }

  lemma KeepsItself<C>(d: Disk<C>, hole: set<Path>)
    ensures Keeps(d, d, hole)
  {
  }

  /** Writes and fsyncs the stage; Returned(false) means that its handle no longer is the staged inode. */
  method WriteStage<C(0,==)>(vol: Volume<C>, prepared: PreparedPublication, data: C) returns (o: Outcome<bool>)
    requires vol.Valid() && StageOwned(vol.disk, prepared.tempPath, prepared.ino) && !vol.disk.inodes[prepared.ino].synced
    modifies vol`disk, vol`faults
    ensures vol.Valid() && Keeps(old(vol.disk), vol.disk, {})
    ensures forall p, e :: Possible(vol.disk, p, e) ==> Possible(old(vol.disk), p, e)
    ensures !o.Crashed? ==> vol.disk.entries == old(vol.disk).entries && vol.disk.unsettled == old(vol.disk).unsettled
    ensures o.Returned? ==> HoldsSynced(vol.disk, prepared.ino, data)
    ensures vol.faults >= old(vol.faults) && (o != Returned(true) ==> vol.faults > old(vol.faults))
  {
    var written := StageBytes(vol, prepared.ino, data);
    if written.Crashed? { return Crashed; }
    if written.Threw? { return Threw; }
    var trouble := vol.Trouble();
    if trouble { return Threw; }             // fstat failed
    trouble := vol.Trouble();
    if trouble { return Returned(false); }   // ... or saw another inode
    o := Returned(true);
  }

  /** The part of a publication that can change the destination. */
  method RenameStage<C(0,==)>(vol: Volume<C>, file: Path, temp: Path, ghost ino: nat, ghost data: C, ghost start: Disk<C>) returns (o: Outcome<()>)
    requires vol.Valid() && file != [] && temp != file
    requires StageOwned(start, temp, ino) && HoldsSynced(vol.disk, ino, data)
    requires Keeps(start, vol.disk, {}) && vol.disk.entries == start.entries && vol.disk.unsettled == start.unsettled
    modifies vol`disk, vol`faults
    ensures vol.Valid() && OnlyPublishes(start, vol.disk, file, temp, ino)
    ensures HoldsSynced(vol.disk, ino, data)
    ensures o.Returned? ==> Visible(vol.disk, file) == Some(File(ino)) && temp !in vol.disk.entries
    ensures o.Returned? && DurableDir(start, Parent(file)) ==> DurableAt(vol.disk, file, File(ino))
    ensures !o.Crashed? ==> RanTo(start, vol.disk, file, temp, ino)
    ensures vol.faults >= old(vol.faults)
    ensures !o.Returned? && Visible(start, file) != Some(Directory) && Reachable(start, Parent(file)) ==> vol.faults > old(vol.faults)
  {
    hide Effect, CrashImage, Reachable, Settled, Keeps, DurableDir;
    ghost var synced := vol.disk;
    var io := vol.Rename(temp, file);
    KeepsMore(start, synced, {file, temp});
    if Visible(synced, file) != Some(Directory) {
      RenameStep(start, synced, vol.disk, io, temp, file, ino);
      RenameKeepsBytes(synced, vol.disk, io, temp, file);
    }
    if io.Crash? { return Crashed; }
    assert RanTo(start, vol.disk, file, temp, ino) by {
      assert !Possible(start, file, Some(File(ino)));
    }
    if io.Failed? { return Threw; }
    ghost var renamed := vol.disk;
    if Reachable(start, Parent(file)) { ReachableAfterRename(start, renamed, temp, file, Parent(file)); }
    io := vol.SyncDirectory(Parent(file));
    SyncStep(renamed, vol.disk, io, file);
    if !io.Crash? { SyncedRanTo(start, renamed, vol.disk, file, temp, ino); }
    KeepsIsTransitive(start, renamed, vol.disk, {file, temp}, {});
    assert {file, temp} + {} == {file, temp};
    if DurableDir(start, Parent(file)) {
      NotInsideFile(start, temp, Parent(file));
      KeepsDurableDir(start, renamed, {file, temp}, Parent(file));
    }
    if io.Crash? { return Crashed; }
    if io.Failed? { return Threw; }
    var trouble := vol.Trouble();
    if trouble { return Threw; }               // the storage root changed under the publication
    o := Returned(());
  }

  lemma {:induction false} ReachableAfterRename<C>(pre: Disk<C>, post: Disk<C>, temp: Path, file: Path, q: Path)
    requires file != [] && temp != [] && !(file <= q) && Obstructs(pre, temp) && Reachable(pre, q)
    requires forall p :: p != temp && p != file ==> Visible(post, p) == Visible(pre, p)
    ensures Reachable(post, q)
    decreases |q|
  {
    if q != [] {
      ReachableAfterRename(pre, post, temp, file, Parent(q));
    }
  }

  lemma SyncedRanTo<C>(start: Disk<C>, pre: Disk<C>, post: Disk<C>, file: Path, temp: Path, ino: nat)
    requires RanTo(start, pre, file, temp, ino) && post.entries == pre.entries
    requires forall q, e :: Possible(post, q, e) ==> Possible(pre, q, e)
    ensures RanTo(start, post, file, temp, ino)
  {
  }

  lemma RenameKeepsBytes<C>(pre: Disk<C>, post: Disk<C>, io: Io, temp: Path, file: Path)
    requires temp in pre.entries && Effect(pre, Renamed(pre, temp, file), io, post)
    ensures forall i :: i in pre.inodes && pre.inodes[i].synced ==> i in post.inodes && post.inodes[i] == pre.inodes[i]
  {
  }

  /** How far a publication can have come when nothing crashed: the stage may be at the destination, or gone. */
  ghost predicate RanTo<C>(pre: Disk<C>, post: Disk<C>, file: Path, temp: Path, ino: nat) {
    && (forall p :: p != temp && p != file ==> Visible(post, p) == Visible(pre, p))
    && (Visible(post, file) == Visible(pre, file) || Visible(post, file) == Some(File(ino)))
    && (Visible(post, temp) == Visible(pre, temp) || temp !in post.entries)
    && (Possible(post, file, Some(File(ino))) ==> Visible(post, file) == Some(File(ino)))
  }

  /**
   publishPreparedFilePublication. Atomic: whenever a crash could show the staged inode at the
   destination, its bytes are complete and synced. Durable: true means that every later crash finds
   them. False: nothing visible or possible has changed at any path.
   */
  method Publish<C(0,==)>(vol: Volume<C>, prepared: PreparedPublication, data: C) returns (o: Outcome<bool>)
    requires vol.Valid()
    requires prepared.filePath != [] && prepared.tempPath != prepared.filePath
    requires prepared.handleOpen ==>
               StageOwned(vol.disk, prepared.tempPath, prepared.ino) && !vol.disk.inodes[prepared.ino].synced
    modifies vol`disk, vol`faults, prepared
    ensures vol.Valid()
    ensures OnlyPublishes(old(vol.disk), vol.disk, prepared.filePath, prepared.tempPath, prepared.ino)
    ensures old(prepared.handleOpen) && Possible(vol.disk, prepared.filePath, Some(File(prepared.ino))) ==>
              HoldsSynced(vol.disk, prepared.ino, data)
    ensures o == Returned(true) ==> Visible(vol.disk, prepared.filePath) == Some(File(prepared.ino)) && prepared.tempPath !in vol.disk.entries
    ensures o == Returned(true) && DurableDir(old(vol.disk), Parent(prepared.filePath)) ==>
              DurableAt(vol.disk, prepared.filePath, File(prepared.ino))
    ensures o == Returned(false) ==>
              vol.disk.entries == old(vol.disk).entries && vol.disk.unsettled == old(vol.disk).unsettled
    ensures !o.Crashed? && old(prepared.handleOpen) ==>
              RanTo(old(vol.disk), vol.disk, prepared.filePath, prepared.tempPath, prepared.ino)
    ensures !old(prepared.handleOpen) ==> o == Returned(false) && vol.disk == old(vol.disk)
    ensures vol.faults >= old(vol.faults)
    ensures old(prepared.handleOpen) && o != Returned(true)
            && Visible(old(vol.disk), prepared.filePath) != Some(Directory) && Reachable(old(vol.disk), Parent(prepared.filePath)) ==>
              vol.faults > old(vol.faults)
  {
    hide Effect, CrashImage, Reachable, Settled;
    if !prepared.handleOpen { return Returned(false); }
    ghost var start := vol.disk;
    var written := WriteStage(vol, prepared, data);
    if written.Crashed? { return Crashed; }
    if written.Threw? { return Threw; }
    if !written.value { return Returned(false); }
    prepared.handleOpen := false;
    var trouble := vol.Trouble();
    if trouble { return Threw; }             // the storage root is no longer the one seen at startup
    trouble := vol.Trouble();
    if trouble { return Returned(false); }   // root, parent or stage was replaced
    var renamed := RenameStage(vol, prepared.filePath, prepared.tempPath, prepared.ino, data, start);
    o := if renamed.Crashed? then Crashed else if renamed.Threw? then Threw else Returned(true);
  }

  lemma NotInsideFile<C>(d: Disk<C>, file: Path, dir: Path)
    requires DurableDir(d, dir) && file != [] && Visible(d, file).Some? && Visible(d, file).value.File?
    ensures !(file <= dir)
  {
    if file <= dir {
      DurableAncestors(d, dir, file);
    }
  }

  /** Writing and syncing the stage touches nothing that anyone else can see. */
  lemma StageStep<C>(start: Disk<C>, pre: Disk<C>, post: Disk<C>, io: Io, ino: nat, inode: Inode<C>)
    requires ino in pre.inodes && !pre.inodes[ino].synced
    requires Keeps(start, pre, {}) && start.entries == pre.entries && start.unsettled == pre.unsettled
    requires Effect(pre, WithInode(pre, ino, inode), io, post)
    ensures Keeps(start, post, {})
    ensures forall p, e :: Possible(post, p, e) ==> Possible(start, p, e)
    ensures !io.Crash? ==> post.entries == start.entries && post.unsettled == start.unsettled && ino in post.inodes
  {
    var full := WithInode(pre, ino, inode);
    InodeKeeps(pre, ino, inode);
    EffectKeeps(pre, full, io, post, {});
    KeepsIsTransitive(start, pre, post, {}, {});
    assert forall p, e :: Possible(pre, p, e) <==> Possible(start, p, e);
  }

  /** The rename can add one value only: the staged inode, at the destination. */
  lemma RenameStep<C>(start: Disk<C>, pre: Disk<C>, post: Disk<C>, io: Io, temp: Path, file: Path, ino: nat)
    requires temp != file && file != [] && StageOwned(start, temp, ino)
    requires Keeps(start, pre, {}) && start.entries == pre.entries && start.unsettled == pre.unsettled
    requires Visible(pre, file) != Some(Directory)
    requires Effect(pre, Renamed(pre, temp, file), io, post)
    ensures OnlyPublishes(start, post, file, temp, ino)
    ensures !io.Crash? ==> forall p :: p != temp && p != file ==> Visible(post, p) == Visible(start, p)
    ensures io.Done? ==> Visible(post, file) == Some(File(ino)) && temp !in post.entries
    ensures io.Failed? ==> Visible(post, file) == Visible(start, file) || Visible(post, file) == Some(File(ino))
    ensures io.Failed? ==> Visible(post, temp) == Visible(start, temp) || temp !in post.entries
    ensures !io.Crash? && Possible(post, file, Some(File(ino))) ==> Visible(post, file) == Some(File(ino))
  {
    var linked := SetEntry(pre, file, Some(File(ino)));
    var full := Renamed(pre, temp, file);
    SetEntryKeeps(pre, file, Some(File(ino)));
    SetEntryKeeps(linked, temp, None);
    KeepsIsTransitive(pre, linked, full, {file}, {temp});
    assert {file} + {temp} == {file, temp};
    EffectKeeps(pre, full, io, post, {file, temp});
    KeepsIsTransitive(start, pre, post, {}, {file, temp});
    assert {} + {file, temp} == {file, temp};
    assert forall p, e :: Possible(pre, p, e) <==> Possible(start, p, e);
    forall p, e | p != temp && Possible(full, p, e)
      ensures Possible(pre, p, e) || (p == file && e == Some(File(ino)))
    {
    }
  }

  /** Removing what a path that is not a directory holds. */
  lemma UnlinkStep<C>(pre: Disk<C>, post: Disk<C>, io: Io, p: Path)
    requires p in pre.entries && p != [] && pre.entries[p].File?
    requires Effect(pre, SetEntry(pre, p, None), io, post)
    ensures Keeps(pre, post, {p})
    ensures forall q, e :: Possible(post, q, e) ==> Possible(pre, q, e) || (q == p && e == None)
    ensures !io.Crash? ==> forall q :: q != p ==> Visible(post, q) == Visible(pre, q)
    ensures io.Done? ==> Visible(post, p) == None
  {
    SetEntryKeeps(pre, p, None);
    EffectKeeps(pre, SetEntry(pre, p, None), io, post, {p});
  }

  /**
   abandonPreparedFilePublication: closes the handle and unlinks the stage if it is still the
   staged inode. Errors are swallowed; the stage stays only where a look or an unlink failed.
   */
  method Abandon<C(0,==)>(vol: Volume<C>, prepared: PreparedPublication) returns (o: Outcome<()>)
    requires vol.Valid() && prepared.tempPath != []
    modifies vol`disk, vol`faults, vol`stuck, prepared
    ensures vol.Valid() && !o.Threw?
    ensures vol.faults >= old(vol.faults) && (o.Crashed? ==> vol.faults > old(vol.faults))
    ensures Stuck(old(vol.stuck), vol.stuck, prepared.tempPath, old(vol.faults) < vol.faults)
    ensures Keeps(old(vol.disk), vol.disk, {prepared.tempPath})
    ensures forall p, e :: p != prepared.tempPath && Possible(vol.disk, p, e) ==> Possible(old(vol.disk), p, e)
    ensures o.Returned? ==> forall p :: p != prepared.tempPath ==> Visible(vol.disk, p) == Visible(old(vol.disk), p)
    ensures o.Returned? ==> !prepared.handleOpen
    ensures o.Returned? ==>
              Visible(vol.disk, prepared.tempPath) == Visible(old(vol.disk), prepared.tempPath)
              || prepared.tempPath !in vol.disk.entries
    ensures o.Returned? && Visible(vol.disk, prepared.tempPath) == Some(File(prepared.ino)) ==>
              vol.stuck[prepared.tempPath] > old(vol.stuck)[prepared.tempPath]
  {
    prepared.handleOpen := false;
    var unseen := vol.LookFails(prepared.tempPath);
    if unseen { return Returned(()); }
    if Visible(vol.disk, prepared.tempPath) == Some(File(prepared.ino)) {
      var io := vol.Remove(prepared.tempPath, false);
      UnlinkStep(old(vol.disk), vol.disk, io, prepared.tempPath);
      if io.Crash? { return Crashed; }
    }
    o := Returned(());
  }

  /** Removals failed at this path only, and only when something went wrong. */
  ghost predicate Stuck(before: multiset<Path>, after: multiset<Path>, p: Path, faulty: bool) {
    (forall q :: q != p ==> after[q] == before[q]) && after[p] >= before[p] && (after[p] > before[p] ==> faulty)
  }

  /** What preparing a stage may have changed: new directories on the way, and the stage itself. */
  ghost predicate OnlyPrepares<C>(pre: Disk<C>, post: Disk<C>, root: Path, file: Path, temp: Path) {
    && Keeps(pre, post, {temp})
    && (file != [] ==> forall p, e :: p != temp && !BelowFirstStep(root, Parent(file), p) && Possible(post, p, e) ==> Possible(pre, p, e))
    && (forall p, ino: nat :: p != temp && Possible(post, p, Some(File(ino))) ==> Possible(pre, p, Some(File(ino))))
  }

  /** Nothing on the disk stands in the way of publishing a file through this stage. */
  ghost predicate Ready<C>(d: Disk<C>, root: Path, file: Path, temp: Path)
    requires file != []
  {
    && Reachable(d, root) && root <= Parent(file) && Clear(d, root, Parent(file))
    && temp !in d.entries && Visible(d, file) != Some(Directory)
  }

  /** The path holds a file that was not on the disk before. */
  ghost predicate StageLeft<C>(pre: Disk<C>, post: Disk<C>, temp: Path) {
    exists ino: nat :: ino !in pre.inodes && Visible(post, temp) == Some(File(ino))
  }

  method Prepare<C(0,==)>(vol: Volume<C>, root: Path, file: Path, tempName: string, mtime: int)
    returns (o: Outcome<PreparedPublication?>)
    requires vol.Valid() && file != [] && tempName != file[|file| - 1]
    modifies vol`disk, vol`faults, vol`stuck
    ensures vol.Valid()
    ensures OnlyPrepares(old(vol.disk), vol.disk, root, file, Parent(file) + [tempName])
    ensures !o.Crashed? ==>
              forall p :: p != Parent(file) + [tempName] && !BelowFirstStep(root, Parent(file), p) ==>
                            Visible(vol.disk, p) == Visible(old(vol.disk), p)
    ensures o.Returned? && o.value != null ==>
              && fresh(o.value) && o.value.handleOpen
              && o.value.filePath == file && o.value.tempPath == Parent(file) + [tempName]
              && o.value.ino !in old(vol.disk).inodes
              && StageOwned(vol.disk, o.value.tempPath, o.value.ino) && !vol.disk.inodes[o.value.ino].synced
              && (DurableDir(old(vol.disk), root) ==> DurableDir(vol.disk, Parent(file)))
    ensures vol.faults >= old(vol.faults)
    ensures vol.faults == old(vol.faults) && Ready(old(vol.disk), root, file, Parent(file) + [tempName]) ==>
              o.Returned? && o.value != null && Visible(vol.disk, file) != Some(Directory) && Reachable(vol.disk, Parent(file))
    // a call that hands no stage out leaves none behind, but where its unlink failed
    ensures Stuck(old(vol.stuck), vol.stuck, Parent(file) + [tempName], old(vol.faults) < vol.faults)
    ensures !o.Crashed? && !(o.Returned? && o.value != null) && StageLeft(old(vol.disk), vol.disk, Parent(file) + [tempName]) ==>
              vol.stuck[Parent(file) + [tempName]] > old(vol.stuck)[Parent(file) + [tempName]]
  {
    hide Effect, CrashImage, Reachable, Settled, Keeps, DurableDir, Clear, OnlyPrepares, Possible, Ready;
    hide StageOwned, Visible, BelowFirstStep, WellFormed, StageLeft, Stuck;
    ghost var start := vol.disk;
    var temp := Parent(file) + [tempName];
    NeverStuck(vol.stuck, temp, false);
    var resolved := ResolveTarget(vol, root, file, temp);
    NeverStuck(vol.stuck, temp, old(vol.faults) < vol.faults);
    if resolved.Crashed? { return Crashed; }
    if resolved.Threw? { return Threw; }
    if !resolved.value { return Returned(null); }
    ghost var walked, faults := vol.disk, vol.faults;
    var staged := OpenStage(vol, temp, mtime, Parent(file));
    StageLeftSooner(start, walked, vol.disk, temp);
    StuckLater(old(vol.stuck), vol.stuck, temp, faults < vol.faults, old(vol.faults) < vol.faults);
    Prepared(start, walked, vol.disk, root, file, temp);
    if staged.Crashed? { return Crashed; }
    if staged.Threw? { return Threw; }
    var prepared := new PreparedPublication(file, temp, staged.value);
    o := Returned(prepared);
  }

  /** resolveSafePublicationTarget: the way to the file exists and stays below the root, and nothing is staged yet. */
  method ResolveTarget<C(0,==)>(vol: Volume<C>, root: Path, file: Path, ghost temp: Path) returns (o: Outcome<bool>)
    requires vol.Valid() && file != [] && temp != file && temp != [] && Parent(temp) == Parent(file)
    modifies vol`disk, vol`faults
    ensures vol.Valid() && OnlyPrepares(old(vol.disk), vol.disk, root, file, temp)
    ensures !o.Crashed? ==> vol.disk.inodes == old(vol.disk).inodes && !StageLeft(old(vol.disk), vol.disk, temp)
    ensures !o.Crashed? ==> forall p :: !BelowFirstStep(root, Parent(file), p) ==> Visible(vol.disk, p) == Visible(old(vol.disk), p)
    ensures o == Returned(true) && DurableDir(old(vol.disk), root) ==> DurableDir(vol.disk, Parent(file))
    ensures vol.faults >= old(vol.faults)
    ensures vol.faults == old(vol.faults) && Ready(old(vol.disk), root, file, temp) ==>
              && o == Returned(true) && temp !in vol.disk.entries
              && Visible(vol.disk, file) != Some(Directory) && Reachable(vol.disk, Parent(file))
  {
    hide Effect, CrashImage, Reachable, Settled, Keeps, DurableDir, Clear, OnlyCreates, OnlyPrepares, Possible;
    hide Visible, BelowFirstStep, WellFormed, StageLeft;
    ghost var start := vol.disk;
    var ensured := EnsureDirectoryWithinRoot(vol, root, Parent(file), true);
    Walked(start, vol.disk, root, file, temp);
    if ensured.Crashed? { return Crashed; }
    NoneStaged(start, vol.disk, temp);
    if ensured.Threw? { return Threw; }
    if !ensured.value { return Returned(false); }
    if Ready(start, root, file, temp) { WalkLeavesRoom(start, vol.disk, file, temp); }
    var trouble := vol.Trouble();
    if trouble { return Threw; }             // realpath or stat failed
    trouble := vol.Trouble();
    if trouble { return Returned(false); }   // the root is no longer itself
    o := Returned(true);
  }

  lemma Walked<C>(start: Disk<C>, walked: Disk<C>, root: Path, file: Path, temp: Path)
    requires file != [] && OnlyCreates(start, walked, root, Parent(file)) && Keeps(start, walked, {})
    ensures OnlyPrepares(start, walked, root, file, temp)
  {
    KeepsMore(start, walked, {temp});
  }

  lemma NeverStuck(stuck: multiset<Path>, p: Path, faulty: bool)
    ensures Stuck(stuck, stuck, p, faulty)
  {
  }

  lemma StuckLater(before: multiset<Path>, after: multiset<Path>, p: Path, faulty: bool, more: bool)
    requires Stuck(before, after, p, faulty) && (faulty ==> more)
    ensures Stuck(before, after, p, more)
  {
  }

  lemma VisibleFilesExist<C>(d: Disk<C>, p: Path)
    requires WellFormed(d)
    ensures forall ino: nat :: Visible(d, p) == Some(File(ino)) ==> ino in d.inodes
  {
    assert forall ino: nat :: Visible(d, p) == Some(File(ino)) ==> Possible(d, p, Some(File(ino)));
  }

  /** Whatever is found where no inode was added was there before. */
  lemma NoneStaged<C>(pre: Disk<C>, post: Disk<C>, p: Path)
    requires WellFormed(post) && post.inodes == pre.inodes
    ensures !StageLeft(pre, post, p)
  {
    VisibleFilesExist(post, p);
  }

  lemma StageLeftSooner<C>(start: Disk<C>, walked: Disk<C>, post: Disk<C>, p: Path)
    requires walked.inodes == start.inodes
    ensures StageLeft(start, post, p) ==> StageLeft(walked, post, p)
  {
  }

  lemma WalkLeavesRoom<C>(start: Disk<C>, walked: Disk<C>, file: Path, temp: Path)
    requires file != [] && temp !in start.entries && Visible(start, file) != Some(Directory)
    requires temp != [] && Parent(temp) == Parent(file)
    requires forall q :: Visible(walked, q) == Visible(start, q) || Visible(walked, q).None? || q <= Parent(file)
    ensures temp !in walked.entries && Visible(walked, file) != Some(Directory)
  {
    assert Visible(start, temp).None?;
  }

  lemma Prepared<C>(start: Disk<C>, walked: Disk<C>, post: Disk<C>, root: Path, file: Path, temp: Path)
    requires file != [] && OnlyPrepares(start, walked, root, file, temp) && Keeps(walked, post, {temp})
    requires forall p, e :: p != temp && Possible(post, p, e) ==> Possible(walked, p, e)
    ensures OnlyPrepares(start, post, root, file, temp)
  {
    KeepsIsTransitive(start, walked, post, {temp}, {temp});
    assert {temp} + {temp} == {temp};
  }

  /** Opens a stage and looks at what it opened; after a bad look, closes and unlinks it, and keeps that error. */
  method OpenStage<C(0,==)>(vol: Volume<C>, temp: Path, mtime: int, ghost dir: Path) returns (o: Outcome<nat>)
    requires vol.Valid() && temp != [] && !(temp <= dir)
    modifies vol`disk, vol`faults, vol`stuck
    ensures vol.Valid() && Keeps(old(vol.disk), vol.disk, {temp}) && old(vol.disk).inodes.Keys <= vol.disk.inodes.Keys
    ensures forall p, e :: p != temp && Possible(vol.disk, p, e) ==> Possible(old(vol.disk), p, e)
    ensures !o.Crashed? ==> forall p :: p != temp ==> Visible(vol.disk, p) == Visible(old(vol.disk), p)
    ensures o.Returned? ==>
              && o.value !in old(vol.disk).inodes && StageOwned(vol.disk, temp, o.value) && !vol.disk.inodes[o.value].synced
              && (DurableDir(old(vol.disk), dir) ==> DurableDir(vol.disk, dir))
              && (Reachable(old(vol.disk), dir) ==> Reachable(vol.disk, dir))
    ensures vol.faults >= old(vol.faults)
    ensures vol.faults == old(vol.faults) && temp !in old(vol.disk).entries && Reachable(old(vol.disk), Parent(temp)) ==> o.Returned?
    ensures Stuck(old(vol.stuck), vol.stuck, temp, old(vol.faults) < vol.faults)
    ensures o.Threw? && StageLeft(old(vol.disk), vol.disk, temp) ==> vol.stuck[temp] > old(vol.stuck)[temp]
  {
    hide Effect, CrashImage, Reachable, Settled, Keeps, DurableDir;
    ghost var start := vol.disk;
    KeepsItself(start, {});
    KeepsItself(start, {temp});
    VisibleFilesExist(start, temp);
    var io, ino := vol.OpenExclusive(temp, mtime);
    if io.Failed? { return Threw; }
    OpenStep(start, start, vol.disk, io, temp, ino, vol.blank, mtime, dir);
    KeepsInodes(start, vol.disk, io, temp, ino, vol.blank, mtime);
    if io.Crash? { return Crashed; }
    var trouble := vol.Trouble();
    if trouble {
      ghost var withStage := vol.disk;
      io := vol.Remove(temp, false);
      UnlinkStep(withStage, vol.disk, io, temp);
      KeepsIsTransitive(start, withStage, vol.disk, {temp}, {temp});
      assert {temp} + {temp} == {temp};
      UnlinkKeepsInodes(withStage, vol.disk, io, temp);
      if io.Crash? { return Crashed; }
      return Threw;
    }
    if Reachable(start, dir) { ReachableAfterOpen(start, vol.disk, temp, dir); }
    o := Returned(ino);
  }

  lemma KeepsInodes<C>(pre: Disk<C>, post: Disk<C>, io: Io, temp: Path, ino: nat, blank: C, mtime: int)
    requires Effect(pre, SetEntry(WithInode(pre, ino, Inode(blank, false, mtime)), temp, Some(File(ino))), io, post)
    ensures pre.inodes.Keys <= post.inodes.Keys
  {
  }

  lemma UnlinkKeepsInodes<C>(pre: Disk<C>, post: Disk<C>, io: Io, p: Path)
    requires Effect(pre, SetEntry(pre, p, None), io, post)
    ensures pre.inodes.Keys <= post.inodes.Keys
  {
  }

  lemma {:induction false} ReachableAfterOpen<C>(pre: Disk<C>, post: Disk<C>, temp: Path, q: Path)
    requires !(temp <= q) && Reachable(pre, q) && forall p :: p != temp ==> Visible(post, p) == Visible(pre, p)
    ensures Reachable(post, q)
    decreases |q|
  {
    if q != [] {
      ReachableAfterOpen(pre, post, temp, Parent(q));
    }
  }

  /** A new stage: a fresh inode, possible nowhere else. */
  lemma OpenStep<C>(start: Disk<C>, pre: Disk<C>, post: Disk<C>, io: Io, temp: Path, ino: nat, blank: C, mtime: int, dir: Path)
    requires WellFormed(pre) && Keeps(start, pre, {}) && temp != [] && temp !in pre.entries
    requires ino !in pre.inodes && !io.Failed?
    requires Effect(pre, SetEntry(WithInode(pre, ino, Inode(blank, false, mtime)), temp, Some(File(ino))), io, post)
    requires !(temp <= dir)
    ensures ino !in start.inodes && Keeps(start, post, {temp})
    ensures forall p, e :: p != temp && Possible(post, p, e) ==> Possible(pre, p, e)
    ensures io.Done? ==> forall p :: p != temp ==> Visible(post, p) == Visible(pre, p)
    ensures io.Done? ==> StageOwned(post, temp, ino) && !post.inodes[ino].synced
    ensures io.Done? && DurableDir(pre, dir) ==> DurableDir(post, dir)
  {
    var withInode := WithInode(pre, ino, Inode(blank, false, mtime));
    InodeKeeps(pre, ino, Inode(blank, false, mtime));
    var full := SetEntry(withInode, temp, Some(File(ino)));
    SetEntryKeeps(withInode, temp, Some(File(ino)));
    KeepsIsTransitive(pre, withInode, full, {}, {temp});
    assert {} + {temp} == {temp};
    EffectKeeps(pre, full, io, post, {temp});
    KeepsIsTransitive(start, pre, post, {}, {temp});
    if io.Done? {
      forall p | Possible(post, p, Some(File(ino))) ensures p == temp {
        assert p != temp ==> Possible(pre, p, Some(File(ino)));
      }
      if DurableDir(pre, dir) {
        KeepsDurableDir(pre, post, {temp}, dir);
      }
    }
  }

  /** What one publication may leave behind, however it ended: the staged inode `ino` at `file`, and its stage. */
  ghost predicate PublicationFrame<C>(pre: Disk<C>, post: Disk<C>, root: Path, file: Path, temp: Path, ino: nat, data: C)
    requires file != []
  {
    && Keeps(pre, post, {file, temp})
    && ino !in pre.inodes
    && (forall p, i: nat :: p != temp && Possible(post, p, Some(File(i))) ==>
          Possible(pre, p, Some(File(i))) || (p == file && i == ino))
    && (forall p, e :: p != temp && p != file && !BelowFirstStep(root, Parent(file), p) && Possible(post, p, e) ==> Possible(pre, p, e))
    && (!BelowFirstStep(root, Parent(file), file) ==> OnlyAdds(pre, post, file, Some(File(ino))))
    && (Possible(post, file, Some(File(ino))) ==> HoldsSynced(post, ino, data))
  }

  /** The try and the finally of every publication: publish the stage, and abandon whatever is left of it on every way out. */
  method PublishPrepared<C(0,==)>(vol: Volume<C>, prepared: PreparedPublication, data: C, ghost start: Disk<C>, ghost root: Path)
    returns (o: Outcome<bool>)
    requires vol.Valid() && WellFormed(start) && prepared.handleOpen && prepared.filePath != [] && prepared.tempPath != prepared.filePath
    requires prepared.ino !in start.inodes && OnlyPrepares(start, vol.disk, root, prepared.filePath, prepared.tempPath)
    requires StageOwned(vol.disk, prepared.tempPath, prepared.ino) && !vol.disk.inodes[prepared.ino].synced
    modifies vol`disk, vol`faults, vol`stuck, prepared
    ensures vol.Valid()
    ensures PublicationFrame(start, vol.disk, root, prepared.filePath, prepared.tempPath, prepared.ino, data)
    ensures o == Returned(true) ==> Visible(vol.disk, prepared.filePath) == Some(File(prepared.ino))
    ensures o == Returned(true) && DurableDir(old(vol.disk), Parent(prepared.filePath)) ==> DurableFile(vol.disk, prepared.filePath, data)
    ensures o == Returned(false) ==> !Possible(vol.disk, prepared.filePath, Some(File(prepared.ino)))
    ensures !o.Crashed? && Possible(vol.disk, prepared.filePath, Some(File(prepared.ino))) ==>
              Visible(vol.disk, prepared.filePath) == Some(File(prepared.ino))
    ensures !o.Crashed? ==>
              && (forall p :: p != prepared.tempPath && p != prepared.filePath ==> Visible(vol.disk, p) == Visible(old(vol.disk), p))
              && (Visible(vol.disk, prepared.filePath) == Visible(old(vol.disk), prepared.filePath)
                  || Visible(vol.disk, prepared.filePath) == Some(File(prepared.ino)))
    ensures Stuck(old(vol.stuck), vol.stuck, prepared.tempPath, old(vol.faults) < vol.faults)
    ensures !o.Crashed? && StageLeft(start, vol.disk, prepared.tempPath) ==>
              vol.stuck[prepared.tempPath] > old(vol.stuck)[prepared.tempPath]
    ensures vol.faults >= old(vol.faults)
    ensures vol.faults == old(vol.faults) && Visible(old(vol.disk), prepared.filePath) != Some(Directory)
            && Reachable(old(vol.disk), Parent(prepared.filePath)) ==>
              o == Returned(true)
  {
    hide Reachable, Clear, OnlyPrepares, DurableDir, Settled, Keeps, WellFormed;
    ghost var staged := vol.disk;
    o := Publish(vol, prepared, data);
    PublishedFrame(start, staged, vol.disk, root, prepared.filePath, prepared.tempPath, prepared.ino, data);
    ghost var published := vol.disk;
    if o.Crashed? { return; }
    assert o == Returned(false) ==>
             (Possible(published, prepared.filePath, Some(File(prepared.ino))) <==> Possible(staged, prepared.filePath, Some(File(prepared.ino))));
    var abandoned := Abandon(vol, prepared);
    AbandonedFrame(start, published, vol.disk, root, prepared.filePath, prepared.tempPath, prepared.ino, data);
    if abandoned.Crashed? { return Crashed; }
    if o == Returned(true) && DurableDir(staged, Parent(prepared.filePath)) {
      StaysDurable(published, vol.disk, prepared.filePath, prepared.tempPath, prepared.ino);
    }
  }

  lemma StaysDurable<C>(pre: Disk<C>, post: Disk<C>, file: Path, temp: Path, ino: nat)
    requires Keeps(pre, post, {temp}) && file != temp && DurableAt(pre, file, File(ino))
    ensures DurableAt(post, file, File(ino))
  {
  }

  /** storeCaptureAudio's publication: prepare a stage, then publish it. Returned(false) stands for "could not be published safely". */
  method PublishFile<C(0,==)>(vol: Volume<C>, root: Path, file: Path, data: C, tempName: string, mtime: int)
    returns (o: Outcome<bool>, ghost ino: nat)
    requires vol.Valid() && file != [] && tempName != file[|file| - 1]
    modifies vol`disk, vol`faults, vol`stuck
    ensures vol.Valid()
    ensures PublicationFrame(old(vol.disk), vol.disk, root, file, Parent(file) + [tempName], ino, data)
    ensures o == Returned(true) ==> Visible(vol.disk, file) == Some(File(ino))
    ensures o == Returned(true) && DurableDir(old(vol.disk), root) ==> DurableFile(vol.disk, file, data)
    ensures o == Returned(false) ==> !Possible(vol.disk, file, Some(File(ino)))
    ensures !o.Crashed? && Possible(vol.disk, file, Some(File(ino))) ==> Visible(vol.disk, file) == Some(File(ino))
    ensures !o.Crashed? && !BelowFirstStep(root, Parent(file), file) ==>
              Visible(vol.disk, file) == Visible(old(vol.disk), file) || Visible(vol.disk, file) == Some(File(ino))
    ensures !o.Crashed? ==>
              forall p :: p != Parent(file) + [tempName] && p != file && !BelowFirstStep(root, Parent(file), p) ==>
                            Visible(vol.disk, p) == Visible(old(vol.disk), p)
    // on every exit the stage is renamed or removed, but where its removal failed
    ensures Stuck(old(vol.stuck), vol.stuck, Parent(file) + [tempName], old(vol.faults) < vol.faults)
    ensures !o.Crashed? && StageLeft(old(vol.disk), vol.disk, Parent(file) + [tempName]) ==>
              vol.stuck[Parent(file) + [tempName]] > old(vol.stuck)[Parent(file) + [tempName]]
    ensures vol.faults >= old(vol.faults)
    ensures vol.faults == old(vol.faults) && Ready(old(vol.disk), root, file, Parent(file) + [tempName]) ==>
              o == Returned(true)
  {
    hide Reachable, Clear, OnlyPrepares, DurableDir, Settled, Keeps;
    ghost var start := vol.disk;
    ghost var temp := Parent(file) + [tempName];
    assert temp != file;
    ino := FreshInode(start.inodes.Keys);
    var prepared := Prepare(vol, root, file, tempName, mtime);
    NotPublished(start, vol.disk, root, file, temp, ino, data);
    if prepared.Crashed? { return Crashed, ino; }
    if prepared.Threw? { return Threw, ino; }
    if prepared.value == null { return Returned(false), ino; }
    ino := prepared.value.ino;
    o := PublishPrepared(vol, prepared.value, data, start, root);
  }

  /** With the stage only prepared, nothing is published. */
  lemma NotPublished<C>(pre: Disk<C>, post: Disk<C>, root: Path, file: Path, temp: Path, ino: nat, data: C)
    requires WellFormed(pre) && file != [] && temp != file && ino !in pre.inodes && OnlyPrepares(pre, post, root, file, temp)
    ensures PublicationFrame(pre, post, root, file, temp, ino, data) && !Possible(post, file, Some(File(ino)))
  {
    FreshIsNowhere(pre, post, ino, temp);
    KeepsItself(post, {file, temp});
    PublishedFrame(pre, post, post, root, file, temp, ino, data);
  }

  lemma FreshIsNowhere<C>(pre: Disk<C>, post: Disk<C>, ino: nat, temp: Path)
    requires WellFormed(pre) && ino !in pre.inodes
    requires forall p, i: nat :: p != temp && Possible(post, p, Some(File(i))) ==> Possible(pre, p, Some(File(i)))
    ensures forall p :: p != temp ==> !Possible(post, p, Some(File(ino)))
  {
  }

  lemma PublishedFrame<C>(pre: Disk<C>, staged: Disk<C>, post: Disk<C>, root: Path, file: Path, temp: Path, ino: nat, data: C)
    requires WellFormed(pre) && file != [] && temp != file && ino !in pre.inodes
    requires OnlyPrepares(pre, staged, root, file, temp) && OnlyPublishes(staged, post, file, temp, ino)
    requires Possible(post, file, Some(File(ino))) ==> HoldsSynced(post, ino, data)
    ensures PublicationFrame(pre, post, root, file, temp, ino, data)
  {
    KeepsIsTransitive(pre, staged, post, {temp}, {file, temp});
    assert {temp} + {file, temp} == {file, temp};
  }

  lemma AbandonedFrame<C>(pre: Disk<C>, published: Disk<C>, post: Disk<C>, root: Path, file: Path, temp: Path, ino: nat, data: C)
    requires file != [] && temp != file
    requires PublicationFrame(pre, published, root, file, temp, ino, data)
    requires Keeps(published, post, {temp})
    requires forall p, e :: p != temp && Possible(post, p, e) ==> Possible(published, p, e)
    ensures PublicationFrame(pre, post, root, file, temp, ino, data)
  {
    KeepsIsTransitive(pre, published, post, {file, temp}, {temp});
    assert {file, temp} + {temp} == {file, temp};
  }

  /**
   Publication is atomic for every reader after every crash: the destination holds what it could
   already hold, or the complete new bytes.
   */
  lemma PublicationIsAtomic<C>(pre: Disk<C>, post: Disk<C>, file: Path, temp: Path, ino: nat, data: C, found: Option<C>)
    requires WellFormed(pre) && file != []
    requires PublicationFrame(pre, post, Parent(file), file, temp, ino, data)
    requires PossibleContent(post, file, found)
    ensures PossibleContent(pre, file, found) || found == Some(data)
  {
    if found.Some? {
      var i: nat :| Possible(post, file, Some(File(i))) && i in post.inodes
                    && (post.inodes[i].synced ==> post.inodes[i].content == found.value);
      if i != ino {
        assert Possible(pre, file, Some(File(i)));
        assert i in pre.inodes;
      }
    }
  }

  /**
   writeData with a stage of its own: a document is published in its own directory, or the call throws.
   The root check right after the stage was opened has no handler: when it throws, the stage stays.
   */
  method WriteData<C(0,==)>(vol: Volume<C>, file: Path, data: C, tempName: string, mtime: int)
    returns (o: Outcome<()>, ghost ino: nat)
    requires vol.Valid() && file != [] && tempName != file[|file| - 1]
    modifies vol
    ensures vol.Valid()
    ensures PublicationFrame(old(vol.disk), vol.disk, Parent(file), file, Parent(file) + [tempName], ino, data)
    ensures forall found :: PossibleContent(vol.disk, file, found) ==> PossibleContent(old(vol.disk), file, found) || found == Some(data)
    ensures o.Returned? ==> Visible(vol.disk, file) == Some(File(ino))
    ensures o.Returned? && DurableDir(old(vol.disk), Parent(file)) ==> DurableFile(vol.disk, file, data)
    ensures o.Threw? ==> Visible(vol.disk, file) == Visible(old(vol.disk), file) || Visible(vol.disk, file) == Some(File(ino))
    ensures o.Threw? && Possible(vol.disk, file, Some(File(ino))) ==> Visible(vol.disk, file) == Some(File(ino))
    ensures !o.Crashed? ==>
              forall p :: p != Parent(file) + [tempName] && p != file ==> Visible(vol.disk, p) == Visible(old(vol.disk), p)
    // the stage stays where its removal failed or that check threw, and where no removal failed exactly there
    ensures Stuck(old(vol.stuck), vol.stuck, Parent(file) + [tempName], old(vol.faults) < vol.faults)
    ensures vol.strays == old(vol.strays) || Strayed(old(vol.strays), vol.strays, Parent(file) + [tempName])
    ensures Strayed(old(vol.strays), vol.strays, Parent(file) + [tempName]) ==>
              o.Threw? && StageLeft(old(vol.disk), vol.disk, Parent(file) + [tempName])
              && !Possible(vol.disk, file, Some(File(ino)))
    ensures !o.Crashed? && StageLeft(old(vol.disk), vol.disk, Parent(file) + [tempName]) ==>
              vol.stuck[Parent(file) + [tempName]] > old(vol.stuck)[Parent(file) + [tempName]]
              || Strayed(old(vol.strays), vol.strays, Parent(file) + [tempName])
    ensures !o.Crashed? && vol.stuck == old(vol.stuck) ==>
              (StageLeft(old(vol.disk), vol.disk, Parent(file) + [tempName]) <==>
               Strayed(old(vol.strays), vol.strays, Parent(file) + [tempName]))
    ensures vol.faults >= old(vol.faults)
    ensures vol.faults == old(vol.faults) && Ready(old(vol.disk), Parent(file), file, Parent(file) + [tempName]) ==> o.Returned?
  {
    hide Reachable, Clear, OnlyPrepares, DurableDir, Settled, Keeps, PublicationFrame, StageOwned, PossibleContent;
    ghost var start := vol.disk;
    ghost var temp := Parent(file) + [tempName];
    ino := FreshInode(start.inodes.Keys);
    Unpublished(start, file, temp, ino, data);
    NoneStaged(start, start, temp);
    NotStrayed(vol.strays, temp);
    var trouble := vol.Trouble();
    if trouble { return Threw, ino; }  // the storage root is gone or unsafe
    var prepared := Prepare(vol, Parent(file), file, tempName, mtime);
    NotPublished(start, vol.disk, Parent(file), file, temp, ino, data);
    OnlyOldOrNew(start, vol.disk, file, temp, ino, data);
    if prepared.Crashed? { return Crashed, ino; }
    if prepared.Threw? { return Threw, ino; }
    if prepared.value == null { return Threw, ino; }
    ino := prepared.value.ino;
    NotPublished(start, vol.disk, Parent(file), file, temp, ino, data);
    OnlyOldOrNew(start, vol.disk, file, temp, ino, data);
    var lost := vol.CheckRootHolding(prepared.value.tempPath);
    if lost {
      OnlyOldOrNew(start, vol.disk, file, temp, ino, data);
      HeldIsLeft(start, vol.disk, temp, ino);
      return Threw, ino;
    }
    var published := PublishPrepared(vol, prepared.value, data, start, Parent(file));
    OnlyOldOrNew(start, vol.disk, file, temp, ino, data);
    o := if published.Crashed? then Crashed else if published == Returned(true) then Returned(()) else Threw;
  }

  /** A root check threw with a stage at this path at hand, and nothing else of the kind happened. */
  ghost predicate Strayed(before: multiset<Path>, after: multiset<Path>, p: Path) { after == before + multiset{p} }

  lemma NotStrayed(strays: multiset<Path>, p: Path)
    ensures !Strayed(strays, strays, p)
  {
    assert (strays + multiset{p})[p] == strays[p] + 1;
  }

  lemma HeldIsLeft<C>(pre: Disk<C>, post: Disk<C>, temp: Path, ino: nat)
    requires ino !in pre.inodes && StageOwned(post, temp, ino)
    ensures StageLeft(pre, post, temp)
  {
  }

  lemma OnlyOldOrNew<C>(pre: Disk<C>, post: Disk<C>, file: Path, temp: Path, ino: nat, data: C)
    requires WellFormed(pre) && file != [] && PublicationFrame(pre, post, Parent(file), file, temp, ino, data)
    ensures forall found :: PossibleContent(post, file, found) ==> PossibleContent(pre, file, found) || found == Some(data)
  {
    forall found | PossibleContent(post, file, found) ensures PossibleContent(pre, file, found) || found == Some(data) {
      PublicationIsAtomic(pre, post, file, temp, ino, data, found);
    }
  }

  lemma Unpublished<C>(d: Disk<C>, file: Path, temp: Path, ino: nat, data: C)
    requires WellFormed(d) && file != [] && ino !in d.inodes
    ensures PublicationFrame(d, d, Parent(file), file, temp, ino, data) && !Possible(d, file, Some(File(ino)))
  {
    assert !Possible(d, file, Some(File(ino)));
  }
}
