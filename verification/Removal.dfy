/** Durable removal of one file or empty directory (server-storage.ts). */
module Removal {
  import opened Wrappers
  import opened Volumes
  import opened SystemCalls
  import opened Publication

  /** existsSync: a path that some missing directory hides does not exist. */
  predicate Exists<C>(d: Disk<C>, p: Path) {
    p == [] || (p in d.entries && Reachable(d, Parent(p)))
  }

  lemma {:induction false} BelowIsHeldByChild<C>(d: Disk<C>, dir: Path, p: Path)
    requires dir != [] && dir < p && p in d.entries && Reachable(d, Parent(p))
    ensures HasChild(d, dir)
    decreases |p|
  {
    if Parent(p) != dir {
      BelowIsHeldByChild(d, dir, Parent(p));
    }
  }

  /** Whatever is still there is still found: no directory above it was taken away. */
  ghost predicate StaysInView<C>(pre: Disk<C>, post: Disk<C>) {
    forall p :: p != [] && p in post.entries && Reachable(pre, Parent(p)) ==> Reachable(post, Parent(p))
  }

  /** Whatever a crash could show before, it still can: nothing was synced. */
  ghost predicate StillPossible<C>(pre: Disk<C>, post: Disk<C>) {
    forall p, e :: Possible(pre, p, e) ==> Possible(post, p, e)
  }

  lemma RemovalStaysInView<C>(pre: Disk<C>, post: Disk<C>, p: Path)
    requires p in pre.entries && p != [] && (pre.entries[p] == Directory ==> !HasChild(pre, p))
    requires post.entries == pre.entries || post.entries == pre.entries - {p}
    ensures StaysInView(pre, post)
  {
    forall q | q != [] && q in post.entries && Reachable(pre, Parent(q)) ensures Reachable(post, Parent(q)) {
      if post.entries == pre.entries {
        SameEntriesReachable(pre, post, Parent(q));
      } else if p <= Parent(q) {
        if pre.entries[p] == Directory {
          BelowIsHeldByChild(pre, p, q);
        } else {
          NothingBelow(pre, p, Parent(q));
        }
      } else {
        RemovalKeepsReachable(pre, post, p, Parent(q));
      }
    }
  }

  /** Removing a file, or a directory with nothing in it, keeps everything durable elsewhere. */
  lemma RemoveStep<C>(pre: Disk<C>, post: Disk<C>, io: Io, p: Path)
    requires p in pre.entries && p != []
    requires pre.entries[p] == Directory ==> !HasChild(pre, p)
    requires Effect(pre, SetEntry(pre, p, None), io, post)
    ensures Keeps(pre, post, {p})
    ensures forall q, e :: Possible(post, q, e) ==> Possible(pre, q, e) || (q == p && e == None)
    ensures !io.Crash? ==> post.entries == pre.entries || post.entries == pre.entries - {p}
    ensures !io.Crash? ==> post.inodes == pre.inodes && StaysInView(pre, post) && StillPossible(pre, post)
  {
    var full := SetEntry(pre, p, None);
    if DurableDir(pre, p) {
      forall q, x | q != p && DurableAt(pre, q, x)
        ensures DurableAt(full, q, x)
      {
        if p <= Parent(q) {
          DurableIsReachable(pre, Parent(q));
          BelowIsHeldByChild(pre, p, q);
        }
        DurableDirFrame(pre, full, Parent(q));
        assert forall y :: Possible(full, q, y) ==> Possible(pre, q, y);
      }
    } else {
      SetEntryKeeps(pre, p, None);
    }
    EffectKeeps(pre, full, io, post, {p});
    if !io.Crash? { RemovalStaysInView(pre, post, p); }
  }

  lemma {:induction false} RemovalKeepsReachable<C>(pre: Disk<C>, post: Disk<C>, p: Path, q: Path)
    requires forall r :: r != p ==> Visible(post, r) == Visible(pre, r)
    requires !(p <= q)
    ensures Reachable(post, q) <==> Reachable(pre, q)
    decreases |q|
  {
    if q != [] {
      RemovalKeepsReachable(pre, post, p, Parent(q));
    }
  }

  /**
   durablyRemoveEntry. When it returns with the parent synced, no later crash can bring the entry
   back, even if an earlier call removed it and failed to sync.
   */
  method DurablyRemoveEntry<C(0,==)>(vol: Volume<C>, target: Path, directory: bool, syncParent: bool)
    returns (o: Outcome<bool>, code: Errno)
    requires vol.Valid() && target != []
    modifies vol
    ensures vol.Valid()
    ensures Keeps(old(vol.disk), vol.disk, {target})
    ensures forall q, e :: Possible(vol.disk, q, e) ==> Possible(old(vol.disk), q, e) || (q == target && e == None)
    ensures !o.Crashed? ==> vol.disk.entries == old(vol.disk).entries || vol.disk.entries == old(vol.disk).entries - {target}
    ensures !o.Crashed? ==> vol.disk.inodes == old(vol.disk).inodes && StaysInView(old(vol.disk), vol.disk)
    ensures !o.Crashed? && !syncParent ==> StillPossible(old(vol.disk), vol.disk)
    ensures o.Returned? && Exists(old(vol.disk), target) ==> target !in vol.disk.entries
    ensures o == Returned(true) ==> Exists(old(vol.disk), target) && target !in vol.disk.entries
    ensures o == Returned(false) ==> !Exists(vol.disk, target)
    ensures o == Returned(false) && !Exists(old(vol.disk), target) ==> vol.disk.entries == old(vol.disk).entries
    ensures o == Returned(false) && !syncParent && !Exists(old(vol.disk), target) ==> vol.disk == old(vol.disk)
    ensures o.Returned? && syncParent && Reachable(old(vol.disk), Parent(target)) ==>
              forall e :: Possible(vol.disk, target, e) ==> e == None
    ensures o.Threw? ==> syncParent || Exists(old(vol.disk), target)
    ensures o.Threw? && code in {ENOTEMPTY, EEXIST} ==> directory && HasChild(old(vol.disk), target)
    ensures o.Threw? ==> code != ENOENT || syncParent
    ensures vol.faults >= old(vol.faults) && (o.Crashed? ==> vol.faults > old(vol.faults))
    ensures vol.faults == old(vol.faults) ==>
              && (Exists(old(vol.disk), target) && CanRemove(old(vol.disk), target, directory) ==> o == Returned(true))
              && (!Exists(old(vol.disk), target) && (syncParent ==> Reachable(old(vol.disk), Parent(target))) ==> o == Returned(false))
              && (Exists(old(vol.disk), target) && directory && old(vol.disk).entries[target] == Directory && HasChild(old(vol.disk), target) ==>
                    o.Threw? && code == ENOTEMPTY && vol.disk == old(vol.disk))
  {
    code := EIO;
    ghost var start := vol.disk;
    if !Exists(vol.disk, target) {
      if syncParent && Exists(vol.disk, Parent(target)) {
        var io := vol.SyncDirectory(Parent(target));
        SyncStep(start, vol.disk, io, target);
        if io.Crash? { return Crashed, code; }
        if io.Failed? { return Threw, EIO; }
        SyncSettles(start, target);
      }
      return Returned(false), code;
    }
    var io := vol.Remove(target, directory);
    if !(io.Failed? && vol.disk == start) {
      RemoveStep(start, vol.disk, io, target);
    }
    if io.Crash? { return Crashed, code; }
    if io == Failed(ENOENT) {
      RemovalKeepsReachable(start, vol.disk, target, Parent(target));
      if syncParent && Exists(vol.disk, Parent(target)) {
        ghost var vanished := vol.disk;
        io := vol.SyncDirectory(Parent(target));
        SyncStep(vanished, vol.disk, io, target);
        KeepsIsTransitive(start, vanished, vol.disk, {target}, {});
        if io.Crash? { return Crashed, code; }
        if io.Failed? { return Threw, EIO; }
        SyncSettles(vanished, target);
      }
      return Returned(false), code;
    }
    if io.Failed? { return Threw, io.code; }
    if syncParent {
      ghost var removed := vol.disk;
      RemovalKeepsReachable(start, removed, target, Parent(target));
      io := vol.SyncDirectory(Parent(target));
      SyncStep(removed, vol.disk, io, target);
      KeepsIsTransitive(start, removed, vol.disk, {target}, {});
      if io.Crash? { return Crashed, code; }
      if io.Failed? { return Threw, EIO; }
      SyncSettles(removed, target);
    }
    o := Returned(true);
  }
}
