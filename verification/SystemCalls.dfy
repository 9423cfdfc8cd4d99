/** The system calls the storage layer makes, on one mutable volume. */
module SystemCalls {
  import opened Wrappers
  import opened Volumes

  lemma SetEntryWellFormed<C>(d: Disk<C>, p: Path, e: Option<Entry>)
    requires WellFormed(d) && p != []
    requires e.Some? && e.value.File? ==> e.value.ino in d.inodes
    ensures WellFormed(SetEntry(d, p, e))
  {
    var post := SetEntry(d, p, e);
    forall q, ino: nat | Possible(post, q, Some(File(ino)))
      ensures ino in post.inodes
    {
      assert q == p || Possible(d, q, Some(File(ino)));
      assert q == p ==> e == Some(File(ino)) || Possible(d, p, Some(File(ino)));
    }
  }

  lemma WithDirectoryWellFormed<C>(d: Disk<C>, p: Path)
    requires WellFormed(d) && p != []
    ensures WellFormed(WithDirectory(d, p))
  {
    var post := WithDirectory(d, p);
    forall q, ino: nat | Possible(post, q, Some(File(ino)))
      ensures ino in post.inodes
    {
      assert Possible(d, q, Some(File(ino)));
    }
  }

  lemma ShrinkingWellFormed<C>(d: Disk<C>, post: Disk<C>)
    requires WellFormed(d) && [] !in post.entries && d.inodes.Keys <= post.inodes.Keys
    requires forall p, e :: Possible(post, p, e) ==> Possible(d, p, e)
    ensures WellFormed(post)
  {
  }

  lemma CrashWellFormed<C>(d: Disk<C>, image: Disk<C>)
    requires WellFormed(d) && CrashImage(d, image)
    requires forall e :: Possible(d, [], e) ==> e == None
    ensures WellFormed(image)
  {
    CrashKeeps(d, image);
    assert Visible(image, []) == None;
    ShrinkingWellFormed(d, image);
  }

  class Volume<C(0,==)> {
    var disk: Disk<C>
    const blank: C          // the content of a file that was just created
    ghost var faults: nat   // how often anything went wrong from outside: an I/O error, a crash, interference
    ghost var stuck: multiset<Path>  // the paths that a removal was meant for and left as they were, each time
    ghost var strays: multiset<Path>  // the stages at hand when a root check threw that nothing cleans up after

    ghost predicate Valid()
      reads this
    {
      WellFormed(disk) && forall e :: Possible(disk, [], e) ==> e == None
    }

    constructor (initial: Disk<C>, blank: C)
      requires WellFormed(initial) && forall e :: Possible(initial, [], e) ==> e == None
      ensures Valid() && disk == initial
    {
      this.disk := initial;
      this.blank := blank;
      this.faults := 0;
      this.stuck, this.strays := multiset{}, multiset{};
    }

    /** The look before a removal fails, so that there is none. */
    method LookFails(p: Path) returns (failed: bool)
      modifies this`faults, this`stuck
      ensures faults >= old(faults) && (failed ==> faults > old(faults))
      ensures stuck == old(stuck) + if failed then multiset{p} else multiset{}
    {
      failed := *;
      if failed { faults, stuck := faults + 1, stuck + multiset{p}; }
    }

    /** assertStorageRoot, between opening this stage and the handler that would clean it up. */
    method CheckRootHolding(stage: Path) returns (threw: bool)
      modifies this`faults, this`strays
      ensures faults >= old(faults) && (threw ==> faults > old(faults))
      ensures strays == old(strays) + if threw then multiset{stage} else multiset{}
    {
      threw := *;
      if threw { faults, strays := faults + 1, strays + multiset{stage}; }
    }

    /** Anything outside the model that can go wrong between two calls. */
    method Trouble() returns (trouble: bool)
      modifies this`faults
      ensures faults >= old(faults) && (trouble ==> faults > old(faults))
    {
      trouble := *;
      if trouble { faults := faults + 1; }
    }

    /** Runs one call whose complete effect is `full`. */
    method Attempt(full: Disk<C>) returns (io: Io)
      requires Valid() && WellFormed(full) && forall e :: Possible(full, [], e) ==> e == None
      modifies this`disk, this`faults
      ensures Valid() && Effect(old(disk), full, io, disk)
      ensures io.Failed? ==> io.code == EIO
      ensures faults >= old(faults) && (!io.Done? ==> faults > old(faults))
    {
      if * {
        disk := full;
        return Done;
      }
      faults := faults + 1;
      if * {
        if * { disk := full; }
        return Failed(EIO);
      }
      if * { disk := full; }
      RebootIsCrash(disk);
      var image :| CrashImage(disk, image);
      CrashWellFormed(disk, image);
      CrashKeeps(disk, image);
      disk := image;
      io := Crash;
    }

    method Mkdir(p: Path) returns (io: Io)
      requires Valid() && p != []
      modifies this`disk, this`faults
      ensures Valid()
      ensures faults >= old(faults)
      ensures !io.Done? && Reachable(old(disk), Parent(p)) && Visible(old(disk), p).None? ==> faults > old(faults)
      ensures !Reachable(old(disk), Parent(p)) ==> io == Failed(ENOENT) && disk == old(disk)
      ensures Reachable(old(disk), Parent(p)) && Visible(old(disk), p).Some? ==> io == Failed(EEXIST) && disk == old(disk)
      ensures Reachable(old(disk), Parent(p)) && Visible(old(disk), p).None? ==>
                Effect(old(disk), WithDirectory(old(disk), p), io, disk) && io != Failed(EEXIST) && io != Failed(ENOENT)
    {
      if !Reachable(disk, Parent(p)) { return Failed(ENOENT); }
      if p in disk.entries { return Failed(EEXIST); }
      WithDirectoryWellFormed(disk, p);
      var full := WithDirectory(disk, p);
      assert forall e :: Possible(full, [], e) ==> Possible(disk, [], e);
      io := Attempt(full);
    }

    /** open + fsync + close of a directory. */
    method SyncDirectory(p: Path) returns (io: Io)
      requires Valid()
      modifies this`disk, this`faults
      ensures Valid()
      ensures faults >= old(faults) && (!io.Done? && Reachable(old(disk), p) ==> faults > old(faults))
      ensures !Reachable(old(disk), p) ==> io == Failed(ENOENT) && disk == old(disk)
      ensures Reachable(old(disk), p) ==>
                Effect(old(disk), SyncedDir(old(disk), p), io, disk) && io != Failed(ENOENT)
    {
      if !Reachable(disk, p) { return Failed(ENOENT); }
      var full := SyncedDir(disk, p);
      assert forall q, e :: Possible(full, q, e) ==> Possible(disk, q, e);
      ShrinkingWellFormed(disk, full);
      io := Attempt(full);
    }

    /** open(p, 'wx'): a failed open creates nothing. */
    method OpenExclusive(p: Path, mtime: int) returns (io: Io, ino: nat)
      requires Valid() && p != []
      modifies this`disk, this`faults
      ensures Valid() && ino !in old(disk).inodes
      ensures faults >= old(faults)
      ensures !io.Done? && Reachable(old(disk), Parent(p)) && Visible(old(disk), p).None? ==> faults > old(faults)
      ensures io.Failed? ==> disk == old(disk)
      ensures !io.Failed? ==> Reachable(old(disk), Parent(p)) && Visible(old(disk), p).None?
      ensures !io.Failed? ==>
                Effect(old(disk), SetEntry(WithInode(old(disk), ino, Inode(blank, false, mtime)), p, Some(File(ino))), io, disk)
    {
      assert FreshInode(disk.inodes.Keys) !in disk.inodes.Keys;
      ino :| ino !in disk.inodes.Keys;
      if !Reachable(disk, Parent(p)) { return Failed(ENOENT), ino; }
      if p in disk.entries { return Failed(EEXIST), ino; }
      var unable := Trouble();
      if unable { return Failed(EIO), ino; }
      var withInode := WithInode(disk, ino, Inode(blank, false, mtime));
      assert forall q, e :: Possible(withInode, q, e) <==> Possible(disk, q, e);
      SetEntryWellFormed(withInode, p, Some(File(ino)));
      var full := SetEntry(withInode, p, Some(File(ino)));
      assert forall e :: Possible(full, [], e) ==> Possible(disk, [], e);
      if * {
        disk := full;
        return Done, ino;
      }
      faults := faults + 1;
      if * { disk := full; }
      RebootIsCrash(disk);
      var image :| CrashImage(disk, image);
      CrashWellFormed(disk, image);
      CrashKeeps(disk, image);
      disk := image;
      io := Crash;
    }

    /** Writing leaves the bytes unsynced; a write that fails leaves any bytes. */
    method WriteFile(ino: nat, content: C) returns (io: Io, ghost written: C)
      requires Valid() && ino in disk.inodes
      modifies this`disk, this`faults
      ensures Valid() && faults >= old(faults) && (!io.Done? ==> faults > old(faults))
      ensures io.Done? ==> written == content
      ensures Effect(old(disk), WithInode(old(disk), ino, old(disk).inodes[ino].(content := written, synced := false)), io, disk)
    {
      var actual := content;
      if * {
        actual := *;
        if actual != content { faults := faults + 1; }
      }
      written := actual;
      var full := WithInode(disk, ino, disk.inodes[ino].(content := actual, synced := false));
      assert forall q, e :: Possible(full, q, e) <==> Possible(disk, q, e);
      ShrinkingWellFormed(disk, full);
      io := Attempt(full);
      if io.Done? && actual != content { io := Failed(EIO); }
    }

    method SyncFile(ino: nat) returns (io: Io)
      requires Valid() && ino in disk.inodes
      modifies this`disk, this`faults
      ensures Valid() && faults >= old(faults) && (!io.Done? ==> faults > old(faults))
      ensures Effect(old(disk), WithInode(old(disk), ino, old(disk).inodes[ino].(synced := true)), io, disk)
    {
      var full := WithInode(disk, ino, disk.inodes[ino].(synced := true));
      assert forall q, e :: Possible(full, q, e) <==> Possible(disk, q, e);
      ShrinkingWellFormed(disk, full);
      io := Attempt(full);
    }

    method Rename(source: Path, destination: Path) returns (io: Io)
      requires Valid() && source != [] && destination != [] && source != destination
      modifies this`disk, this`faults
      ensures Valid()
      ensures io.Done? ==> source in old(disk).entries
      ensures faults >= old(faults)
      ensures !io.Done? && source in old(disk).entries && Visible(old(disk), destination) != Some(Directory) ==> faults > old(faults)
      ensures source !in old(disk).entries || Visible(old(disk), destination) == Some(Directory) ==>
                io.Failed? && disk == old(disk)
      ensures source in old(disk).entries && Visible(old(disk), destination) != Some(Directory) ==>
                Effect(old(disk), Renamed(old(disk), source, destination), io, disk)
    {
      if source !in disk.entries { return Failed(ENOENT); }
      if Visible(disk, destination) == Some(Directory) { return Failed(EIO); }
      assert Possible(disk, source, Some(disk.entries[source]));
      SetEntryWellFormed(disk, destination, Some(disk.entries[source]));
      var linked := SetEntry(disk, destination, Some(disk.entries[source]));
      SetEntryWellFormed(linked, source, None);
      var full := Renamed(disk, source, destination);
      assert forall e :: Possible(full, [], e) ==> Possible(disk, [], e);
      io := Attempt(full);
    }

    /**
     unlink and rmdir: ENOENT and ENOTEMPTY are reported only when true; ENOENT for an entry that
     was there means that someone else removed it first.
     */
    method Remove(p: Path, directory: bool) returns (io: Io)
      requires Valid() && p != []
      modifies this`disk, this`faults, this`stuck
      ensures Valid()
      ensures faults >= old(faults)
      ensures stuck == old(stuck) + if io.Failed? && p in disk.entries then multiset{p} else multiset{}
      ensures !io.Done? && CanRemove(old(disk), p, directory) ==> faults > old(faults)
      ensures p in old(disk).entries && (old(disk).entries[p] == Directory) == directory && directory && HasChild(old(disk), p) ==>
                io == Failed(ENOTEMPTY)
      ensures p !in old(disk).entries ==> io == Failed(ENOENT) && disk == old(disk)
      ensures io == Failed(ENOENT) ==> p !in disk.entries
      ensures CanRemove(old(disk), p, directory) ==>
                Effect(old(disk), SetEntry(old(disk), p, None), io, disk) && io != Failed(ENOTEMPTY)
      ensures p in old(disk).entries && !CanRemove(old(disk), p, directory) ==> io.Failed? && disk == old(disk)
      ensures p in old(disk).entries && (io == Failed(ENOTEMPTY) || io == Failed(EEXIST)) ==> directory && HasChild(old(disk), p)
    {
      if p !in disk.entries { return Failed(ENOENT); }
      if !CanRemove(disk, p, directory) {
        stuck := stuck + multiset{p};
        return Failed(if directory && HasChild(disk, p) && disk.entries[p] == Directory then ENOTEMPTY else EIO);
      }
      SetEntryWellFormed(disk, p, None);
      var full := SetEntry(disk, p, None);
      assert forall e :: Possible(full, [], e) ==> Possible(disk, [], e);
      if * {
        disk := full;
        faults := faults + 1;
        return Failed(ENOENT);
      }
      io := Attempt(full);
      if io.Failed? && p in disk.entries { stuck := stuck + multiset{p}; }
    }
  }

  /** unlink takes anything but a directory, rmdir an empty directory. */
  predicate CanRemove<C>(d: Disk<C>, p: Path, directory: bool) {
    p in d.entries && (d.entries[p] == Directory) == directory && !(directory && HasChild(d, p))
  }

  predicate HasChild<C>(d: Disk<C>, p: Path) {
    exists q :: q in d.entries && q != [] && Parent(q) == p
  }

  ghost function FreshInode(used: set<nat>): (ino: nat)
    ensures ino !in used
  {
    Bound(used)
  }

  ghost function Bound(used: set<nat>): (b: nat)
    ensures forall i :: i in used ==> i < b
  {
    if used == {} then 0 else
      var i := Any(used);
      var rest := Bound(used - {i});
      assert forall j :: j in used ==> j == i || j in used - {i};
      if i < rest then rest else i + 1
  }

  ghost function Any(s: set<nat>): nat
    requires s != {}
  {
    var x :| x in s; x
  }
}
