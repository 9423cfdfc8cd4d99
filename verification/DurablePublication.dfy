/** durablyPublishFile (server-storage.ts): a publication that trusts its directory and always clears its stage's path. */
module DurablePublication {
  import opened Wrappers
  import opened Volumes
  import opened SystemCalls
  import opened Publication
  import opened Removal

  /** Open, write, fsync, close: a failed open stages nothing. */
  method Stage<C(0,==)>(vol: Volume<C>, temp: Path, data: C, mtime: int) returns (o: Outcome<()>, ghost ino: nat)
    requires vol.Valid() && temp != []
    modifies vol`disk, vol`faults
    ensures vol.Valid() && ino !in old(vol.disk).inodes
    ensures Keeps(old(vol.disk), vol.disk, {temp})
    ensures forall p, e :: p != temp && Possible(vol.disk, p, e) ==> Possible(old(vol.disk), p, e)
    ensures !o.Crashed? ==> forall p :: p != temp ==> Visible(vol.disk, p) == Visible(old(vol.disk), p)
    ensures o.Returned? ==> StageOwned(vol.disk, temp, ino) && HoldsSynced(vol.disk, ino, data)
    ensures temp in old(vol.disk).entries ==> o.Threw? && vol.disk == old(vol.disk)
    ensures vol.faults >= old(vol.faults)
    ensures !o.Returned? && temp !in old(vol.disk).entries && Reachable(old(vol.disk), Parent(temp)) ==> vol.faults > old(vol.faults)
    ensures o.Threw? && Visible(vol.disk, temp) != Visible(old(vol.disk), temp) ==> Visible(vol.disk, temp) == Some(File(ino))
  {
    ghost var start := vol.disk;
    var io, inode := vol.OpenExclusive(temp, mtime);
    ino := inode;
    if io.Failed? {
      KeepsItself(start, {temp});
      return Threw, ino;
    }
    ghost var withStage := vol.disk;
    OpenStep(start, start, withStage, io, temp, ino, vol.blank, mtime, []) by { KeepsItself(start, {}); }
    if io.Crash? { return Crashed, ino; }
    var written := StageBytes(vol, inode, data);
    KeepsIsTransitive(start, withStage, vol.disk, {temp}, {});
    assert {temp} + {} == {temp};
    if written.Crashed? { return Crashed, ino; }
    if written.Threw? { return Threw, ino; }
    o := Returned(());
  }

  /** What it may leave behind, however it ended. */
  ghost predicate OnlyPlaced<C>(pre: Disk<C>, post: Disk<C>, file: Path, temp: Path, ino: nat, data: C) {
    && OnlyPublishes(pre, post, file, temp, ino)
    && (Possible(post, file, Some(File(ino))) ==> HoldsSynced(post, ino, data))
  }

  lemma StagedThenRenamed<C>(pre: Disk<C>, staged: Disk<C>, post: Disk<C>, file: Path, temp: Path, ino: nat)
    requires temp != file && Keeps(pre, staged, {temp}) && OnlyPublishes(staged, post, file, temp, ino)
    requires forall p, e :: p != temp && Possible(staged, p, e) ==> Possible(pre, p, e)
    ensures OnlyPublishes(pre, post, file, temp, ino)
  {
    KeepsIsTransitive(pre, staged, post, {temp}, {file, temp});
    assert {temp} + {file, temp} == {file, temp};
  }

  lemma CleanedUp<C>(pre: Disk<C>, placed: Disk<C>, post: Disk<C>, file: Path, temp: Path, ino: nat, data: C)
    requires temp != file && OnlyPlaced(pre, placed, file, temp, ino, data) && Keeps(placed, post, {temp})
    requires forall p, e :: p != temp && Possible(post, p, e) ==> Possible(placed, p, e)
    ensures OnlyPlaced(pre, post, file, temp, ino, data)
  {
    KeepsIsTransitive(pre, placed, post, {file, temp}, {temp});
    assert {file, temp} + {temp} == {file, temp};
  }

  /** The finally block: whatever is at the stage's path goes, unless its removal fails. */
  method ClearStage<C(0,==)>(vol: Volume<C>, temp: Path) returns (crashed: bool)
    requires vol.Valid() && temp != []
    modifies vol
    ensures vol.Valid() && Keeps(old(vol.disk), vol.disk, {temp})
    ensures forall p, e :: p != temp && Possible(vol.disk, p, e) ==> Possible(old(vol.disk), p, e)
    ensures !crashed ==> forall p :: p != temp ==> Visible(vol.disk, p) == Visible(old(vol.disk), p)
    ensures !crashed ==>
              if !Exists(old(vol.disk), temp) then vol.disk == old(vol.disk) && vol.stuck == old(vol.stuck)
              else vol.stuck == old(vol.stuck) + if temp in vol.disk.entries then multiset{temp} else multiset{}
    ensures vol.faults >= old(vol.faults) && (crashed ==> vol.faults > old(vol.faults))
  {
    crashed := false;
    ghost var start := vol.disk;
    KeepsItself(start, {temp});
    if !Exists(vol.disk, temp) { return; }
    var io := vol.Remove(temp, false);
    if start.entries[temp].File? { UnlinkStep(start, vol.disk, io, temp); }
    crashed := io.Crash?;
  }

  /** What the cleanup does to a file that somebody else staged: gone, unless its removal fails. */
  ghost predicate Lost<C>(pre: Disk<C>, post: Disk<C>, temp: Path) { temp in pre.entries && temp !in post.entries }

  /**
   durablyPublishFile. Its cleanup does not ask whose stage it is: when something was at the stage's
   path the open fails, the call throws, and that other file is lost unless its removal fails.
   */
  method DurablyPublishFile<C(0,==)>(vol: Volume<C>, file: Path, data: C, tempName: string, mtime: int, refused: bool)
    returns (o: Outcome<bool>, ghost ino: nat)
    requires vol.Valid() && file != [] && tempName != file[|file| - 1]
    modifies vol
    ensures vol.Valid() && ino !in old(vol.disk).inodes
    ensures OnlyPlaced(old(vol.disk), vol.disk, file, Parent(file) + [tempName], ino, data)
    ensures o == Returned(true) ==> Visible(vol.disk, file) == Some(File(ino))
    ensures o == Returned(true) && DurableDir(old(vol.disk), Parent(file)) ==> DurableFile(vol.disk, file, data)
    ensures o == Returned(false) ==> refused && !Possible(vol.disk, file, Some(File(ino)))
    ensures !o.Crashed? && Possible(vol.disk, file, Some(File(ino))) ==> Visible(vol.disk, file) == Some(File(ino))
    // on every exit nothing is found at the stage's path, but where its removal failed
    ensures !o.Crashed? && Exists(vol.disk, Parent(file) + [tempName]) ==>
              vol.stuck[Parent(file) + [tempName]] > old(vol.stuck)[Parent(file) + [tempName]]
    // another writer's file at that path: the call throws, and the file is lost exactly when its removal did not fail
    ensures Parent(file) + [tempName] in old(vol.disk).entries && !o.Crashed? ==> o.Threw?
    ensures !o.Crashed? && Reachable(old(vol.disk), Parent(file)) ==>
              (Lost(old(vol.disk), vol.disk, Parent(file) + [tempName]) <==>
               Parent(file) + [tempName] in old(vol.disk).entries && vol.stuck == old(vol.stuck))
    ensures vol.faults >= old(vol.faults)
    ensures vol.faults == old(vol.faults) && !refused && Parent(file) + [tempName] !in old(vol.disk).entries
            && Reachable(old(vol.disk), Parent(file)) && Visible(old(vol.disk), file) != Some(Directory) ==>
              o == Returned(true)
  {
    hide Effect, CrashImage, Settled;
    ghost var start := vol.disk;
    var temp := Parent(file) + [tempName];
    assert temp != file && Parent(temp) == Parent(file);
    var staged;
    staged, ino := Stage(vol, temp, data, mtime);
    ghost var after := vol.disk;
    assert !Possible(start, file, Some(File(ino))) && !Possible(after, file, Some(File(ino)));
    KeepsItself(after, {file, temp});
    StagedThenRenamed(start, after, after, file, temp, ino);
    if staged.Crashed? { return Crashed, ino; }
    o := Threw;
    if staged.Returned? {
      if refused {
        o := Returned(false);  // beforeRename said no
      } else {
        KeepsItself(after, {});
        if Reachable(start, Parent(file)) { ReachableAfterOpen(start, after, temp, Parent(file)); }
        var renamed := RenameStage(vol, file, temp, ino, data, after);
        StagedThenRenamed(start, after, vol.disk, file, temp, ino);
        if renamed.Crashed? { return Crashed, ino; }
        o := if renamed.Threw? then Threw else Returned(true);
        if DurableDir(start, Parent(file)) { StageNotAbove(start, after, temp, Parent(file)); }
      }
    }
    ghost var placed := vol.disk;
    var crashed := ClearStage(vol, temp);
    CleanedUp(start, placed, vol.disk, file, temp, ino, data);
    if crashed { return Crashed, ino; }
    NotFoundOrStuck(placed, vol.disk, temp);
    if o == Returned(true) && DurableDir(start, Parent(file)) {
      assert DurableAt(vol.disk, file, File(ino));
    }
  }

  /** A path that the cleanup did not find is not found after it either. */
  lemma NotFoundOrStuck<C>(placed: Disk<C>, post: Disk<C>, temp: Path)
    requires temp != [] && forall p :: p != temp ==> Visible(post, p) == Visible(placed, p)
    requires !Exists(placed, temp) ==> post == placed
    ensures Exists(post, temp) ==> Exists(placed, temp) && temp in post.entries
  {
  }

  lemma StageNotAbove<C>(pre: Disk<C>, post: Disk<C>, temp: Path, dir: Path)
    requires Keeps(pre, post, {temp}) && DurableDir(pre, dir) && temp != [] && Parent(temp) == dir
    ensures DurableDir(post, dir)
  {
    KeepsDurableDir(pre, post, {temp}, dir);
  }
}
