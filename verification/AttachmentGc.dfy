/**
 Orphan collection (server-attachments.ts): walk the attachment tree, remove old files that no
 document references, prune emptied directories, and fsync each visited directory once.
 */
module AttachmentGc {
  import opened Wrappers
  import opened Volumes
  import opened SystemCalls
  import opened Publication
  import opened Removal
  import Docs = Attachments
  import Keys = AttachmentKeys

  /**
   The attachment root, the root-relative keys to keep, the newest mtime that may go, and how a
   root-relative path becomes a key (None when it does not normalize).
   */
  datatype Pass = Pass(root: Path, keep: set<string>, cutoff: int, key: Path -> Option<string>)

  function RelativeKey(pass: Pass, p: Path): Option<string>
    requires pass.root <= p
  {
    pass.key(p[|pass.root|..])
  }

  /** Exactly the files that a pass removes: old, with a name that normalizes, to a key nobody keeps. */
  predicate Doomed<C>(d: Disk<C>, pass: Pass, p: Path) {
    && pass.root < p && p in d.entries && d.entries[p].File? && d.entries[p].ino in d.inodes
    && d.inodes[d.entries[p].ino].mtime <= pass.cutoff
    && RelativeKey(pass, p).Some? && RelativeKey(pass, p).value !in pass.keep
  }

  predicate MayGo<C>(d: Disk<C>, pass: Pass, p: Path) {
    pass.root < p && p in d.entries && (d.entries[p] == Directory || Doomed(d, pass, p))
  }

  function Removable<C>(d: Disk<C>, pass: Pass): set<Path> {
    set p | p in d.entries && MayGo(d, pass, p)
  }

  function LiveFiles<C>(d: Disk<C>, top: Path): set<Path> {
    set p | p in d.entries && p != [] && top <= p && d.entries[p].File? && Reachable(d, Parent(p))
  }

  function DoomedFiles<C>(d: Disk<C>, pass: Pass, top: Path): set<Path> {
    set p | p in LiveFiles(d, top) && Doomed(d, pass, p)
  }

  function SparedFiles<C>(d: Disk<C>, pass: Pass, top: Path): set<Path> {
    set p | p in LiveFiles(d, top) && !Doomed(d, pass, p)
  }

  /** Everything a pass below `dir` may do, even when a crash cuts it. */
  ghost predicate SafelySwept<C>(pre: Disk<C>, post: Disk<C>, pass: Pass, dir: Path) {
    && Keeps(pre, post, Removable(pre, pass))
    && forall p, e :: Possible(post, p, e) ==>
         Possible(pre, p, e) || (e == None && dir < p && MayGo(pre, pass, p))
  }

  /** ... and when nothing does. */
  ghost predicate Swept<C>(pre: Disk<C>, post: Disk<C>, pass: Pass, dir: Path) {
    && SafelySwept(pre, post, pass, dir)
    && post.inodes == pre.inodes && StaysInView(pre, post)
    && (forall p :: p in post.entries ==> p in pre.entries && post.entries[p] == pre.entries[p])
    && (forall p :: p in pre.entries && p !in post.entries ==> dir < p && MayGo(pre, pass, p))
    && SettlesOnlyBelow(pre, post, dir)
  }

  /** Outside this directory, a crash can still show whatever it could before. */
  ghost predicate SettlesOnlyBelow<C>(pre: Disk<C>, post: Disk<C>, dir: Path) {
    forall p, e :: !(dir < p) && Possible(pre, p, e) ==> Possible(post, p, e)
  }

  ghost predicate OnlyUnder<C>(pre: Disk<C>, post: Disk<C>, top: Path) {
    forall p :: !(top <= p) ==>
      Visible(post, p) == Visible(pre, p) && forall e :: Possible(post, p, e) ==> Possible(pre, p, e)
  }

  /** Nothing doomed is left at or below top, and strictly below it the medium shows what readers see. */
  ghost predicate Clean<C>(d: Disk<C>, pass: Pass, top: Path) {
    && DoomedFiles(d, pass, top) == {}
    && forall p :: top < p && Reachable(d, Parent(p)) ==> Settled(d, p)
  }

  lemma SweptIsTransitive<C>(a: Disk<C>, b: Disk<C>, c: Disk<C>, pass: Pass, dir: Path, lower: Path)
    requires Swept(a, b, pass, dir) && SafelySwept(b, c, pass, lower) && dir <= lower
    ensures SafelySwept(a, c, pass, dir)
    ensures Swept(b, c, pass, lower) ==> Swept(a, c, pass, dir)
  {
    assert Removable(b, pass) <= Removable(a, pass);
    KeepsIsTransitive(a, b, c, Removable(a, pass), Removable(b, pass));
    assert Removable(a, pass) + Removable(b, pass) == Removable(a, pass);
  }

  lemma {:induction false} ReachableOutside<C>(pre: Disk<C>, post: Disk<C>, top: Path, q: Path)
    requires forall p :: !(top <= p) ==> Visible(post, p) == Visible(pre, p)
    requires !(top <= q)
    ensures Reachable(post, q) <==> Reachable(pre, q)
    decreases |q|
  {
    if q != [] {
      ReachableOutside(pre, post, top, Parent(q));
    }
  }

  lemma Siblings(top: Path, sibling: Path, p: Path)
    requires |top| == |sibling| > 0 && top != sibling && sibling <= p
    ensures !(top <= p) && !(top <= Parent(p))
  {
    assert sibling == p[..|sibling|];
  }

  lemma SiblingFiles<C>(pre: Disk<C>, post: Disk<C>, pass: Pass, top: Path, sibling: Path)
    requires OnlyUnder(pre, post, top) && post.inodes == pre.inodes
    requires |top| == |sibling| > 0 && top != sibling
    ensures LiveFiles(post, sibling) == LiveFiles(pre, sibling)
    ensures DoomedFiles(post, pass, sibling) == DoomedFiles(pre, pass, sibling)
  {
    forall p | sibling <= p && p != []
      ensures p in LiveFiles(post, sibling) <==> p in LiveFiles(pre, sibling)
      ensures Doomed(post, pass, p) <==> Doomed(pre, pass, p)
    {
      Siblings(top, sibling, p);
      assert Visible(post, p) == Visible(pre, p);
      ReachableOutside(pre, post, top, Parent(p));
    }
  }

  /** Work under one child leaves a clean sibling clean. */
  lemma SiblingStaysClean<C>(pre: Disk<C>, post: Disk<C>, pass: Pass, top: Path, sibling: Path)
    requires OnlyUnder(pre, post, top) && post.inodes == pre.inodes && Clean(pre, pass, sibling)
    requires |top| == |sibling| > 0 && top != sibling
    ensures Clean(post, pass, sibling)
  {
    SiblingFiles(pre, post, pass, top, sibling);
    forall p | sibling < p && Reachable(post, Parent(p)) ensures Settled(post, p) {
      Siblings(top, sibling, p);
      ReachableOutside(pre, post, top, Parent(p));
    }
  }

  /** What became of one visited file. */
  datatype Verdict = Kept | Deleted | Missing | Refused(code: Errno)

  /** Which files the counters of a pass stand for. */
  datatype Books = Books(
    seen: set<Path>,      // every file visited
    removed: set<Path>,   // unlinked by this pass
    vanished: set<Path>,  // gone before this pass could unlink them
    failed: set<Path>)    // their removal ended in an error
  {
    function Gone(): set<Path> { removed + vanished }
    function Tried(): set<Path> { removed + vanished + failed }
    function Kept(): set<Path> { seen - removed - vanished - failed }

    /** Every file visited has one fate. */
    ghost predicate Consistent() {
      && removed <= seen && vanished <= seen && failed <= seen
      && removed !! vanished && removed !! failed && vanished !! failed
    }

    function With(p: Path, verdict: Verdict): Books {
      Books(seen + {p},
            if verdict.Deleted? then removed + {p} else removed,
            if verdict.Missing? then vanished + {p} else vanished,
            if verdict.Refused? then failed + {p} else failed)
    }

    /** The four fates add up to the files visited. */
    lemma Sizes()
      requires Consistent()
      ensures |seen| == |Kept()| + |removed| + |failed| + |vanished|
    {
      assert seen == Kept() + removed + failed + vanished;
    }
  }

  const NO_BOOKS := Books({}, {}, {}, {})

  lemma WithCounts(books: Books, p: Path, verdict: Verdict)
    requires books.Consistent() && p !in books.seen
    ensures books.With(p, verdict).Consistent() && OnlyCounted(books, books.With(p, verdict))
    ensures books.With(p, verdict).seen == books.seen + {p}
    ensures books.With(p, verdict).Kept() == books.Kept() + (if verdict.Kept? then {p} else {})
    ensures books.With(p, verdict).Tried() == books.Tried() + (if verdict.Kept? then {} else {p})
    ensures books.With(p, verdict).Gone() == books.Gone() + (if verdict.Deleted? || verdict.Missing? then {p} else {})
    ensures books.With(p, verdict).failed == books.failed + (if verdict.Refused? then {p} else {})
  {
    var after := books.With(p, verdict);
    assert after.Consistent() && OnlyCounted(books, after);
    assert after.Kept() == books.Kept() + (if verdict.Kept? then {p} else {});
    assert after.Tried() == books.Tried() + (if verdict.Kept? then {} else {p});
    assert after.Gone() == books.Gone() + (if verdict.Deleted? || verdict.Missing? then {p} else {});
  }

  lemma WithSizes(books: Books, p: Path, verdict: Verdict)
    requires books.Consistent() && p !in books.seen
    ensures |books.With(p, verdict).seen| == |books.seen| + 1
    ensures |books.With(p, verdict).removed| == |books.removed| + if verdict.Deleted? then 1 else 0
    ensures |books.With(p, verdict).Kept()| == |books.Kept()| + if verdict.Kept? then 1 else 0
  {
    WithCounts(books, p, verdict);
    assert p !in books.removed && p !in books.Kept();
  }

  /** No file that was in the books left them. */
  ghost predicate OnlyCounted(before: Books, after: Books) {
    before.seen <= after.seen && before.removed <= after.removed && before.vanished <= after.vanished && before.failed <= after.failed
  }

  /** An entry of the error list: what could not be read, removed or synced, and why. */
  datatype Problem = Problem(path: Path, code: Errno)

  /** The error list has an entry for this very path. */
  ghost predicate Named(errors: seq<Problem>, p: Path) {
    exists k :: 0 <= k < |errors| && errors[k].path == p
  }

  /** The error list has an entry for this path or for a directory above it. */
  ghost predicate Reported(errors: seq<Problem>, p: Path) {
    exists k :: 0 <= k < |errors| && errors[k].path <= p
  }

  /** What garbageCollectOrphanAttachments returns. */
  datatype Report = Report(deleted: nat, errors: seq<Problem>, kept: nat, scanned: nat)

  /** The numbers of a report are those of the books, the fates add up, and every failed removal has its own error. */
  ghost predicate Counts(report: Report, books: Books) {
    && books.Consistent()
    && report.scanned == |books.seen| && report.deleted == |books.removed| && report.kept == |books.Kept()|
    && report.scanned == report.kept + report.deleted + |books.failed| + |books.vanished|
    && forall p :: p in books.failed ==> Named(report.errors, p)
  }

  /** The report once one more file has met its fate. */
  function Next(report: Report, p: Path, verdict: Verdict): Report {
    Report(report.deleted + if verdict.Deleted? then 1 else 0,
           if verdict.Refused? then report.errors + [Problem(p, verdict.code)] else report.errors,
           report.kept + if verdict.Kept? then 1 else 0,
           report.scanned + 1)
  }

  lemma Recorded(report: Report, books: Books, p: Path, verdict: Verdict)
    requires Counts(report, books) && p !in books.seen
    ensures Counts(Next(report, p, verdict), books.With(p, verdict))
  {
    hide Books.With, Books.Kept, Books.Consistent, Books.Gone, Books.Tried, OnlyCounted, Named;
    WithCounts(books, p, verdict);
    WithSizes(books, p, verdict);
    books.With(p, verdict).Sizes();
    RecordedNames(report, books, p, verdict);
  }

  lemma RecordedNames(report: Report, books: Books, p: Path, verdict: Verdict)
    requires forall q :: q in books.failed ==> Named(report.errors, q)
    ensures forall q :: q in books.With(p, verdict).failed ==> Named(Next(report, p, verdict).errors, q)
  {
    if verdict.Refused? {
      Appended(report.errors, [Problem(p, verdict.code)]);
      assert (report.errors + [Problem(p, verdict.code)])[|report.errors|].path == p;
    }
  }

  /** The counters of one pass. */
  class Tally {
    var deleted: nat
    var kept: nat
    var scanned: nat
    var errors: seq<Problem>
    ghost var books: Books

    ghost predicate Valid()
      reads this
    {
      Counts(Report(deleted, errors, kept, scanned), books)
    }

    constructor ()
      ensures Valid() && errors == [] && books == NO_BOOKS
    {
      deleted, kept, scanned, errors := 0, 0, 0, [];
      books := NO_BOOKS;
    }

    /** Counts one visited file. */
    method Record(p: Path, verdict: Verdict)
      requires Valid() && p !in books.seen
      modifies this
      ensures Valid()
      ensures books == old(books).With(p, verdict)
      ensures errors == if verdict.Refused? then old(errors) + [Problem(p, verdict.code)] else old(errors)
    {
      hide Counts, Named;
      Recorded(Report(deleted, errors, kept, scanned), books, p, verdict);
      scanned := scanned + 1;
      books := books.With(p, verdict);
      match verdict {
        case Kept => kept := kept + 1;
        case Deleted => deleted := deleted + 1;
        case Missing =>
        case Refused(code) => errors := errors + [Problem(p, code)];
      }
    }

    method AddProblem(p: Path, code: Errno)
      requires Valid()
      modifies this
      ensures Valid() && errors == old(errors) + [Problem(p, code)] && books == old(books) && Named(errors, p)
    {
      errors := errors + [Problem(p, code)];
      assert errors[|errors| - 1] == Problem(p, code);
      Appended(old(errors), [Problem(p, code)]);
    }
  }

  lemma Appended(errors: seq<Problem>, more: seq<Problem>)
    ensures forall p :: Named(errors, p) ==> Named(errors + more, p)
    ensures forall p :: Reported(errors, p) ==> Reported(errors + more, p)
  {
    assert forall k :: 0 <= k < |errors| ==> (errors + more)[k] == errors[k];
  }

  /** readdir: the names in a directory, each once. */
  method ReadDirectory<C(0,==)>(vol: Volume<C>, dir: Path) returns (ok: bool, names: seq<string>)
    modifies vol`faults
    ensures vol.faults >= old(vol.faults) && (!ok ==> vol.faults > old(vol.faults))
    ensures ok ==> forall n :: n in names <==> dir + [n] in vol.disk.entries
    ensures ok ==> forall i, j :: 0 <= i < j < |names| ==> names[i] != names[j]
  {
    var trouble := vol.Trouble();
    if trouble { return false, []; }
    names := [];
    ok := true;
    var children := set p | p in vol.disk.entries && p != [] && Parent(p) == dir;
    while children != {}
      invariant forall p :: p in children ==> p in vol.disk.entries && p != [] && Parent(p) == dir && p[|dir|] !in names
      invariant forall n :: n in names ==> dir + [n] in vol.disk.entries
      invariant forall p :: p in vol.disk.entries && p != [] && Parent(p) == dir ==> p in children || p[|dir|] in names
      invariant forall i, j :: 0 <= i < j < |names| ==> names[i] != names[j]
      decreases children
    {
      var p :| p in children;
      assert p == dir + [p[|dir|]];
      assert forall q :: q in children && q != p ==> q == dir + [q[|dir|]];
      names := names + [p[|dir|]];
      children := children - {p};
    }
    forall n | dir + [n] in vol.disk.entries ensures n in names {
      assert Parent(dir + [n]) == dir;
      assert (dir + [n])[|dir|] == n;
    }
  }

  // ---- the walk ----

  /** What a finished visit of the subtree at top owes when it recorded no new error. */
  ghost predicate Accounted<C>(before: Books, after: Books, pre: Disk<C>, post: Disk<C>, pass: Pass, top: Path) {
    && Clean(post, pass, top)
    && after.seen == before.seen + LiveFiles(pre, top)
    && after.Gone() == before.Gone() + DoomedFiles(pre, pass, top)
  }

  /**
   The books grew by live files of this subtree only: those to be kept as kept, and doomed ones as
   removed, as vanished or as failed.
   */
  ghost predicate Bounded<C>(start: Disk<C>, before: Books, after: Books, pass: Pass, top: Path) {
    && OnlyCounted(before, after)
    && (forall p :: p in after.seen ==> p in before.seen || top <= p)
    && after.seen <= before.seen + LiveFiles(start, top)
    && after.Tried() <= before.Tried() + DoomedFiles(start, pass, top)
    && after.Kept() <= before.Kept() + SparedFiles(start, pass, top)
  }

  /** Files booked as gone are gone, and a file that went away is in the books. */
  ghost predicate Explained<C>(pre: Disk<C>, post: Disk<C>, before: Books, after: Books) {
    && (forall p :: p in after.Gone() && p !in before.Gone() ==> p !in post.entries)
    && (forall p :: p in pre.entries && pre.entries[p].File? && p !in post.entries ==> p in after.Tried())
  }

  /** Every live file of the subtree was visited, or an error was recorded for it or above it. */
  ghost predicate Covered<C>(start: Disk<C>, after: Books, errors: seq<Problem>, top: Path) {
    forall p :: p in LiveFiles(start, top) ==> p in after.seen || Reported(errors, p)
  }

  lemma ExplainedThroughout<C>(a: Disk<C>, b: Disk<C>, c: Disk<C>, books: Books, books0: Books, books1: Books, pass: Pass, dir: Path)
    requires Explained(a, b, books, books0) && Explained(b, c, books0, books1) && OnlyCounted(books0, books1)
    requires Swept(a, b, pass, dir) && Swept(b, c, pass, dir)
    ensures Explained(a, c, books, books1)
  {
  }

  /** A step that changes no file and no book. */
  lemma NothingToExplain<C>(a: Disk<C>, b: Disk<C>, c: Disk<C>, before: Books, after: Books)
    requires Explained(a, b, before, after) && c.entries.Keys <= b.entries.Keys
    requires forall p :: p in b.entries && b.entries[p].File? ==> p in c.entries
    requires forall p :: p in b.entries ==> p in a.entries && b.entries[p] == a.entries[p]
    ensures Explained(a, c, before, after)
  {
  }

  lemma StillCovered<C>(start: Disk<C>, after: Books, errors: seq<Problem>, more: seq<Problem>, top: Path)
    requires Covered(start, after, errors, top)
    ensures Covered(start, after, errors + more, top)
  {
    Appended(errors, more);
  }

  /** The fate of a file: kept when referenced, unnameable or young, removed otherwise. */
  method Judge<C(0,==)>(vol: Volume<C>, pass: Pass, p: Path) returns (o: Outcome<Verdict>)
    requires vol.Valid()
    requires pass.root < p && p in vol.disk.entries && vol.disk.entries[p].File? && Reachable(vol.disk, Parent(p))
    requires vol.disk.entries[p].ino in vol.disk.inodes
    modifies vol
    ensures vol.Valid() && !o.Threw?
    ensures SafelySwept(old(vol.disk), vol.disk, pass, Parent(p)) && OnlyPossiblyRemoved(old(vol.disk), vol.disk, p)
    ensures !o.Crashed? ==>
              && Swept(old(vol.disk), vol.disk, pass, Parent(p))
              && (vol.disk.entries == old(vol.disk).entries || vol.disk.entries == old(vol.disk).entries - {p})
    ensures o.Returned? ==> (o.value.Kept? <==> !Doomed(old(vol.disk), pass, p))
    ensures o.Returned? && (o.value.Deleted? || o.value.Missing?) ==> p !in vol.disk.entries
    ensures vol.faults >= old(vol.faults)
    ensures vol.faults == old(vol.faults) ==> o == Returned(if Doomed(old(vol.disk), pass, p) then Deleted else Kept)
  {
    ghost var start := vol.disk;
    var key := RelativeKey(pass, p);
    if key.None? || key.value in pass.keep { return Returned(Kept); }
    if vol.disk.inodes[vol.disk.entries[p].ino].mtime > pass.cutoff { return Returned(Kept); }
    assert Exists(start, p);
    var removal, code := DurablyRemoveEntry(vol, p, false, false);
    RemovedFile(start, vol.disk, pass, p, !removal.Crashed?);
    if removal.Crashed? { return Crashed; }
    if removal.Threw? { return Returned(Refused(code)); }
    o := Returned(if removal.value then Deleted else Missing);
  }

  /** A single file is all there is at or below its path. */
  lemma FileStep<C>(pre: Disk<C>, post: Disk<C>, pass: Pass, p: Path)
    requires p != [] && p in pre.entries && pre.entries[p].File? && Reachable(pre, Parent(p))
    requires OnlyPossiblyRemoved(pre, post, p) && Swept(pre, post, pass, Parent(p))
    requires post.entries == pre.entries || post.entries == pre.entries - {p}
    ensures LiveFiles(pre, p) == {p} && DoomedFiles(pre, pass, p) == DoomedPart(pre, pass, p)
    ensures SparedFiles(pre, pass, p) == {p} - DoomedPart(pre, pass, p)
    ensures OnlyUnder(pre, post, p)
    ensures (Doomed(pre, pass, p) ==> p !in post.entries) ==> Clean(post, pass, p)
  {
    forall q | p <= q && q != p ensures !Reachable(pre, Parent(q)) && !Reachable(post, Parent(q)) {
      assert p <= Parent(q);
      NothingBelow(pre, p, Parent(q));
      NothingBelow(post, p, Parent(q));
    }
    if Doomed(pre, pass, p) ==> p !in post.entries {
      forall q | q in LiveFiles(post, p) ensures q == p {}
    }
  }

  /** Booking the verdict on a file keeps the books true. */
  lemma FileBooks<C>(pre: Disk<C>, post: Disk<C>, books: Books, pass: Pass, p: Path, verdict: Verdict)
    requires books.Consistent() && p !in books.seen && p in pre.entries
    requires LiveFiles(pre, p) == {p} && DoomedFiles(pre, pass, p) == DoomedPart(pre, pass, p)
    requires SparedFiles(pre, pass, p) == {p} - DoomedPart(pre, pass, p)
    requires verdict.Kept? <==> !Doomed(pre, pass, p)
    requires Swept(pre, post, pass, Parent(p)) && (post.entries == pre.entries || post.entries == pre.entries - {p})
    requires verdict.Deleted? || verdict.Missing? ==> p !in post.entries
    requires (Doomed(pre, pass, p) ==> p !in post.entries) ==> Clean(post, pass, p)
    ensures p in books.With(p, verdict).seen
    ensures Bounded(pre, books, books.With(p, verdict), pass, p) && Explained(pre, post, books, books.With(p, verdict))
    ensures !verdict.Refused? ==> Accounted(books, books.With(p, verdict), pre, post, pass, p)
  {
    hide Clean, LiveFiles, DoomedFiles, SparedFiles, Keeps, Reachable, Books.With, Books.Tried, Books.Gone, Books.Kept;
    WithCounts(books, p, verdict);
  }

  lemma FileCovered<C>(pre: Disk<C>, post: Disk<C>, after: Books, errors: seq<Problem>, pass: Pass, p: Path)
    requires LiveFiles(pre, p) == {p} && p in after.seen
    ensures Covered(pre, after, errors, p)
  {
  }

  lemma NoBooksNeeded<C>(d: Disk<C>, books: Books, pass: Pass, top: Path)
    ensures Bounded(d, books, books, pass, top) && Explained(d, d, books, books) && OnlyUnder(d, d, top)
  {
  }

  /** A part of a pass that met no fault: it ran to its end and missed no file. */
  ghost predicate Undisturbed(o: Outcome<()>, before: Books, after: Books) {
    o.Returned? && after.vanished == before.vanished
  }

  /** The part of the loop body that handles a file. */
  method VisitFile<C(0,==)>(vol: Volume<C>, tally: Tally, pass: Pass, p: Path) returns (o: Outcome<()>)
    requires vol.Valid() && tally.Valid()
    requires pass.root < p && p in vol.disk.entries && vol.disk.entries[p].File? && Reachable(vol.disk, Parent(p))
    requires vol.disk.entries[p].ino in vol.disk.inodes && p !in tally.books.seen
    modifies vol, tally
    ensures vol.Valid() && tally.Valid() && !o.Threw?
    ensures SafelySwept(old(vol.disk), vol.disk, pass, Parent(p))
    ensures !o.Crashed? ==> Swept(old(vol.disk), vol.disk, pass, Parent(p))
    ensures !o.Crashed? ==> OnlyUnder(old(vol.disk), vol.disk, p) && Explained(old(vol.disk), vol.disk, old(tally.books), tally.books)
    ensures Bounded(old(vol.disk), old(tally.books), tally.books, pass, p) && old(tally.errors) <= tally.errors
    ensures o.Returned? ==> Covered(old(vol.disk), tally.books, tally.errors, p)
    ensures o.Returned? && |tally.errors| == |old(tally.errors)| ==> Accounted(old(tally.books), tally.books, old(vol.disk), vol.disk, pass, p)
    ensures vol.faults >= old(vol.faults) && |tally.errors| - |old(tally.errors)| <= vol.faults - old(vol.faults)
    ensures vol.faults == old(vol.faults) ==> Undisturbed(o, old(tally.books), tally.books)
  {
    hide Explained, Covered, Accounted, Bounded, LiveFiles, DoomedFiles, SparedFiles, Keeps, Clean, Reachable, Doomed;
    hide Swept, SafelySwept, OnlyUnder, OnlyPossiblyRemoved;
    ghost var start, books := vol.disk, tally.books;
    NoBooksNeeded(start, books, pass, p);
    var verdict := Judge(vol, pass, p);
    if verdict.Crashed? { return Crashed; }
    FileStep(start, vol.disk, pass, p);
    FileBooks(start, vol.disk, books, pass, p, verdict.value);
    tally.Record(p, verdict.value);
    FileCovered(start, vol.disk, tally.books, tally.errors, pass, p);
    o := Returned(());
  }

  lemma RemovedFile<C>(pre: Disk<C>, post: Disk<C>, pass: Pass, p: Path, running: bool)
    requires p != [] && MayGo(pre, pass, p) && Keeps(pre, post, {p})
    requires forall q, e :: Possible(post, q, e) ==> Possible(pre, q, e) || (q == p && e == None)
    requires running ==> post.inodes == pre.inodes && StaysInView(pre, post) && StillPossible(pre, post)
    requires running ==> post.entries == pre.entries || post.entries == pre.entries - {p}
    ensures SafelySwept(pre, post, pass, Parent(p)) && OnlyPossiblyRemoved(pre, post, p)
    ensures running ==> Swept(pre, post, pass, Parent(p))
  {
    assert p in Removable(pre, pass);
  }

  function DoomedPart<C>(d: Disk<C>, pass: Pass, p: Path): set<Path> {
    if Doomed(d, pass, p) then {p} else {}
  }

  ghost predicate OnlyPossiblyRemoved<C>(pre: Disk<C>, post: Disk<C>, p: Path) {
    forall q, e :: q != p && Possible(post, q, e) ==> Possible(pre, q, e)
  }

  // ---- facts about one directory and its children ----

  lemma {:induction false} SweptKeepsReachable<C>(pre: Disk<C>, post: Disk<C>, dir: Path, q: Path)
    requires forall p :: p <= dir ==> Visible(post, p) == Visible(pre, p)
    requires q <= dir
    ensures Reachable(post, q) <==> Reachable(pre, q)
    decreases |q|
  {
    if q != [] {
      SweptKeepsReachable(pre, post, dir, Parent(q));
    }
  }

  lemma {:induction false} SameSubtreeReachable<C>(pre: Disk<C>, post: Disk<C>, child: Path, q: Path)
    requires child != [] && forall p :: p < child || child <= p ==> Visible(post, p) == Visible(pre, p)
    requires q < child || child <= q
    ensures Reachable(post, q) <==> Reachable(pre, q)
    decreases |q|
  {
    if q != [] {
      assert Parent(q) < child || child <= Parent(q);
      SameSubtreeReachable(pre, post, child, Parent(q));
    }
  }

  lemma UntouchedFiles<C>(pre: Disk<C>, post: Disk<C>, pass: Pass, child: Path)
    requires child != [] && forall p :: p < child || child <= p ==> Visible(post, p) == Visible(pre, p)
    requires post.inodes == pre.inodes
    ensures LiveFiles(post, child) == LiveFiles(pre, child)
    ensures DoomedFiles(post, pass, child) == DoomedFiles(pre, pass, child)
    ensures SparedFiles(post, pass, child) == SparedFiles(pre, pass, child)
  {
    forall p | child <= p
      ensures p in LiveFiles(post, child) <==> p in LiveFiles(pre, child)
      ensures Doomed(post, pass, p) <==> Doomed(pre, pass, p)
    {
      assert Visible(post, p) == Visible(pre, p);
      assert Parent(p) < child || child <= Parent(p);
      SameSubtreeReachable(pre, post, child, Parent(p));
    }
  }

  /** The child of dir that leads to p. */
  function Towards(dir: Path, p: Path): Path
    requires dir < p
  {
    p[..|dir| + 1]
  }

  lemma {:induction false} TowardsExists<C>(d: Disk<C>, dir: Path, p: Path)
    requires dir < p && p in d.entries && Reachable(d, Parent(p))
    ensures Towards(dir, p) in d.entries && Parent(Towards(dir, p)) == dir && Towards(dir, p) <= p
    decreases |p|
  {
    if Parent(p) != dir {
      TowardsExists(d, dir, Parent(p));
      assert Towards(dir, Parent(p)) == Towards(dir, p);
    } else {
      assert Towards(dir, p) == p;
    }
  }

  predicate UnderFirst(dir: Path, names: seq<string>, n: nat, p: Path)
    requires n <= |names|
  {
    exists k :: 0 <= k < n && dir + [names[k]] <= p
  }

  predicate UnderRest(dir: Path, names: seq<string>, n: nat, p: Path)
    requires n <= |names|
  {
    exists k :: n <= k < |names| && dir + [names[k]] <= p
  }

  function FirstLive<C>(d: Disk<C>, dir: Path, names: seq<string>, n: nat): set<Path>
    requires n <= |names|
  {
    set p | p in LiveFiles(d, dir) && UnderFirst(dir, names, n, p)
  }

  function FirstDoomed<C>(d: Disk<C>, pass: Pass, dir: Path, names: seq<string>, n: nat): set<Path>
    requires n <= |names|
  {
    set p | p in DoomedFiles(d, pass, dir) && UnderFirst(dir, names, n, p)
  }

  lemma OneMore<C>(d: Disk<C>, pass: Pass, dir: Path, names: seq<string>, n: nat)
    requires n < |names|
    ensures FirstLive(d, dir, names, n + 1) == FirstLive(d, dir, names, n) + LiveFiles(d, dir + [names[n]])
    ensures FirstDoomed(d, pass, dir, names, n + 1) == FirstDoomed(d, pass, dir, names, n) + DoomedFiles(d, pass, dir + [names[n]])
  {
    forall p
      ensures UnderFirst(dir, names, n + 1, p) <==> UnderFirst(dir, names, n, p) || dir + [names[n]] <= p
    {
    }
    forall p | p in LiveFiles(d, dir + [names[n]]) ensures dir <= p {
      assert dir == (dir + [names[n]])[..|dir|];
    }
  }

  ghost predicate Lists<C>(d: Disk<C>, dir: Path, names: seq<string>) {
    && (forall n :: n in names <==> dir + [n] in d.entries)
    && (forall i, j :: 0 <= i < j < |names| ==> names[i] != names[j])
  }

  lemma LiveUnderSomeChild<C>(d: Disk<C>, dir: Path, names: seq<string>, p: Path)
    requires dir < p && p in d.entries && Reachable(d, Parent(p))
    requires forall n :: dir + [n] in d.entries ==> n in names
    ensures UnderFirst(dir, names, |names|, p)
  {
    TowardsExists(d, dir, p);
    var child := Towards(dir, p);
    assert child == dir + [p[|dir|]];
    var k :| 0 <= k < |names| && names[k] == p[|dir|];
    assert dir + [names[k]] <= p;
  }

  lemma AllListed<C>(d: Disk<C>, pass: Pass, dir: Path, names: seq<string>)
    requires Lists(d, dir, names) && Reachable(d, dir)
    ensures FirstLive(d, dir, names, |names|) == LiveFiles(d, dir)
    ensures FirstDoomed(d, pass, dir, names, |names|) == DoomedFiles(d, pass, dir)
  {
    forall p | p in LiveFiles(d, dir) ensures UnderFirst(dir, names, |names|, p) {
      assert p != dir;
      LiveUnderSomeChild(d, dir, names, p);
    }
  }

  /** Clean children and a synced directory make a clean directory. */
  lemma CleanDirectory<C>(pre: Disk<C>, d: Disk<C>, pass: Pass, dir: Path, names: seq<string>)
    requires Lists(pre, dir, names) && d.entries.Keys <= pre.entries.Keys
    requires Reachable(d, dir)
    requires forall k :: 0 <= k < |names| ==> Clean(d, pass, dir + [names[k]])
    ensures Clean(SyncedDir(d, dir), pass, dir)
  {
    var post := SyncedDir(d, dir);
    forall p | dir < p && Reachable(post, Parent(p)) ensures Settled(post, p) {
      if Parent(p) == dir {
        SyncSettles(d, p);
      } else {
        SameEntriesReachable(d, post, Parent(p));
        SettledBelowChild(pre, d, pass, dir, names, p);
        assert forall e :: Possible(post, p, e) ==> Possible(d, p, e);
      }
    }
    forall p | p in DoomedFiles(post, pass, dir) ensures p in FirstDoomed(d, pass, dir, names, |names|) {
      SameEntriesReachable(d, post, Parent(p));
      assert p != dir;
      LiveUnderSomeChild(d, dir, names, p);
    }
    NoDoomedLeft(d, pass, dir, names, |names|);
  }

  lemma SettledBelowChild<C>(pre: Disk<C>, d: Disk<C>, pass: Pass, dir: Path, names: seq<string>, p: Path)
    requires Lists(pre, dir, names) && d.entries.Keys <= pre.entries.Keys
    requires forall k :: 0 <= k < |names| ==> Clean(d, pass, dir + [names[k]])
    requires dir < p && Parent(p) != dir && Reachable(d, Parent(p))
    ensures Settled(d, p)
  {
    LiveUnderSomeChild(d, dir, names, Parent(p));
    var k :| 0 <= k < |names| && dir + [names[k]] <= Parent(p);
    assert dir + [names[k]] < p;
    assert Clean(d, pass, dir + [names[k]]);
  }

  lemma {:induction false} NoDoomedLeft<C>(d: Disk<C>, pass: Pass, dir: Path, names: seq<string>, n: nat)
    requires n <= |names| && forall k :: 0 <= k < n ==> DoomedFiles(d, pass, dir + [names[k]]) == {}
    ensures FirstDoomed(d, pass, dir, names, n) == {}
  {
    if n > 0 {
      NoDoomedLeft(d, pass, dir, names, n - 1);
      OneMore(d, pass, dir, names, n - 1);
    }
  }

  // ---- visit ----

  /** The loop body of visit: one entry of a directory. */
  method VisitEntry<C(0,==)>(vol: Volume<C>, tally: Tally, pass: Pass, child: Path, ghost bound: nat) returns (o: Outcome<()>)
    requires vol.Valid() && tally.Valid()
    requires pass.root < child && child in vol.disk.entries && Reachable(vol.disk, Parent(child))
    requires forall p :: p in vol.disk.entries ==> |p| <= bound
    requires forall p :: p in tally.books.seen ==> !(child <= p)
    modifies vol, tally
    ensures vol.Valid() && tally.Valid()
    ensures SafelySwept(old(vol.disk), vol.disk, pass, Parent(child))
    ensures !o.Crashed? ==> Swept(old(vol.disk), vol.disk, pass, Parent(child)) && OnlyUnder(old(vol.disk), vol.disk, child)
    ensures Bounded(old(vol.disk), old(tally.books), tally.books, pass, child) && old(tally.errors) <= tally.errors
    ensures !o.Crashed? ==> Explained(old(vol.disk), vol.disk, old(tally.books), tally.books)
    ensures o.Returned? ==> Covered(old(vol.disk), tally.books, tally.errors, child)
    ensures o.Returned? && |tally.errors| == |old(tally.errors)| ==> Accounted(old(tally.books), tally.books, old(vol.disk), vol.disk, pass, child)
    ensures vol.faults >= old(vol.faults) && |tally.errors| - |old(tally.errors)| <= vol.faults - old(vol.faults)
    ensures vol.faults == old(vol.faults) ==> Undisturbed(o, old(tally.books), tally.books)
    decreases bound - |child|, 1, 0
  {
    hide Explained, Covered, Accounted, Bounded, LiveFiles, DoomedFiles, SparedFiles, Keeps, Clean, Reachable, Doomed, Named, Reported;
    hide Swept, SafelySwept, OnlyUnder, Counts;
    ghost var start := vol.disk;
    NothingSwept(start, pass, Parent(child));
    NoBooksNeeded(start, tally.books, pass, child);
    var trouble := vol.Trouble();
    if trouble {
      tally.AddProblem(child, EIO);  // lstat failed
      NeverSeen(start, tally.books, tally.errors, child);
      return Returned(());
    }
    if vol.disk.entries[child] == Directory {
      assert Reachable(start, child) by { DirectoryIsReachable(start, child); }
      o := Visit(vol, tally, pass, child, bound);
      ghost var visited := vol.disk;
      if !o.Returned? {
        VisitedStep(start, visited, pass, child, !o.Crashed?);
        return;
      }
      SweptDirectory(start, visited, pass, child);
      var removal, code := DurablyRemoveEntry(vol, child, true, false);
      PrunedStep(start, visited, vol.disk, pass, child, !removal.Crashed?);
      if removal.Crashed? { return Crashed; }
      PrunedBooks(start, visited, vol.disk, old(tally.books), tally.books, pass, child);
      if removal.Threw? && code != ENOTEMPTY && code != EEXIST {
        StillCovered(start, tally.books, tally.errors, [Problem(child, code)], child);
        tally.AddProblem(child, code);
      }
    } else {
      assert Possible(start, child, Some(start.entries[child]));
      o := VisitFile(vol, tally, pass, child);
    }
  }

  lemma SweptDirectory<C>(pre: Disk<C>, post: Disk<C>, pass: Pass, child: Path)
    requires child in pre.entries && pre.entries[child] == Directory && Swept(pre, post, pass, child)
    ensures child in post.entries && post.entries[child] == Directory
  {
  }

  /** Pruning an emptied directory changes no book. */
  lemma PrunedBooks<C>(pre: Disk<C>, visited: Disk<C>, post: Disk<C>, before: Books, after: Books, pass: Pass, child: Path)
    requires child in pre.entries && pre.entries[child] == Directory && Swept(pre, visited, pass, child)
    requires post.entries == visited.entries || post.entries == visited.entries - {child}
    requires Explained(pre, visited, before, after)
    ensures Explained(pre, post, before, after)
    ensures Accounted(before, after, pre, visited, pass, child) && Clean(post, pass, child) ==>
              Accounted(before, after, pre, post, pass, child)
    ensures Accounted(before, after, pre, visited, pass, child) ==> Clean(visited, pass, child)
  {
    NothingToExplain(pre, visited, post, before, after);
  }

  lemma DirectoryIsReachable<C>(d: Disk<C>, p: Path)
    requires p != [] && Visible(d, p) == Some(Directory) && Reachable(d, Parent(p))
    ensures Reachable(d, p)
  {
  }

  lemma NeverSeen<C>(start: Disk<C>, books: Books, errors: seq<Problem>, top: Path)
    requires Named(errors, top)
    ensures Covered(start, books, errors, top)
  {
    var k :| 0 <= k < |errors| && errors[k].path == top;
    assert forall p :: p in LiveFiles(start, top) ==> errors[k].path <= p;
  }

  lemma VisitedStep<C>(pre: Disk<C>, post: Disk<C>, pass: Pass, child: Path, running: bool)
    requires child != [] && SafelySwept(pre, post, pass, child)
    requires running ==> Swept(pre, post, pass, child)
    ensures SafelySwept(pre, post, pass, Parent(child))
    ensures running ==> Swept(pre, post, pass, Parent(child)) && OnlyUnder(pre, post, child)
  {
    forall p, e | Possible(post, p, e)
      ensures Possible(pre, p, e) || (e == None && Parent(child) < p && MayGo(pre, pass, p))
    {
      assert child < p ==> Parent(child) < p;
    }
    if running {
      forall p | !(child <= p) ensures Visible(post, p) == Visible(pre, p) {
      }
    }
  }

  lemma PrunedStep<C>(pre: Disk<C>, visited: Disk<C>, post: Disk<C>, pass: Pass, child: Path, running: bool)
    requires pass.root < child && child in pre.entries && pre.entries[child] == Directory
    requires Swept(pre, visited, pass, child) && Keeps(visited, post, {child})
    requires forall q, e :: Possible(post, q, e) ==> Possible(visited, q, e) || (q == child && e == None)
    requires running ==> post.inodes == visited.inodes && StaysInView(visited, post) && StillPossible(visited, post)
    requires running ==> post.entries == visited.entries || post.entries == visited.entries - {child}
    ensures SafelySwept(pre, post, pass, Parent(child))
    ensures running ==> Swept(pre, post, pass, Parent(child)) && OnlyUnder(pre, post, child)
    ensures running && Clean(visited, pass, child) ==> Clean(post, pass, child)
  {
    VisitedStep(pre, visited, pass, child, true);
    KeepsIsTransitive(pre, visited, post, Removable(pre, pass), {child});
    assert child in Removable(pre, pass);
    assert Removable(pre, pass) + {child} == Removable(pre, pass);
    if running && Clean(visited, pass, child) {
      PrunedStaysClean(visited, post, pass, child);
    }
  }

  lemma PrunedStaysClean<C>(visited: Disk<C>, post: Disk<C>, pass: Pass, child: Path)
    requires child != [] && Clean(visited, pass, child) && post.inodes == visited.inodes
    requires post.entries == visited.entries || post.entries == visited.entries - {child}
    requires forall q, e :: Possible(post, q, e) ==> Possible(visited, q, e) || (q == child && e == None)
    ensures Clean(post, pass, child)
  {
    forall p | p in LiveFiles(post, child) ensures p in LiveFiles(visited, child) {
      FewerReachable(visited, post, child, Parent(p));
    }
    assert DoomedFiles(post, pass, child) <= DoomedFiles(visited, pass, child);
    forall p | child < p && Reachable(post, Parent(p)) ensures Settled(post, p) {
      FewerReachable(visited, post, child, Parent(p));
    }
  }

  lemma {:induction false} FewerReachable<C>(pre: Disk<C>, post: Disk<C>, gone: Path, q: Path)
    requires post.entries == pre.entries || post.entries == pre.entries - {gone}
    requires Reachable(post, q)
    ensures Reachable(pre, q)
    decreases |q|
  {
    if q != [] {
      FewerReachable(pre, post, gone, Parent(q));
    }
  }

  /** Where the loop over the names of dir stands after i of them. */
  ghost predicate Progress<C>(start: Disk<C>, d: Disk<C>, before: Books, after: Books, errors: seq<Problem>, silent: bool,
                              pass: Pass, dir: Path, names: seq<string>, i: nat)
    requires i <= |names|
  {
    && Swept(start, d, pass, dir) && Untouched(start, d, dir, names, i)
    && Bounded(start, before, after, pass, dir)
    && Explained(start, d, before, after) && CoveredFirst(start, after, errors, dir, names, i)
    && (forall p :: p in after.seen ==> !(dir <= p) || UnderFirst(dir, names, i, p))
    && (silent ==> Tallied(start, d, before, after, pass, dir, names, i))
  }

  ghost predicate CoveredFirst<C>(start: Disk<C>, after: Books, errors: seq<Problem>, dir: Path, names: seq<string>, i: nat)
    requires i <= |names|
  {
    forall p :: p in FirstLive(start, dir, names, i) ==> p in after.seen || Reported(errors, p)
  }

  /** The first i entries are clean and all their files are in the books. */
  ghost predicate Tallied<C>(start: Disk<C>, d: Disk<C>, before: Books, after: Books, pass: Pass, dir: Path, names: seq<string>, i: nat)
    requires i <= |names|
  {
    && (forall k :: 0 <= k < i ==> Clean(d, pass, dir + [names[k]]))
    && after.seen == before.seen + FirstLive(start, dir, names, i)
    && after.Gone() == before.Gone() + FirstDoomed(start, pass, dir, names, i)
  }

  /** The loop of visit. */
  method VisitEntries<C(0,==)>(vol: Volume<C>, tally: Tally, pass: Pass, dir: Path, names: seq<string>, ghost bound: nat)
    returns (o: Outcome<()>)
    requires vol.Valid() && tally.Valid()
    requires pass.root <= dir && Reachable(vol.disk, dir) && |dir| <= bound && Lists(vol.disk, dir, names)
    requires forall p :: p in vol.disk.entries ==> |p| <= bound
    requires forall p :: p in tally.books.seen ==> !(dir <= p)
    modifies vol, tally
    ensures vol.Valid() && tally.Valid()
    ensures SafelySwept(old(vol.disk), vol.disk, pass, dir)
    ensures Bounded(old(vol.disk), old(tally.books), tally.books, pass, dir) && old(tally.errors) <= tally.errors
    ensures !o.Crashed? ==> Swept(old(vol.disk), vol.disk, pass, dir) && Explained(old(vol.disk), vol.disk, old(tally.books), tally.books)
    ensures o.Returned? ==>
              Progress(old(vol.disk), vol.disk, old(tally.books), tally.books, tally.errors, |tally.errors| == |old(tally.errors)|,
                       pass, dir, names, |names|)
    ensures vol.faults >= old(vol.faults) && |tally.errors| - |old(tally.errors)| <= vol.faults - old(vol.faults)
    ensures vol.faults == old(vol.faults) ==> Undisturbed(o, old(tally.books), tally.books)
    decreases bound - |dir|, 0, 1
  {
    hide Swept, SafelySwept, Untouched, Bounded, Tallied, Accounted, Clean, Doomed, Explained, CoveredFirst, Covered;
    hide LiveFiles, DoomedFiles, SparedFiles, FirstLive, FirstDoomed, Reachable, Keeps;
    ghost var start, books, errors := vol.disk, tally.books, tally.errors;
    NoEntriesYet(start, books, errors, |errors| == |errors|, pass, dir, names);
    var i := 0;
    while i < |names|
      invariant i <= |names| && vol.Valid() && tally.Valid() && errors <= tally.errors
      invariant Progress(start, vol.disk, books, tally.books, tally.errors, |tally.errors| == |errors|, pass, dir, names, i)
      invariant vol.faults >= old(vol.faults) && |tally.errors| - |errors| <= vol.faults - old(vol.faults)
      invariant vol.faults == old(vol.faults) ==> tally.books.vanished == books.vanished
    {
      o := VisitNth(vol, tally, pass, dir, names, i, bound, start, books, errors);
      if !o.Returned? { return; }
      i := i + 1;
    }
    SweptIsSafe(start, vol.disk, pass, dir);
    o := Returned(());
  }

  lemma SweptIsSafe<C>(pre: Disk<C>, post: Disk<C>, pass: Pass, dir: Path)
    requires Swept(pre, post, pass, dir)
    ensures SafelySwept(pre, post, pass, dir)
  {
  }

  lemma NoEntriesYet<C>(d: Disk<C>, books: Books, errors: seq<Problem>, silent: bool, pass: Pass, dir: Path, names: seq<string>)
    requires forall p :: p in books.seen ==> !(dir <= p)
    ensures Progress(d, d, books, books, errors, silent, pass, dir, names, 0)
    ensures Swept(d, d, pass, dir) && SafelySwept(d, d, pass, dir) && Bounded(d, books, books, pass, dir)
    ensures Explained(d, d, books, books)
  {
    NothingSwept(d, pass, dir);
    assert FirstLive(d, dir, names, 0) == {} && FirstDoomed(d, pass, dir, names, 0) == {};
  }

  method VisitNth<C(0,==)>(vol: Volume<C>, tally: Tally, pass: Pass, dir: Path, names: seq<string>, i: nat, ghost bound: nat,
                           ghost start: Disk<C>, ghost books: Books, ghost errors: seq<Problem>)
    returns (o: Outcome<()>)
    requires vol.Valid() && tally.Valid() && errors <= tally.errors
    requires pass.root <= dir && Reachable(start, dir) && |dir| <= bound && Lists(start, dir, names)
    requires forall p :: p in start.entries ==> |p| <= bound
    requires i < |names| && Progress(start, vol.disk, books, tally.books, tally.errors, |tally.errors| == |errors|, pass, dir, names, i)
    requires forall p :: p in books.seen ==> !(dir <= p)
    modifies vol, tally
    ensures vol.Valid() && tally.Valid() && errors <= tally.errors
    ensures SafelySwept(start, vol.disk, pass, dir)
    ensures Bounded(start, books, tally.books, pass, dir)
    ensures !o.Crashed? ==> Swept(start, vol.disk, pass, dir) && Explained(start, vol.disk, books, tally.books)
    ensures o.Returned? ==> Progress(start, vol.disk, books, tally.books, tally.errors, |tally.errors| == |errors|, pass, dir, names, i + 1)
    ensures vol.faults >= old(vol.faults) && |tally.errors| - |old(tally.errors)| <= vol.faults - old(vol.faults)
    ensures vol.faults == old(vol.faults) ==> Undisturbed(o, old(tally.books), tally.books)
    decreases bound - |dir|, 0, 0
  {
    hide Swept, SafelySwept, Untouched, OnlyUnder, Tallied, Accounted, Clean, Doomed, Explained, Covered, CoveredFirst;
    hide LiveFiles, DoomedFiles, SparedFiles, FirstLive, FirstDoomed, Reachable, Keeps;
    ghost var d0, books0, errors0 := vol.disk, tally.books, tally.errors;
    assert Swept(start, d0, pass, dir) && Untouched(start, d0, dir, names, i);
    BeforeChild(start, d0, pass, dir, names, i);
    ChildIsUnseen(dir, names, i, books0.seen);
    o := VisitEntry(vol, tally, pass, dir + [names[i]], bound);
    if o.Returned? {
      EntryStep(start, d0, vol.disk, books, books0, tally.books, errors0, tally.errors,
                |errors0| == |errors|, |tally.errors| == |errors|, true, pass, dir, names, i);
      EntryCovered(start, d0, books0, tally.books, errors0, tally.errors, pass, dir, names, i);
    } else {
      EntryStep(start, d0, vol.disk, books, books0, tally.books, errors0, tally.errors,
                |errors0| == |errors|, false, !o.Crashed?, pass, dir, names, i);
    }
  }

  lemma EntryStep<C>(start: Disk<C>, before: Disk<C>, post: Disk<C>, books: Books, books0: Books, books1: Books,
                     errors0: seq<Problem>, errors1: seq<Problem>,
                     silent0: bool, silent1: bool, running: bool, pass: Pass, dir: Path, names: seq<string>, i: nat)
    requires i < |names| && Lists(start, dir, names) && pass.root <= dir && Reachable(start, dir)
    requires Progress(start, before, books, books0, errors0, silent0, pass, dir, names, i)
    requires SafelySwept(before, post, pass, dir)
    requires running ==> Swept(before, post, pass, dir) && OnlyUnder(before, post, dir + [names[i]])
    requires running ==> Explained(before, post, books0, books1)
    requires Bounded(before, books0, books1, pass, dir + [names[i]])
    requires silent1 ==> running && silent0 && Accounted(books0, books1, before, post, pass, dir + [names[i]])
    ensures SafelySwept(start, post, pass, dir) && Bounded(start, books, books1, pass, dir)
    ensures running ==> Swept(start, post, pass, dir) && Explained(start, post, books, books1)
    ensures running && CoveredFirst(start, books1, errors1, dir, names, i + 1) ==>
              Progress(start, post, books, books1, errors1, silent1, pass, dir, names, i + 1)
  {
    hide Swept, SafelySwept, Untouched, OnlyUnder, Tallied, Accounted, Clean, Doomed, Explained, Covered, CoveredFirst;
    hide LiveFiles, DoomedFiles, SparedFiles, UnderFirst, FirstLive, FirstDoomed, Reachable, Keeps, Possible;
    BeforeChild(start, before, pass, dir, names, i);
    AfterChild(start, before, post, pass, dir, names, i, running);
    EntryBooks(start, before, books, books0, books1, pass, dir, names, i);
    if running { ExplainedThroughout(start, before, post, books, books0, books1, pass, dir); }
    if silent1 {
      EntryTallied(start, before, post, books, books0, books1, pass, dir, names, i);
    }
  }

  lemma EntryCovered<C>(start: Disk<C>, before: Disk<C>, books0: Books, books1: Books, errors0: seq<Problem>, errors1: seq<Problem>,
                        pass: Pass, dir: Path, names: seq<string>, i: nat)
    requires i < |names| && CoveredFirst(start, books0, errors0, dir, names, i)
    requires Covered(before, books1, errors1, dir + [names[i]]) && LiveFiles(before, dir + [names[i]]) == LiveFiles(start, dir + [names[i]])
    requires books0.seen <= books1.seen && errors0 <= errors1
    ensures CoveredFirst(start, books1, errors1, dir, names, i + 1)
  {
    OneMore(start, pass, dir, names, i);
    Appended(errors0, errors1[|errors0|..]);
    assert errors0 + errors1[|errors0|..] == errors1;
  }

  lemma EntryBooks<C>(start: Disk<C>, before: Disk<C>, books: Books, books0: Books, books1: Books, pass: Pass, dir: Path, names: seq<string>, i: nat)
    requires i < |names| && Bounded(start, books, books0, pass, dir)
    requires forall p :: p in books0.seen ==> !(dir <= p) || UnderFirst(dir, names, i, p)
    requires Bounded(before, books0, books1, pass, dir + [names[i]])
    requires LiveFiles(before, dir + [names[i]]) <= LiveFiles(start, dir)
    requires DoomedFiles(before, pass, dir + [names[i]]) <= DoomedFiles(start, pass, dir)
    requires SparedFiles(before, pass, dir + [names[i]]) <= SparedFiles(start, pass, dir)
    ensures Bounded(start, books, books1, pass, dir)
    ensures forall p :: p in books1.seen ==> !(dir <= p) || UnderFirst(dir, names, i + 1, p)
  {
    hide LiveFiles, DoomedFiles, SparedFiles;
    var child := dir + [names[i]];
    forall p | p in books1.seen
      ensures p in books.seen || dir <= p
      ensures !(dir <= p) || UnderFirst(dir, names, i + 1, p)
    {
      if child <= p {
        assert child[..|dir|] == dir;
      } else if dir <= p {
        assert p in books0.seen && UnderFirst(dir, names, i, p);
      }
    }
  }

  lemma EntryTallied<C>(start: Disk<C>, before: Disk<C>, post: Disk<C>, books: Books, books0: Books, books1: Books,
                        pass: Pass, dir: Path, names: seq<string>, i: nat)
    requires i < |names| && Tallied(start, before, books, books0, pass, dir, names, i)
    requires Accounted(books0, books1, before, post, pass, dir + [names[i]])
    requires LiveFiles(before, dir + [names[i]]) == LiveFiles(start, dir + [names[i]])
    requires DoomedFiles(before, pass, dir + [names[i]]) == DoomedFiles(start, pass, dir + [names[i]])
    requires forall k :: 0 <= k < i && Clean(before, pass, dir + [names[k]]) ==> Clean(post, pass, dir + [names[k]])
    ensures Tallied(start, post, books, books1, pass, dir, names, i + 1)
  {
    hide Clean, Doomed, LiveFiles, DoomedFiles, Reachable;
    OneMore(start, pass, dir, names, i);
    forall k | 0 <= k < i + 1 ensures Clean(post, pass, dir + [names[k]]) {
      if k < i { assert Clean(before, pass, dir + [names[k]]); }
    }
  }

  /** visit: every entry of dir, then one fsync of dir itself, whatever happened to the entries. */
  method Visit<C(0,==)>(vol: Volume<C>, tally: Tally, pass: Pass, dir: Path, ghost bound: nat) returns (o: Outcome<()>)
    requires vol.Valid() && tally.Valid()
    requires pass.root <= dir && Reachable(vol.disk, dir) && |dir| <= bound
    requires forall p :: p in vol.disk.entries ==> |p| <= bound
    requires forall p :: p in tally.books.seen ==> !(dir <= p)
    modifies vol, tally
    ensures vol.Valid() && tally.Valid()
    ensures SafelySwept(old(vol.disk), vol.disk, pass, dir)
    ensures !o.Crashed? ==> Swept(old(vol.disk), vol.disk, pass, dir) && Explained(old(vol.disk), vol.disk, old(tally.books), tally.books)
    ensures Bounded(old(vol.disk), old(tally.books), tally.books, pass, dir) && old(tally.errors) <= tally.errors
    ensures o.Returned? ==> Covered(old(vol.disk), tally.books, tally.errors, dir)
    ensures o.Returned? && |tally.errors| == |old(tally.errors)| ==> Accounted(old(tally.books), tally.books, old(vol.disk), vol.disk, pass, dir)
    ensures vol.faults >= old(vol.faults) && |tally.errors| - |old(tally.errors)| <= vol.faults - old(vol.faults)
    ensures vol.faults == old(vol.faults) ==> Undisturbed(o, old(tally.books), tally.books)
    decreases bound - |dir|, 0, 2
  {
    hide Swept, SafelySwept, Untouched, Tallied, Accounted, Bounded, Clean, Doomed, Covered, CoveredFirst, Explained, Counts;
    hide LiveFiles, DoomedFiles, SparedFiles, FirstLive, FirstDoomed, Reachable, Keeps, Effect, UnderFirst;
    ghost var start, books := vol.disk, tally.books;
    ghost var errors := |tally.errors|;
    NoEntriesYet(start, books, tally.errors, true, pass, dir, []);
    var listed, names := ReadDirectory(vol, dir);
    if !listed { return Threw; }
    o := VisitEntries(vol, tally, pass, dir, names, bound);
    if !o.Returned? { return; }
    ghost var swept := vol.disk;
    StillThere(start, swept, pass, dir);
    AllCovered(start, tally.books, tally.errors, pass, dir, names);
    var io := vol.SyncDirectory(dir);
    SyncedStep(start, swept, vol.disk, io, pass, dir);
    if io.Crash? { return Crashed; }
    SyncExplainsNothing(start, swept, vol.disk, io, books, tally.books, pass, dir);
    if io.Done? && |tally.errors| == errors { DirectoryDone(start, swept, books, tally.books, tally.errors, pass, dir, names); }
    if io.Failed? {
      StillCovered(start, tally.books, tally.errors, [Problem(dir, io.code)], dir);
      tally.AddProblem(dir, io.code);
    }
    o := Returned(());
  }

  lemma StillThere<C>(pre: Disk<C>, post: Disk<C>, pass: Pass, dir: Path)
    requires Swept(pre, post, pass, dir)
    ensures Reachable(post, dir) <==> Reachable(pre, dir)
  {
    SweptKeepsReachable(pre, post, dir, dir);
  }

  lemma SyncExplainsNothing<C>(start: Disk<C>, swept: Disk<C>, post: Disk<C>, io: Io, before: Books, after: Books, pass: Pass, dir: Path)
    requires Swept(start, swept, pass, dir) && Effect(swept, SyncedDir(swept, dir), io, post) && !io.Crash?
    requires Explained(start, swept, before, after)
    ensures Explained(start, post, before, after)
    ensures io.Done? ==> post == SyncedDir(swept, dir)
  {
    NothingToExplain(start, swept, post, before, after);
  }

  lemma AllCovered<C>(start: Disk<C>, after: Books, errors: seq<Problem>, pass: Pass, dir: Path, names: seq<string>)
    requires Lists(start, dir, names) && Reachable(start, dir) && CoveredFirst(start, after, errors, dir, names, |names|)
    ensures Covered(start, after, errors, dir)
  {
    AllListed(start, pass, dir, names);
  }

  lemma DirectoryDone<C>(start: Disk<C>, swept: Disk<C>, before: Books, after: Books, errors: seq<Problem>, pass: Pass, dir: Path, names: seq<string>)
    requires Lists(start, dir, names) && Reachable(start, dir) && Reachable(swept, dir)
    requires Progress(start, swept, before, after, errors, true, pass, dir, names, |names|)
    ensures Accounted(before, after, start, SyncedDir(swept, dir), pass, dir)
  {
    AllListed(start, pass, dir, names);
    CleanDirectory(start, swept, pass, dir, names);
  }

  ghost predicate Untouched<C>(pre: Disk<C>, d: Disk<C>, dir: Path, names: seq<string>, i: nat)
    requires i <= |names|
  {
    forall p :: UnderRest(dir, names, i, p) ==> Visible(d, p) == Visible(pre, p)
  }

  lemma BeforeChild<C>(start: Disk<C>, before: Disk<C>, pass: Pass, dir: Path, names: seq<string>, i: nat)
    requires i < |names| && Lists(start, dir, names) && pass.root <= dir && Reachable(start, dir)
    requires Swept(start, before, pass, dir) && Untouched(start, before, dir, names, i)
    ensures dir + [names[i]] in before.entries && Parent(dir + [names[i]]) == dir && Reachable(before, dir)
    ensures pass.root < dir + [names[i]]
    ensures before.entries.Keys <= start.entries.Keys
    ensures LiveFiles(before, dir + [names[i]]) == LiveFiles(start, dir + [names[i]])
    ensures DoomedFiles(before, pass, dir + [names[i]]) == DoomedFiles(start, pass, dir + [names[i]])
    ensures SparedFiles(before, pass, dir + [names[i]]) == SparedFiles(start, pass, dir + [names[i]])
  {
    var child := dir + [names[i]];
    SweptKeepsReachable(start, before, dir, dir);
    assert names[i] in names;
    forall p | p < child || child <= p ensures Visible(before, p) == Visible(start, p) {
      assert p < child ==> !(dir < p);
      assert child <= p ==> UnderRest(dir, names, i, p);
    }
    assert child <= child && Visible(before, child) == Visible(start, child);
    UntouchedFiles(start, before, pass, child);
  }

  lemma ChildIsUnseen(dir: Path, names: seq<string>, i: nat, seen: set<Path>)
    requires i < |names| && forall j, k :: 0 <= j < k < |names| ==> names[j] != names[k]
    requires forall p :: p in seen ==> !(dir <= p) || UnderFirst(dir, names, i, p)
    ensures forall p :: p in seen ==> !(dir + [names[i]] <= p)
  {
    forall p | p in seen ensures !(dir + [names[i]] <= p) {
      if dir <= p {
        var k :| 0 <= k < i && dir + [names[k]] <= p;
        assert (dir + [names[k]])[|dir|] == names[k] != names[i] == (dir + [names[i]])[|dir|];
        Siblings(dir + [names[i]], dir + [names[k]], p);
      } else {
        assert dir <= dir + [names[i]];
      }
    }
  }

  lemma AfterChild<C>(start: Disk<C>, before: Disk<C>, post: Disk<C>, pass: Pass, dir: Path, names: seq<string>, i: nat, running: bool)
    requires i < |names| && forall j, k :: 0 <= j < k < |names| ==> names[j] != names[k]
    requires Swept(start, before, pass, dir) && Untouched(start, before, dir, names, i)
    requires SafelySwept(before, post, pass, dir)
    requires running ==> Swept(before, post, pass, dir) && OnlyUnder(before, post, dir + [names[i]])
    ensures SafelySwept(start, post, pass, dir)
    ensures running ==> Swept(start, post, pass, dir) && Untouched(start, post, dir, names, i + 1)
    ensures running ==> forall k :: 0 <= k < i && Clean(before, pass, dir + [names[k]]) ==> Clean(post, pass, dir + [names[k]])
    ensures FirstLive(start, dir, names, i + 1) == FirstLive(start, dir, names, i) + LiveFiles(start, dir + [names[i]])
    ensures FirstDoomed(start, pass, dir, names, i + 1) == FirstDoomed(start, pass, dir, names, i) + DoomedFiles(start, pass, dir + [names[i]])
    ensures LiveFiles(start, dir + [names[i]]) <= LiveFiles(start, dir)
    ensures DoomedFiles(start, pass, dir + [names[i]]) <= DoomedFiles(start, pass, dir)
    ensures SparedFiles(start, pass, dir + [names[i]]) <= SparedFiles(start, pass, dir)
  {
    SweptIsTransitive(start, before, post, pass, dir, dir);
    OneMore(start, pass, dir, names, i);
    forall p | p in LiveFiles(start, dir + [names[i]]) ensures dir <= p {
      assert dir == (dir + [names[i]])[..|dir|];
    }
    if running {
      forall p | UnderRest(dir, names, i + 1, p)
        ensures Visible(post, p) == Visible(start, p)
      {
        var k :| i + 1 <= k < |names| && dir + [names[k]] <= p;
        assert UnderRest(dir, names, i, p);
        assert (dir + [names[k]])[|dir|] == names[k] != names[i] == (dir + [names[i]])[|dir|];
        Siblings(dir + [names[i]], dir + [names[k]], p);
      }
      forall k | 0 <= k < i && Clean(before, pass, dir + [names[k]])
        ensures Clean(post, pass, dir + [names[k]])
      {
        assert (dir + [names[k]])[|dir|] == names[k] != names[i] == (dir + [names[i]])[|dir|];
        SiblingStaysClean(before, post, pass, dir + [names[i]], dir + [names[k]]);
      }
    }
  }

  lemma SyncedStep<C>(start: Disk<C>, swept: Disk<C>, post: Disk<C>, io: Io, pass: Pass, dir: Path)
    requires Swept(start, swept, pass, dir)
    requires Effect(swept, SyncedDir(swept, dir), io, post)
    ensures SafelySwept(start, post, pass, dir)
    ensures !io.Crash? ==> Swept(start, post, pass, dir)
  {
    var p := dir + [""];
    assert Parent(p) == dir;
    SyncStep(swept, post, io, p);
    assert SafelySwept(swept, post, pass, dir);
    if !io.Crash? {
      forall q | q != [] && q in post.entries && Reachable(swept, Parent(q)) ensures Reachable(post, Parent(q)) {
        SameEntriesReachable(swept, post, Parent(q));
      }
    }
    SweptIsTransitive(start, swept, post, pass, dir, dir);
  }

  // ---- one request ----

  const ORPHAN_ATTACHMENT_GC_GRACE_MS := 5 * 60 * 1000

  /** The pass that a request runs for a document with these tasks and projects. */
  ghost function PassFor(root: Path, tasks: seq<Docs.Owner>, projects: seq<Docs.Owner>, now: int): Pass {
    Pass(root, Keys.KeepSet(Docs.LiveKeys(tasks + projects)), now - ORPHAN_ATTACHMENT_GC_GRACE_MS, Keys.DiskKey)
  }

  method GarbageCollect<C(0,==)>(vol: Volume<C>, root: Path, tasks: seq<Docs.Owner>, projects: seq<Docs.Owner>, now: int)
    returns (o: Outcome<Report>, ghost books: Books)
    requires vol.Valid() && root != []
    modifies vol
    ensures vol.Valid()
    ensures SafelySwept(old(vol.disk), vol.disk, PassFor(root, tasks, projects, now), root)
    ensures !o.Crashed? ==> Swept(old(vol.disk), vol.disk, PassFor(root, tasks, projects, now), root)
    // the counters speak of this tree, whatever went wrong: each file visited has one fate, and the disk agrees
    ensures o.Returned? ==> Counts(o.value, books)
    ensures Bounded(old(vol.disk), NO_BOOKS, books, PassFor(root, tasks, projects, now), root)
    ensures !o.Crashed? ==> Explained(old(vol.disk), vol.disk, NO_BOOKS, books)
    ensures o.Returned? ==> Covered(old(vol.disk), books, o.value.errors, root) && |o.value.errors| <= vol.faults - old(vol.faults)
    ensures o.Returned? && o.value.errors == [] && Exists(old(vol.disk), root) ==>
              && Accounted(NO_BOOKS, books, old(vol.disk), vol.disk, PassFor(root, tasks, projects, now), root)
              && books.failed == {}
    // with no fault, the pass does all its work
    ensures vol.faults >= old(vol.faults)
    ensures vol.faults == old(vol.faults) && Visible(old(vol.disk), root) == Some(Directory) && Reachable(old(vol.disk), root) ==>
              o.Returned? && Exact(o.value, books, old(vol.disk), PassFor(root, tasks, projects, now))
  {
    hide LiveFiles, DoomedFiles, SparedFiles, Reachable, Keeps, Clean, Bounded, Explained, Swept, SafelySwept, Covered, Doomed;
    hide Accounted, Counts, Removable, MayGo, OnlyUnder, Named, Reported, Possible, PassFor, Keys.KeepSet, Docs.LiveKeys;
    books := NO_BOOKS;
    NothingSwept(vol.disk, PassFor(root, tasks, projects, now), root);
    NoBooksNeeded(vol.disk, books, PassFor(root, tasks, projects, now), root);
    NoFiles(vol.disk, root);
    if !Exists(vol.disk, root) { return Returned(Report(0, [], 0, 0)), books; }
    if vol.disk.entries[root] != Directory { return Threw, books; }
    assert Reachable(vol.disk, root) by { RootIsReachable(vol.disk, root); }
    var keep := Docs.CollectKept(tasks, projects);
    PassIs(root, tasks, projects, now);
    o, books := Collect(vol, Pass(root, keep, now - ORPHAN_ATTACHMENT_GC_GRACE_MS, Keys.DiskKey));
  }

  /** The pass itself, from a root that is a directory. */
  method Collect<C(0,==)>(vol: Volume<C>, pass: Pass) returns (o: Outcome<Report>, ghost books: Books)
    requires vol.Valid() && Reachable(vol.disk, pass.root)
    modifies vol
    ensures vol.Valid()
    ensures SafelySwept(old(vol.disk), vol.disk, pass, pass.root)
    ensures !o.Crashed? ==> Swept(old(vol.disk), vol.disk, pass, pass.root) && Explained(old(vol.disk), vol.disk, NO_BOOKS, books)
    ensures Bounded(old(vol.disk), NO_BOOKS, books, pass, pass.root)
    ensures o.Returned? ==>
              && Counts(o.value, books) && Covered(old(vol.disk), books, o.value.errors, pass.root)
              && |o.value.errors| <= vol.faults - old(vol.faults)
    ensures o.Returned? && o.value.errors == [] ==>
              Accounted(NO_BOOKS, books, old(vol.disk), vol.disk, pass, pass.root) && books.failed == {}
    ensures vol.faults >= old(vol.faults)
    ensures vol.faults == old(vol.faults) ==>
              o.Returned? && Exact(o.value, books, old(vol.disk), pass)
  {
    hide LiveFiles, DoomedFiles, SparedFiles, Reachable, Keeps, Clean, Bounded, Explained, Swept, SafelySwept, Covered, Doomed;
    hide Accounted, Removable, MayGo, OnlyUnder, Named, Reported, Possible;
    ghost var start := vol.disk;
    ghost var bound := Longest(start.entries.Keys + {pass.root});
    var tally := new Tally();
    var visited := Visit(vol, tally, pass, pass.root, bound);
    books := tally.books;
    if visited.Crashed? { return Crashed, books; }
    if visited.Threw? { return Threw, books; }
    var report := Report(tally.deleted, tally.errors, tally.kept, tally.scanned);
    NoErrors(report, books, start, vol.disk, pass);
    o := Returned(report);
  }

  lemma PassIs(root: Path, tasks: seq<Docs.Owner>, projects: seq<Docs.Owner>, now: int)
    ensures PassFor(root, tasks, projects, now)
         == Pass(root, Keys.KeepSet(Docs.LiveKeys(tasks + projects)), now - ORPHAN_ATTACHMENT_GC_GRACE_MS, Keys.DiskKey)
  {
  }

  lemma RootIsReachable<C>(d: Disk<C>, root: Path)
    requires root != [] && Exists(d, root) && d.entries[root] == Directory
    ensures Reachable(d, root)
  {
  }

  /** What the report of a pass says when it lists no error, and when nothing vanished either. */
  lemma NoErrors<C>(report: Report, books: Books, pre: Disk<C>, post: Disk<C>, pass: Pass)
    requires Counts(report, books)
    requires report.errors == [] ==> Accounted(NO_BOOKS, books, pre, post, pass, pass.root)
    ensures report.errors == [] ==> books.failed == {}
    ensures report.errors == [] && books.vanished == {} ==> Exact(report, books, pre, pass)
  {
    hide LiveFiles, DoomedFiles, SparedFiles, Doomed, Clean, Counts, Books.Kept, Books.Tried, Books.Consistent;
    if report.errors == [] {
      NothingFailed(report, books);
      if books.vanished == {} {
        SparedAreTheRest(pre, pass, pass.root);
        assert books.seen == LiveFiles(pre, pass.root);
        assert books.removed == DoomedFiles(pre, pass, pass.root);
      }
    }
  }

  lemma NothingFailed(report: Report, books: Books)
    requires Counts(report, books) && report.errors == []
    ensures books.failed == {}
    ensures books.vanished == {} ==> report == Report(|books.removed|, [], |books.seen - books.removed|, |books.seen|)
  {
    forall p ensures p !in books.failed {}
    if books.vanished == {} { assert books.Kept() == books.seen - books.removed; }
  }

  lemma SparedAreTheRest<C>(d: Disk<C>, pass: Pass, top: Path)
    ensures SparedFiles(d, pass, top) == LiveFiles(d, top) - DoomedFiles(d, pass, top)
  {
  }

  /** The files removed are exactly the doomed ones, the others are kept, and the counters say so. */
  ghost predicate Exact<C>(report: Report, books: Books, d: Disk<C>, pass: Pass) {
    && books.removed == DoomedFiles(d, pass, pass.root)
    && report == Report(|DoomedFiles(d, pass, pass.root)|, [], |SparedFiles(d, pass, pass.root)|, |LiveFiles(d, pass.root)|)
  }

  /** Without a root there is no file to count, and the empty report is right. */
  lemma NoFiles<C>(d: Disk<C>, root: Path)
    requires root != []
    ensures Counts(Report(0, [], 0, 0), NO_BOOKS)
    ensures !Exists(d, root) ==> Covered(d, NO_BOOKS, [], root) && !(Visible(d, root) == Some(Directory) && Reachable(d, root))
  {
    assert NO_BOOKS.Kept() == {};
    if !Exists(d, root) { NothingLives(d, root); }
  }

  /** A missing root has no files below it. */
  lemma {:induction false} NothingLives<C>(d: Disk<C>, root: Path)
    requires root != [] && !Exists(d, root)
    ensures LiveFiles(d, root) == {}
  {
    forall p | p in LiveFiles(d, root) ensures false {
      if p != root { AncestorsExist(d, root, Parent(p)); }
    }
  }

  lemma {:induction false} AncestorsExist<C>(d: Disk<C>, top: Path, p: Path)
    requires top != [] && top <= p && Reachable(d, p)
    ensures Exists(d, top)
    decreases |p|
  {
    if p != top {
      AncestorsExist(d, top, Parent(p));
    }
  }

  lemma NothingSwept<C>(d: Disk<C>, pass: Pass, dir: Path)
    ensures Swept(d, d, pass, dir) && SafelySwept(d, d, pass, dir)
  {
  }

  ghost function Longest(paths: set<Path>): (n: nat)
    ensures forall p :: p in paths ==> |p| <= n
  {
    if paths == {} then 0 else
      var p :| p in paths;
      var n := Longest(paths - {p});
      assert forall q :: q in paths ==> q == p || q in paths - {p};
      if n < |p| then |p| else n
  }

  // ---- what a pass means for the document ----

  /** A file whose key some live attachment resolves to is outside what any pass may remove. */
  lemma ReferencedIsKept<C>(d: Disk<C>, root: Path, tasks: seq<Docs.Owner>, projects: seq<Docs.Owner>, now: int, cloudKey: string, stored: string)
    requires cloudKey in Docs.LiveKeys(tasks + projects)
    requires Keys.StoredKey(cloudKey) == Some(stored) && Keys.Normalize(cloudKey).Some?
    ensures root + Keys.Segments(stored) in d.entries && d.entries[root + Keys.Segments(stored)].File? ==>
              root + Keys.Segments(stored) !in Removable(d, PassFor(root, tasks, projects, now))
  {
    var p := root + Keys.Segments(stored);
    Keys.StoredFileHasItsKey(Keys.WithoutPrefix(cloudKey), stored);
    assert p[|root|..] == Keys.Segments(stored);
    Keys.StoredKeyIsKeptIffKeyNormalizes(cloudKey, stored);
    assert Keys.KeepSet({cloudKey}) <= Keys.KeepSet(Docs.LiveKeys(tasks + projects));
  }

  /** Durable bytes that a live attachment names survive a pass, however the pass ends. */
  lemma ReferencedBytesSurvive<C>(pre: Disk<C>, post: Disk<C>, root: Path, tasks: seq<Docs.Owner>, projects: seq<Docs.Owner>, now: int,
                                  cloudKey: string, stored: string, content: C)
    requires SafelySwept(pre, post, PassFor(root, tasks, projects, now), root)
    requires cloudKey in Docs.LiveKeys(tasks + projects)
    requires Keys.StoredKey(cloudKey) == Some(stored) && Keys.Normalize(cloudKey).Some?
    requires DurableFile(pre, root + Keys.Segments(stored), content)
    ensures DurableFile(post, root + Keys.Segments(stored), content)
  {
    ReferencedIsKept(pre, root, tasks, projects, now, cloudKey, stored);
    DurableFileStays(pre, post, PassFor(root, tasks, projects, now), root + Keys.Segments(stored), content);
  }

  lemma DurableFileStays<C>(pre: Disk<C>, post: Disk<C>, pass: Pass, p: Path, content: C)
    requires SafelySwept(pre, post, pass, pass.root) && DurableFile(pre, p, content) && p !in Removable(pre, pass)
    ensures DurableFile(post, p, content)
  {
    var ino: nat :| DurableAt(pre, p, File(ino)) && HoldsSynced(pre, ino, content);
    assert DurableAt(post, p, File(ino)) && HoldsSynced(post, ino, content);
  }

  /**
   What an error-free pass removes, exactly: an old file that no live attachment resolves to is gone
   if and only if its name normalizes to a key.
   */
  lemma OrphanIsGoneIffItsNameNormalizes<C>(pre: Disk<C>, post: Disk<C>, books: Books, pass: Pass, p: Path)
    requires Swept(pre, post, pass, pass.root) && Accounted(NO_BOOKS, books, pre, post, pass, pass.root)
    requires [] !in pre.entries && p in LiveFiles(pre, pass.root) && p != pass.root && pre.entries[p].ino in pre.inodes
    requires pre.inodes[pre.entries[p].ino].mtime <= pass.cutoff
    requires RelativeKey(pass, p).Some? ==> RelativeKey(pass, p).value !in pass.keep
    ensures p !in LiveFiles(post, pass.root) <==> RelativeKey(pass, p).Some?
  {
    assert Doomed(pre, pass, p) <==> RelativeKey(pass, p).Some?;
    assert p in post.entries ==> Reachable(post, Parent(p));
    assert p in LiveFiles(post, pass.root) && Doomed(pre, pass, p) ==> p in DoomedFiles(post, pass, pass.root);
  }

  /** A file no attachment can ever name outlives every pass: "a b" is one. */
  lemma UnnameableFileIsNeverCollected(root: Path, now: int) returns (d: Disk<string>)
    requires root != [] && |root| == 1
    ensures root + ["a b"] in LiveFiles(d, root)
    ensures d.entries[root + ["a b"]] == File(0) && 0 in d.inodes && d.inodes[0].mtime <= now - ORPHAN_ATTACHMENT_GC_GRACE_MS
    ensures !MayGo(d, PassFor(root, [], [], now), root + ["a b"])
    ensures Clean(d, PassFor(root, [], [], now), root)
  {
    var p := root + ["a b"];
    d := Disk(map[root := Directory, p := File(0)], {}, map[0 := Inode("", true, now - ORPHAN_ATTACHMENT_GC_GRACE_MS)]);
    assert Parent(p) == root && Parent(root) == [];
    assert Reachable(d, root);
    assert p[|root|..] == ["a b"];
    Keys.PlainDecodesToItself("a b");
    assert !Keys.IsAllowed("a b"[1]);
    assert Keys.Slashed("a b") == "a b";
  }
}
