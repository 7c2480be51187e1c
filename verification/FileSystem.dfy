/** Sector ownership in the file system (filesys/inode.c, free-map.c, directory.c, filesys.c):
    contiguous extents, reference-counted open inodes and delete-while-open.

    The value Fs holds the in-memory free map as the set of marked sectors, the inodes on disk
    by sector, the list of open inodes and the slots of the root directory.  Writing anything
    else over an inode's sector removes it from `disk`, so that an aliasing mistake would lose
    an inode that is still owned. */
module FileSystem {
  import opened Integers
  import InodeIO

  const FREE_MAP_SECTOR: nat := 0
  const ROOT_DIR_SECTOR: nat := 1
  const NAME_MAX: nat := 14

  datatype DiskInode = DiskInode(start: nat, length: nat)

  datatype OpenInode = OpenInode(sector: nat, openCnt: nat, removed: bool, data: DiskInode)

  datatype Entry = Entry(sector: nat, name: string, inUse: bool)

  datatype Fs = Fs(size: nat, marked: set<nat>, disk: map<nat, DiskInode>, open: seq<OpenInode>, dir: seq<Entry>)

  // ----- ownership

  function Data(di: DiskInode): set<nat> { Range(di.start, InodeIO.BytesToSectors(di.length)) }

  /** All sectors of the inode at sector n. */
  function Extent(di: DiskInode, n: nat): set<nat> { {n} + Data(di) }

  /** The data sectors hold the file, and no fewer would. */
  ghost predicate JustEnough(di: DiskInode)
  {
    di.length <= |Data(di)| * 512 < di.length + 512
  }

  lemma DataSectors(di: DiskInode)
    ensures JustEnough(di)
  {
    RangeSize(di.start, InodeIO.BytesToSectors(di.length));
  }

  predicate OnDevice(fs: Fs, di: DiskInode) { di.start + InodeIO.BytesToSectors(di.length) <= fs.size }

  function System(): set<nat> { {FREE_MAP_SECTOR, ROOT_DIR_SECTOR} }

  function Named(fs: Fs): set<nat>
  {
    set i | 0 <= i < |fs.dir| && fs.dir[i].inUse :: fs.dir[i].sector
  }

  function Opened(fs: Fs): set<nat>
  {
    set i | 0 <= i < |fs.open| :: fs.open[i].sector
  }

  /** Inodes that somebody can still reach: system, named or open ones. */
  function Owners(fs: Fs): set<nat> { System() + Named(fs) + Opened(fs) }

  /** Every owner's inode is on disk and all its sectors are marked. */
  ghost predicate Owned(fs: Fs)
  {
    forall n :: n in Owners(fs) ==>
      && n in fs.disk && OnDevice(fs, fs.disk[n])
      && Extent(fs.disk[n], n) <= fs.marked && n !in Data(fs.disk[n])
  }

  /** No two owners share a sector. */
  ghost predicate Apart(fs: Fs)
    requires Owned(fs)
  {
    forall n, m :: n in Owners(fs) && m in Owners(fs) && n != m ==>
      Extent(fs.disk[n], n) !! Extent(fs.disk[m], m)
  }

  /** One struct inode per open sector, counting its openers, with the data that is on disk. */
  ghost predicate OpenOk(fs: Fs)
  {
    && (forall i, j :: 0 <= i < j < |fs.open| ==> fs.open[i].sector != fs.open[j].sector)
    && (forall i :: 0 <= i < |fs.open| ==>
          && fs.open[i].openCnt > 0
          && fs.open[i].sector in fs.disk && fs.open[i].data == fs.disk[fs.open[i].sector]
          && (fs.open[i].removed ==> fs.open[i].sector !in System() + Named(fs)))
  }

  /** No inode has two names, and the system inodes have none. */
  ghost predicate DirOk(fs: Fs)
  {
    && (forall i, j :: 0 <= i < j < |fs.dir| && fs.dir[i].inUse && fs.dir[j].inUse ==> fs.dir[i].sector != fs.dir[j].sector)
    && (forall i :: 0 <= i < |fs.dir| && fs.dir[i].inUse ==> fs.dir[i].sector !in System())
  }

  ghost predicate Inv(fs: Fs)
  {
    Owned(fs) && Apart(fs) && OpenOk(fs) && DirOk(fs)
  }

  /** Sectors that no owner has. */
  ghost predicate Unowned(fs: Fs, r: set<nat>)
    requires Owned(fs)
  {
    forall n :: n in Owners(fs) ==> Extent(fs.disk[n], n) !! r
  }

  // ----- moves

  /** The owners' inodes and marks survive: ownership shrinks or stays. */
  lemma OwnersShrink(fs: Fs, fs': Fs)
    requires Owned(fs) && Apart(fs) && Owners(fs') <= Owners(fs) && fs'.size == fs.size
    requires forall n :: n in Owners(fs') ==> n in fs'.disk && fs'.disk[n] == fs.disk[n]
    requires forall n :: n in Owners(fs') ==> Extent(fs.disk[n], n) <= fs'.marked
    ensures Owned(fs') && Apart(fs')
  {
    hide Extent, Data, Owners;
  }

  /** Sectors fresh from the free map are owned by nobody. */
  lemma FreshUnowned(fs: Fs, r: set<nat>)
    requires Owned(fs) && r !! fs.marked
    ensures Unowned(fs, r)
  {
    hide Extent, Data, Owners;
  }

  function Mark(fs: Fs, r: set<nat>): Fs { fs.(marked := fs.marked + r) }
  function Unmark(fs: Fs, r: set<nat>): Fs { fs.(marked := fs.marked - r) }

  lemma MarkInv(fs: Fs, r: set<nat>)
    requires Inv(fs)
    ensures Inv(Mark(fs, r))
    ensures forall q :: Unowned(fs, q) <==> Unowned(Mark(fs, r), q)
  {
    assert Owners(Mark(fs, r)) == Owners(fs);
    OwnersShrink(fs, Mark(fs, r));
  }

  lemma UnmarkInv(fs: Fs, r: set<nat>)
    requires Inv(fs) && Unowned(fs, r)
    ensures Inv(Unmark(fs, r))
    ensures forall q :: Unowned(fs, q) <==> Unowned(Unmark(fs, r), q)
  {
    assert Owners(Unmark(fs, r)) == Owners(fs);
    forall n | n in Owners(fs) ensures Extent(fs.disk[n], n) <= Unmark(fs, r).marked {
      assert Extent(fs.disk[n], n) !! r;
    }
    OwnersShrink(fs, Unmark(fs, r));
  }

  /** inode_create's writes: the inode to its sector, then zeros over its data. */
  function WriteInode(fs: Fs, s: nat, di: DiskInode): Fs { fs.(disk := fs.disk[s := di] - Data(di)) }

  lemma WriteInodeInv(fs: Fs, s: nat, di: DiskInode)
    requires Inv(fs) && Unowned(fs, Extent(di, s)) && s !in Data(di)
    ensures Inv(WriteInode(fs, s, di)) && WriteInode(fs, s, di).disk[s] == di
    ensures Unowned(WriteInode(fs, s, di), Extent(di, s))
  {
    var fs' := WriteInode(fs, s, di);
    assert Owners(fs') == Owners(fs);
    forall n | n in Owners(fs) ensures n in fs'.disk && fs'.disk[n] == fs.disk[n] {
      assert n in Extent(fs.disk[n], n);
    }
    OwnersShrink(fs, fs');
    forall i | 0 <= i < |fs.open| ensures fs.open[i].sector in Owners(fs) {}
  }

  /** Any other write to a file's data area. */
  function Overwrite(fs: Fs, n: nat): Fs
    requires n in fs.disk
  {
    fs.(disk := fs.disk - Data(fs.disk[n]))
  }

  lemma OverwriteInv(fs: Fs, n: nat)
    requires Inv(fs) && n in Owners(fs)
    ensures Inv(Overwrite(fs, n))
    ensures forall m :: m in Owners(fs) ==> m in Overwrite(fs, n).disk && Overwrite(fs, n).disk[m] == fs.disk[m]
  {
    var fs' := Overwrite(fs, n);
    assert Owners(fs') == Owners(fs);
    forall m | m in Owners(fs) ensures m in fs'.disk && fs'.disk[m] == fs.disk[m] {
      assert m in Extent(fs.disk[m], m);
      if m != n { assert Extent(fs.disk[m], m) !! Extent(fs.disk[n], n); }
    }
    OwnersShrink(fs, fs');
    forall i | 0 <= i < |fs.open| ensures fs.open[i].sector in Owners(fs) {}
  }

  /** dir_add's write of slot i, whatever the slot held before. */
  function PutEntry(fs: Fs, i: nat, e: Entry): Fs
    requires i < |fs.dir|
  {
    fs.(dir := fs.dir[i := e])
  }

  lemma NamedAfterPut(fs: Fs, i: nat, e: Entry)
    requires i < |fs.dir|
    ensures Named(PutEntry(fs, i, e)) <= Named(fs) + (if e.inUse then {e.sector} else {})
    ensures e.inUse ==> e.sector in Named(PutEntry(fs, i, e))
    ensures forall j :: 0 <= j < |fs.dir| && fs.dir[j].inUse ==> fs.dir[j].sector in Named(fs)
  {
    var fs' := PutEntry(fs, i, e);
    forall n | n in Named(fs') ensures n in Named(fs) + (if e.inUse then {e.sector} else {}) {
      var j :| 0 <= j < |fs'.dir| && fs'.dir[j].inUse && fs'.dir[j].sector == n;
      if j != i { assert fs.dir[j].inUse && fs.dir[j].sector == n; }
    }
    if e.inUse { assert fs'.dir[i] == e; }
  }

  /** A new owner whose sectors are marked and were nobody's. */
  lemma OwnersGrow(fs: Fs, fs': Fs, s: nat)
    requires Owned(fs) && Apart(fs) && fs'.marked == fs.marked && fs'.disk == fs.disk && fs'.size == fs.size
    requires Owners(fs') <= Owners(fs) + {s}
    requires s in fs.disk && OnDevice(fs, fs.disk[s])
    requires Extent(fs.disk[s], s) <= fs.marked && s !in Data(fs.disk[s])
    requires Unowned(fs, Extent(fs.disk[s], s))
    ensures Owned(fs') && Apart(fs')
  {
    hide Data, Owners, Extent;
  }

  lemma AddEntryInv(fs: Fs, i: nat, e: Entry)
    requires Inv(fs) && i < |fs.dir| && e.inUse && e.sector in fs.disk && OnDevice(fs, fs.disk[e.sector])
    requires Extent(fs.disk[e.sector], e.sector) <= fs.marked && e.sector !in Data(fs.disk[e.sector])
    requires Unowned(fs, Extent(fs.disk[e.sector], e.sector))
    ensures Inv(PutEntry(fs, i, e))
  {
    var fs', s := PutEntry(fs, i, e), e.sector;
    NamedAfterPut(fs, i, e);
    assert s in Extent(fs.disk[s], s);
    assert s !in Owners(fs);
    OwnersGrow(fs, fs', s);
    forall j | 0 <= j < |fs.open| ensures fs.open[j].sector != s { assert fs.open[j].sector in Owners(fs); }
    forall j | 0 <= j < |fs.dir| && fs.dir[j].inUse ensures fs.dir[j].sector != s {
      assert fs.dir[j].sector in Owners(fs);
    }
    hide Owned, Apart, Owners, Data, Extent, Named;
  }

  lemma EraseEntryInv(fs: Fs, i: nat, e: Entry)
    requires Inv(fs) && i < |fs.dir| && !e.inUse
    ensures Inv(PutEntry(fs, i, e))
  {
    NamedAfterPut(fs, i, e);
    OwnersShrink(fs, PutEntry(fs, i, e));
    hide Owned, Apart, Owners, Data, Extent, Named;
  }

  /** After its only entry is erased an inode has no name. */
  lemma ErasedUnnamed(fs: Fs, i: nat, e: Entry)
    requires DirOk(fs) && i < |fs.dir| && fs.dir[i].inUse && !e.inUse
    ensures fs.dir[i].sector !in System() + Named(PutEntry(fs, i, e))
  {
    var s, fs' := fs.dir[i].sector, PutEntry(fs, i, e);
    forall j | 0 <= j < |fs'.dir| && fs'.dir[j].inUse ensures fs'.dir[j].sector != s {
      assert j != i && fs.dir[j].inUse;
    }
  }

  // open inodes

  function PushOpen(fs: Fs, s: nat): Fs
    requires s in fs.disk
  {
    fs.(open := [OpenInode(s, 1, false, fs.disk[s])] + fs.open)
  }

  function PutOpen(fs: Fs, i: nat, o: OpenInode): Fs
    requires i < |fs.open|
  {
    fs.(open := fs.open[i := o])
  }

  function DropOpen(fs: Fs, i: nat): Fs
    requires i < |fs.open|
  {
    fs.(open := fs.open[..i] + fs.open[i + 1..])
  }

  lemma PushOpenOwners(fs: Fs, s: nat)
    requires s in fs.disk
    ensures Opened(PushOpen(fs, s)) == Opened(fs) + {s} && Named(PushOpen(fs, s)) == Named(fs)
  {
    var fs' := PushOpen(fs, s);
    forall n | n in Opened(fs) ensures n in Opened(fs') {
      var i :| 0 <= i < |fs.open| && fs.open[i].sector == n;
      assert fs'.open[i + 1].sector == n;
    }
    assert fs'.open[0].sector == s;
  }

  lemma PushOpenOk(fs: Fs, s: nat)
    requires OpenOk(fs) && s in fs.disk && s !in Opened(fs)
    ensures OpenOk(PushOpen(fs, s))
  {
    PushOpenOwners(fs, s);
    forall i | 0 <= i < |fs.open| ensures fs.open[i].sector != s { assert fs.open[i].sector in Opened(fs); }
    hide Named, Opened;
  }

  lemma PushOpenInv(fs: Fs, s: nat)
    requires Inv(fs) && s in Owners(fs) && s !in Opened(fs)
    ensures s in fs.disk && Inv(PushOpen(fs, s)) && Owners(PushOpen(fs, s)) == Owners(fs)
  {
    PushOpenOwners(fs, s);
    PushOpenOk(fs, s);
    hide OpenOk, Data, Extent, Named, Opened;
    OwnersShrink(fs, PushOpen(fs, s));
  }

  /** Changing the count, or the removed flag of a nameless inode. */
  lemma PutOpenInv(fs: Fs, i: nat, o: OpenInode)
    requires Inv(fs) && i < |fs.open| && o.openCnt > 0
    requires o.sector == fs.open[i].sector && o.data == fs.open[i].data
    requires o.removed ==> fs.open[i].removed || o.sector !in System() + Named(fs)
    ensures Inv(PutOpen(fs, i, o)) && Owners(PutOpen(fs, i, o)) == Owners(fs)
  {
    var fs' := PutOpen(fs, i, o);
    forall j | 0 <= j < |fs.open| ensures fs'.open[j].sector == fs.open[j].sector {}
    assert Opened(fs') == Opened(fs);
    assert Named(fs') == Named(fs);
    OwnersShrink(fs, fs');
    hide Owned, Apart, Owners, Data, Extent, Named, Opened;
  }

  lemma DropOpenOk(fs: Fs, i: nat)
    requires OpenOk(fs) && i < |fs.open|
    ensures OpenOk(DropOpen(fs, i)) && Named(DropOpen(fs, i)) == Named(fs)
    ensures Opened(DropOpen(fs, i)) <= Opened(fs) && fs.open[i].sector in Opened(fs) - Opened(DropOpen(fs, i))
  {
    var fs', s := DropOpen(fs, i), fs.open[i].sector;
    forall j | 0 <= j < |fs'.open| ensures fs'.open[j] in fs.open && fs'.open[j].sector != s {
      assert fs'.open[j] == if j < i then fs.open[j] else fs.open[j + 1];
    }
  }

  /** A removed inode's last close leaves its sectors marked and unowned, ready for release. */
  lemma DropOpenInv(fs: Fs, i: nat)
    requires Inv(fs) && i < |fs.open|
    ensures Inv(DropOpen(fs, i)) && Owners(DropOpen(fs, i)) <= Owners(fs)
    ensures fs.open[i].removed ==>
              var s := fs.open[i].sector;
              && s in fs.disk && OnDevice(fs, fs.disk[s])
              && Extent(fs.disk[s], s) <= fs.marked && s !in Data(fs.disk[s])
              && Unowned(DropOpen(fs, i), Extent(fs.disk[s], s))
  {
    DropOpenOk(fs, i);
    assert fs.open[i].removed ==> fs.open[i].sector !in System() + Named(fs);
    hide OpenOk, Data, Extent, Named, Opened;
    OwnersShrink(fs, DropOpen(fs, i));
  }
}
