/** The file-system operations themselves, as methods that keep the ownership invariant of
    module FileSystem over every run.  Memory and disk-write failures are arguments: any
    allocation, free-map write or directory read may fail. */
module FileSys {
  import opened Options
  import opened Integers
  import opened Bitmaps
  import opened FileSystem
  import InodeIO

  /** Which fallible actions succeed in one call.  The two read counts give the directory reads that
      succeed before one fails. */
  datatype Luck = Luck(rootMem: bool, dirMem: bool, inodeMem: bool, mapWrite: bool, dataMapWrite: bool,
                       lookupReads: nat, slotReads: nat, dirWrite: bool)

  class Volume {
    const freeMap: Bitmap
    var disk: map<nat, DiskInode>
    var open: seq<OpenInode>
    var dir: seq<Entry>

    ghost function State(): Fs
      requires freeMap.Valid()
      reads this, freeMap.bits
    {
      Fs(freeMap.bitCnt, SetBits(0, freeMap.View()), disk, open, dir)
    }

    ghost predicate Valid()
      reads this, freeMap.bits
    {
      freeMap.Valid() && Inv(State())
    }

    /** inode_init and free_map_init: only the two system sectors are marked. */
    constructor (sectors: nat)
      requires sectors >= 2
      ensures freeMap.Valid() && fresh(freeMap.bits) && freeMap.bitCnt == sectors
      ensures State() == Fs(sectors, System(), map[], [], [])
    {
      freeMap := new Bitmap(sectors);
      disk, open, dir := map[], [], [];
      new;
      freeMap.Mark(FREE_MAP_SECTOR);
      freeMap.Mark(ROOT_DIR_SECTOR);
      assert freeMap.View() == seq(sectors, _ => false)[FREE_MAP_SECTOR := true][ROOT_DIR_SECTOR := true];
      assert SetBits(0, freeMap.View()) == System();
    }

    // ----- free-map.c

    /** Mark cnt consecutive sectors, unless none are free or the free map cannot be written. */
    method FreeMapAllocate(cnt: nat, writeOk: bool) returns (r: Option<nat>)
      requires freeMap.Valid()
      modifies freeMap.bits
      ensures freeMap.Valid()
      ensures r.Some? <==> writeOk && !NoSpace(freeMap.bitCnt, old(State()).marked, cnt)
      ensures r.None? ==> State() == old(State())
      ensures r.Some? ==>
                && r.value + cnt <= freeMap.bitCnt && Range(r.value, cnt) !! old(State()).marked
                && FirstFit(freeMap.bitCnt, old(State()).marked, cnt, r.value)
                && State() == Mark(old(State()), Range(r.value, cnt))
    {
      hide Range, SetBits, Fill, Group, Bitmap.View;
      ghost var v := freeMap.View();
      r := freeMap.ScanAndFlip(0, cnt, false);
      if r.None? {
        NoGroupNoSpace(v, cnt);
        return;
      }
      GroupWithin(v, r.value, cnt, false);
      GroupIsRange(0, v, r.value, cnt);
      GroupFirstFit(v, cnt, r.value);
      SetBitsAfterFill(0, v, r.value, cnt, true);
      if !writeOk {
        freeMap.SetMultiple(r.value, cnt, false);
        UndoFill(v, r.value, cnt);
        r := None;
      }
    }

    /** The assertion that every released sector is marked is proved from the precondition. */
    method FreeMapRelease(sector: nat, cnt: nat)
      requires freeMap.Valid() && sector + cnt <= freeMap.bitCnt && Range(sector, cnt) <= State().marked
      modifies freeMap.bits
      ensures freeMap.Valid() && State() == Unmark(old(State()), Range(sector, cnt))
    {
      hide Fill, Bitmap.View;
      ghost var v := freeMap.View();
      if cnt > 0 { RangeIsGroup(0, v, sector, cnt); }
      var all := freeMap.All(sector, cnt);
      assert all;
      hide Range, SetBits, Group;
      freeMap.SetMultiple(sector, cnt, false);
      SetBitsAfterFill(0, v, sector, cnt, false);
    }
  
    // ----- inode.c

    /** inode_create: allocate the data sectors, write the inode and zero the data. */
    method InodeCreate(sector: nat, length: nat, memOk: bool, writeOk: bool) returns (ok: bool, ghost di: DiskInode)
      requires freeMap.Valid()
      modifies this`disk, freeMap.bits
      ensures freeMap.Valid()
      ensures !ok ==> State() == old(State())
      ensures ok <==> memOk && writeOk &&
                      !NoSpace(freeMap.bitCnt, old(State()).marked, InodeIO.BytesToSectors(length))
      ensures ok ==>
                && di.length == length && FileSystem.OnDevice(old(State()), di) && Data(di) !! old(State()).marked
                && FirstFit(freeMap.bitCnt, old(State()).marked, InodeIO.BytesToSectors(length), di.start)
                && JustEnough(di)
                && State() == WriteInode(Mark(old(State()), Data(di)), sector, di)
    {
      di := DiskInode(0, length);
      if !memOk { return false, di; }
      hide Range, SetBits, Bitmap.View, NoSpace;
      var cnt := InodeIO.BytesToSectors(length);
      var start := FreeMapAllocate(cnt, writeOk);
      if start.None? { return false, di; }
      di := DiskInode(start.value, length);
      disk := disk[sector := DiskInode(start.value, length)];
      ZeroData(start.value, cnt);
      DataSectors(di);
      ok := true;
    }

    /** Zero cnt sectors: whatever inodes were there are gone. */
    method ZeroData(start: nat, cnt: nat)
      modifies this`disk
      ensures disk == old(disk) - Range(start, cnt)
    {
      hide Range;
      assert Range(start, 0) == {};
      for i := 0 to cnt
        invariant disk == old(disk) - Range(start, i)
      {
        assert Range(start, i + 1) == Range(start, i) + {start + i};
        disk := disk - {start + i};
      }
    }

    /** The position of the open inode for sector, by inode_open's scan. */
    method FindOpen(sector: nat) returns (r: Option<nat>)
      ensures r.Some? ==> r.value < |open| && open[r.value].sector == sector
      ensures r.None? ==> forall i :: 0 <= i < |open| ==> open[i].sector != sector
    {
      for i := 0 to |open|
        invariant forall j :: 0 <= j < i ==> open[j].sector != sector
      {
        if open[i].sector == sector { return Some(i); }
      }
      return None;
    }

    /** inode_open: the one struct inode for the sector gains an opener. */
    method InodeOpen(sector: nat, memOk: bool) returns (ok: bool)
      requires Valid() && sector in Owners(State())
      modifies this`open
      ensures Valid() && Owners(State()) == old(Owners(State()))
      ensures !ok ==> State() == old(State())
      ensures ok ==> sector in Opened(State()) && OpenCount(open, sector) == old(OpenCount(open, sector)) + 1
      ensures ok ==> forall n :: n != sector ==> OpenCount(open, n) == old(OpenCount(open, n))
      ensures ok <==> old(sector in Opened(State())) || memOk
    {
      var at := FindOpen(sector);
      ghost var fs := State();
      if at.Some? {
        var o := open[at.value];
        PutOpenInv(fs, at.value, o.(openCnt := o.openCnt + 1));
        PutOpenCount(open, at.value, o.openCnt + 1);
        open := open[at.value := o.(openCnt := o.openCnt + 1)];
        assert State() == PutOpen(fs, at.value, o.(openCnt := o.openCnt + 1));
        assert open[at.value].sector == sector;
        ok := true;
      } else if memOk {
        assert sector !in Opened(fs);
        PushOpenInv(fs, sector);
        open := [OpenInode(sector, 1, false, disk[sector])] + open;
        assert State() == PushOpen(fs, sector);
        PushOpenCount(fs.open, open[0]);
        assert open[0].sector == sector;
        ok := true;
      } else {
        assert sector !in Opened(fs);
        ok := false;
      }
    }
  
    /** inode_reopen of an inode that the caller has open. */
    method InodeReopen(sector: nat)
      requires Valid() && sector in Opened(State())
      modifies this`open
      ensures Valid() && Owners(State()) == old(Owners(State()))
      ensures OpenCount(open, sector) == old(OpenCount(open, sector)) + 1
      ensures forall n :: n != sector ==> OpenCount(open, n) == old(OpenCount(open, n))
    {
      var ok := InodeOpen(sector, false);
    }

    /** inode_close: the last close of a removed inode, and nothing else, releases its sectors. */
    method InodeClose(sector: nat) returns (ghost freed: set<nat>)
      requires Valid() && sector in Opened(State())
      modifies this`open, freeMap.bits
      ensures Valid() && sector in disk
      ensures OpenCount(open, sector) == old(OpenCount(open, sector)) - 1
      ensures forall n :: n != sector ==> OpenCount(open, n) == old(OpenCount(open, n))
      ensures freed == if old(OpenCount(open, sector)) == 1 && old(IsRemoved(open, sector)) then Extent(disk[sector], sector) else {}
      ensures forall n :: OpenCount(open, n) > 0 ==> IsRemoved(open, n) == old(IsRemoved(open, n))
      ensures State().marked == old(State()).marked - freed
      ensures Owners(State()) <= old(Owners(State()))
      ensures System() + Named(State()) == old(System() + Named(State()))
    {
      hide Inv, Unowned, SetBits, Bitmap.View, Bitmap.Valid, Range, Data, OpenCount, IsRemoved;
      freed := {};
      OpenedIndex(State(), sector);
      var at := FindOpen(sector);
      var i := at.value;
      var o := open[i];
      ghost var fs := State();
      OpenFacts(fs, i);
      if o.openCnt > 1 {
        CloseNotLast(fs, i);
        open := open[i := o.(openCnt := o.openCnt - 1)];
        assert State() == PutOpen(fs, i, o.(openCnt := o.openCnt - 1));
      } else {
        CloseLast(fs, i);
        open := open[..i] + open[i + 1..];
        assert State() == DropOpen(fs, i);
        if o.removed {
          freed := ReleaseInode(sector, o.data);
        }
      }
    }

    /** The two free_map_release calls of the last close. */
    method ReleaseInode(sector: nat, data: DiskInode) returns (ghost freed: set<nat>)
      requires Valid() && FileSystem.OnDevice(State(), data) && sector !in Data(data)
      requires Extent(data, sector) <= State().marked && Unowned(State(), Extent(data, sector))
      modifies freeMap.bits
      ensures Valid() && freed == Extent(data, sector) && State() == Unmark(old(State()), freed)
    {
      ghost var fs := State();
      freed := Extent(data, sector);
      UnmarkInv(fs, freed);
      assert sector in fs.marked && Range(sector, 1) == {sector};
      hide Range, SetBits, Bitmap.View, Inv, Unowned;
      FreeMapRelease(sector, 1);
      FreeMapRelease(data.start, InodeIO.BytesToSectors(data.length));
      assert State() == Unmark(fs, freed);
    }

    /** inode_remove: mark a nameless open inode for deletion at its last close. */
    method InodeRemove(sector: nat)
      requires Valid() && sector in Opened(State()) && sector !in System() + Named(State())
      modifies this`open
      ensures Valid() && Owners(State()) == old(Owners(State())) && Opened(State()) == old(Opened(State()))
      ensures IsRemoved(open, sector) && forall n :: OpenCount(open, n) == old(OpenCount(open, n))
    {
      hide Inv, SetBits, Bitmap.View, Bitmap.Valid, OpenCount, Named, Opened;
      OpenedIndex(State(), sector);
      var at := FindOpen(sector);
      var i := at.value;
      var o := open[i].(removed := true);
      ghost var fs := State();
      RemoveFacts(fs, i);
      open := open[i := o];
      assert State() == PutOpen(fs, i, o);
      assert open[i].sector == sector && open[i].removed;
    }

    /** inode_write_at on an owner's data area: no owner's inode is disturbed. */
    method WriteData(sector: nat)
      requires Valid() && sector in Owners(State())
      modifies this`disk
      ensures Valid() && Owners(State()) == old(Owners(State()))
      ensures forall m :: m in Owners(State()) ==> m in disk && m in old(disk) && disk[m] == old(disk)[m]
    {
      ghost var fs := State();
      OverwriteInv(fs, sector);
      assert sector in disk;
      hide Inv, SetBits, Bitmap.View, Bitmap.Valid, Range, Named, Opened;
      var di := disk[sector];
      ZeroData(di.start, InodeIO.BytesToSectors(di.length));
      assert State() == Overwrite(fs, sector);
    }

    // ----- directory.c, on the root directory

    /** lookup: the first readable in-use slot with the name. */
    method Lookup(name: string, readable: nat) returns (r: Option<nat>)
      ensures r.Some? ==> r.value < |dir| && r.value < readable && dir[r.value].inUse && dir[r.value].name == name
      ensures r.None? ==> forall i :: 0 <= i < |dir| && i < readable ==> !(dir[i].inUse && dir[i].name == name)
    {
      var i := 0;
      while i < |dir| && i < readable
        invariant 0 <= i <= |dir|
        invariant forall j :: 0 <= j < i ==> !(dir[j].inUse && dir[j].name == name)
      {
        if dir[i].inUse && dir[i].name == name { return Some(i); }
        i := i + 1;
      }
      return None;
    }

    /** dir_add's search for a slot: the first that is free, or that cannot be read, or the end. */
    method FindSlot(readable: nat) returns (slot: nat)
      ensures SlotIs(dir, readable, slot)
    {
      slot := 0;
      while slot < |dir| && slot < readable
        invariant slot <= |dir| && slot <= readable && forall j :: 0 <= j < slot ==> dir[j].inUse
      {
        if !dir[slot].inUse { break; }
        slot := slot + 1;
      }
    }

    /** dir_add, as a change of the slots alone.  Its comment counts on reads that fall short
        only at the end of the directory; here they may fail anywhere. */
    method DirAdd(name: string, sector: nat, luck: Luck) returns (ok: bool, ghost slot: nat)
      modifies this`dir
      ensures ok <==> Accepts(name, old(dir), luck)
      ensures !ok ==> dir == old(dir)
      ensures ok ==> SlotIs(old(dir), luck.slotReads, slot) && slot < |old(dir)| &&
                     dir == old(dir)[slot := Entry(sector, name, true)]
    {
      ok, slot := false, 0;
      if name == [] || |name| > NAME_MAX { return; }
      var found := Lookup(name, luck.lookupReads);
      if found.Some? { return; }
      var s := FindSlot(luck.slotReads);
      slot := s;
      if s < |dir| && luck.dirWrite {
        dir := dir[s := Entry(sector, name, true)];
        ok := true;
      }
    }

    // ----- filesys.c

    /** dir_open_root. */
    method OpenRoot(luck: Luck) returns (ok: bool)
      requires Valid()
      modifies this`open, freeMap.bits
      ensures Valid() && Owners(State()) <= old(Owners(State())) + {ROOT_DIR_SECTOR}
      ensures State().marked == old(State()).marked
      ensures ok <==> (old(ROOT_DIR_SECTOR in Opened(State())) || luck.rootMem) && luck.dirMem
      ensures ok ==> ROOT_DIR_SECTOR in Opened(State())
      ensures OpenCount(open, ROOT_DIR_SECTOR) == old(OpenCount(open, ROOT_DIR_SECTOR)) + if ok then 1 else 0
      ensures forall n :: n != ROOT_DIR_SECTOR ==> OpenCount(open, n) == old(OpenCount(open, n))
    {
      RootNotRemoved(State());
      hide Inv, SetBits, Bitmap.View, Bitmap.Valid, OpenCount, IsRemoved, Opened, Owners;
      ok := InodeOpen(ROOT_DIR_SECTOR, luck.rootMem);
      if ok && !luck.dirMem {
        CloseRoot();
        ok := false;
      }
    }

    /** dir_close of the root directory. */
    method CloseRoot()
      requires Valid() && ROOT_DIR_SECTOR in Opened(State())
      modifies this`open, freeMap.bits
      ensures Valid() && State().marked == old(State()).marked && Owners(State()) <= old(Owners(State()))
      ensures OpenCount(open, ROOT_DIR_SECTOR) == old(OpenCount(open, ROOT_DIR_SECTOR)) - 1
      ensures forall n :: n != ROOT_DIR_SECTOR ==> OpenCount(open, n) == old(OpenCount(open, n))
      ensures forall n :: OpenCount(open, n) > 0 ==> IsRemoved(open, n) == old(IsRemoved(open, n))
    {
      RootNotRemoved(State());
      hide Inv, SetBits, Bitmap.View, Bitmap.Valid, OpenCount;
      ghost var freed := InodeClose(ROOT_DIR_SECTOR);
    }

    /** filesys_create once the root directory is open.  The rollback releases the inode sector,
        which is never sector 0, the value that tells the source nothing was allocated; when
        dir_add fails, the data sectors stay marked although nobody owns them: they leak. */
    method CreateIn(name: string, size: nat, luck: Luck) returns (ok: bool, ghost s: nat, ghost slot: nat, ghost leaked: set<nat>)
      requires Valid()
      modifies this`disk, this`dir, freeMap.bits
      ensures Valid()
      ensures ok <==> Makes(freeMap.bitCnt, old(State()).marked, size, luck) && Accepts(name, old(dir), luck)
      ensures !ok ==> dir == old(dir) && State().marked == old(State()).marked + leaked
      ensures leaked !! old(State()).marked
      ensures if Makes(freeMap.bitCnt, old(State()).marked, size, luck) && !Accepts(name, old(dir), luck)
              then IsExtent(leaked, size) else leaked == {}
      ensures ok ==>
                && s in disk && disk[s].length == size
                && Extent(disk[s], s) !! old(State()).marked
                && State().marked == old(State()).marked + Extent(disk[s], s)
                && SlotIs(old(dir), luck.slotReads, slot) && slot < |old(dir)|
                && dir == old(dir)[slot := Entry(s, name, true)]
    {
      hide JustEnough, NoSpace, Accepts, FirstFit, SlotIs, Inv, Unowned, SetBits, Bitmap.View, Bitmap.Valid, Range, Data;
      ok, s, slot, leaked := false, 0, 0, {};
      ghost var fs := State();
      var sector := FreeMapAllocate(1, luck.mapWrite);
      if sector.Some? {
        s := sector.value;
        AllocFacts(fs, s);
        FirstSector(freeMap.bitCnt, fs.marked, size, s);
        ghost var fs1 := State();
        ghost var di;
        var made;
        made, di := InodeCreate(sector.value, size, luck.inodeMem, luck.dataMapWrite);
        if !made {
          ReleaseFacts(fs1, s);
          FreeMapRelease(sector.value, 1);
          TakeBack(fs.marked, s, {});
        } else {
          BuildFacts(fs1, s, di);
          ghost var fs2 := State();
          ok, slot := DirAdd(name, sector.value, luck);
          if ok {
            AddEntryInv(fs2, slot, Entry(s, name, true));
            assert State() == PutEntry(fs2, slot, Entry(s, name, true));
            TakeBack(fs.marked, s, Data(di));
          } else {
            ReleaseFacts(fs2, s);
            FreeMapRelease(sector.value, 1);
            leaked := Data(di);
            DataIsExtent(di);
            TakeBack(fs.marked, s, Data(di));
          }
        }
      } else {
        NoFirstSector(freeMap.bitCnt, fs.marked, size);
      }
    }

    /** filesys_create.  It leaks sectors exactly when it has made the inode and the directory
        then refuses the name, however wrong the name was from the start. */
    method Create(name: string, size: nat, luck: Luck) returns (ok: bool, ghost s: nat, ghost slot: nat, ghost leaked: set<nat>)
      requires Valid()
      modifies this, freeMap.bits
      ensures Valid()
      ensures forall n :: OpenCount(open, n) == old(OpenCount(open, n))
      ensures var made := old(RootOpens(luck)) && Makes(freeMap.bitCnt, old(State()).marked, size, luck);
              && (ok <==> made && Accepts(name, old(dir), luck))
              && (if made && !Accepts(name, old(dir), luck) then IsExtent(leaked, size) else leaked == {})
      ensures !ok ==> dir == old(dir) && State().marked == old(State()).marked + leaked
      ensures leaked !! old(State()).marked
      ensures ok ==>
                && s in disk && disk[s].length == size && JustEnough(disk[s])
                && Extent(disk[s], s) !! old(State()).marked
                && State().marked == old(State()).marked + Extent(disk[s], s)
                && SlotIs(old(dir), luck.slotReads, slot) && slot < |old(dir)|
                && dir == old(dir)[slot := Entry(s, name, true)]
      ensures ok ==> (NamesUnique(dir) <==> UniqueBut(old(dir), slot) && AbsentBut(name, old(dir), slot))
    {
      hide JustEnough, NamesUnique, UniqueBut, AbsentBut, Accepts, Makes, IsExtent, SlotIs, Inv, SetBits, Bitmap.View, Bitmap.Valid, Range, Data, OpenCount;
      ok, s, slot, leaked := false, 0, 0, {};
      var root := OpenRoot(luck);
      if root {
        ok, s, slot, leaked := CreateIn(name, size, luck);
        if ok {
          AddUnique(old(dir), slot, Entry(s, name, true));
          DataSectors(disk[s]);
        }
        CloseRoot();
      }
    }

    /** Whether dir_open_root succeeds. */
    ghost predicate RootOpens(luck: Luck)
      requires freeMap.Valid()
      reads this, freeMap.bits
    {
      (ROOT_DIR_SECTOR in Opened(State()) || luck.rootMem) && luck.dirMem
    }

    /** filesys_open: open the inode that the name's first entry gives. */
    method Open(name: string, luck: Luck, fileMem: bool) returns (r: Option<nat>)
      requires Valid()
      modifies this`open, freeMap.bits
      ensures Valid() && State().marked == old(State()).marked
      ensures r.Some? ==> r.value in Opened(State()) && Entry(r.value, name, true) in dir
      ensures forall n: nat :: OpenCount(open, n) == old(OpenCount(open, n)) + if r == Some(n) then 1 else 0
      ensures r.None? && luck.lookupReads >= |dir| && luck.rootMem && luck.dirMem && luck.inodeMem && fileMem ==>
                forall i :: 0 <= i < |dir| ==> !(dir[i].inUse && dir[i].name == name)
    {
      hide Inv, SetBits, Bitmap.View, Bitmap.Valid, OpenCount, Opened;
      r := None;
      var root := OpenRoot(luck);
      if root {
        var at := Lookup(name, luck.lookupReads);
        if at.Some? {
          var sector := dir[at.value].sector;
          NamedFacts(State(), sector, at.value);
          var got := InodeOpen(sector, luck.inodeMem);
          if got { r := Some(sector); }
        }
        OpenedCounts(State());
        CloseRoot();
        OpenedCounts(State());
        if r.Some? && !fileMem {
          NamedFacts(State(), r.value, at.value);
          ghost var freed := InodeClose(r.value);
          r := None;
        }
      }
    }

    /** dir_remove once the root directory is open: erase the entry, mark the inode and close it. */
    method RemoveIn(name: string, luck: Luck) returns (ok: bool, ghost s: nat)
      requires Valid()
      modifies this`open, this`dir, freeMap.bits
      ensures Valid() && |dir| == |old(dir)|
      ensures forall n :: OpenCount(open, n) == old(OpenCount(open, n))
      ensures !ok ==> dir == old(dir) && State().marked == old(State()).marked
      ensures ok ==> exists i :: 0 <= i < |old(dir)| && old(dir)[i] == Entry(s, name, true)
                                 && dir == old(dir)[i := Entry(s, name, false)]
      ensures ok ==> s in disk && s !in Named(State())
      ensures old(NamesUnique(dir)) ==> NamesUnique(dir)
      ensures ok && old(OpenCount(open, s)) == 0 ==> State().marked == old(State()).marked - Extent(disk[s], s)
      ensures ok && old(OpenCount(open, s)) > 0 ==> State().marked == old(State()).marked && IsRemoved(open, s)
      ensures luck.inodeMem && luck.dirWrite && luck.lookupReads >= |dir| && Present(name, old(dir)) ==> ok
    {
      hide NamesUnique, Inv, SetBits, Bitmap.View, Bitmap.Valid, OpenCount, Opened, Range, Data;
      ok, s := false, 0;
      var at := Lookup(name, luck.lookupReads);
      if at.Some? {
        var i := at.value;
        var sector := dir[i].sector;
        s := sector;
        NamedFacts(State(), sector, i);
        var got := InodeOpen(sector, luck.inodeMem);
        if got {
          if luck.dirWrite {
            ghost var fs := State();
            var e := dir[i].(inUse := false);
            EraseFacts(fs, i, e);
            if NamesUnique(dir) { ErasedUnique(dir, i, e); }
            dir := dir[i := e];
            assert State() == PutEntry(fs, i, e);
            InodeRemove(sector);
            ok := true;
          } else {
            NamedFacts(State(), sector, i);
          }
          ghost var freed := InodeClose(sector);
        }
      }
    }

    /** filesys_remove: a file that nobody has open loses its sectors at once; an open one keeps
        them until InodeClose frees them at the last close. */
    method Remove(name: string, luck: Luck) returns (ok: bool, ghost s: nat)
      requires Valid()
      modifies this`open, this`dir, freeMap.bits
      ensures Valid() && |dir| == |old(dir)|
      ensures forall n :: OpenCount(open, n) == old(OpenCount(open, n))
      ensures !ok ==> dir == old(dir) && State().marked == old(State()).marked
      ensures ok ==> exists i :: 0 <= i < |old(dir)| && old(dir)[i] == Entry(s, name, true)
                                 && dir == old(dir)[i := Entry(s, name, false)]
      ensures ok ==> s in disk && s !in Named(State())
      ensures old(NamesUnique(dir)) ==> NamesUnique(dir)
      ensures ok && old(OpenCount(open, s)) == 0 ==> State().marked == old(State()).marked - Extent(disk[s], s)
      ensures ok && old(OpenCount(open, s)) > 0 ==> State().marked == old(State()).marked && IsRemoved(open, s)
      ensures luck.rootMem && luck.dirMem && luck.inodeMem && luck.dirWrite && luck.lookupReads >= |dir| && Present(name, old(dir)) ==> ok
    {
      hide NamesUnique, Present, Inv, SetBits, Bitmap.View, Bitmap.Valid, OpenCount, Opened, Range, Data;
      ok, s := false, 0;
      var root := OpenRoot(luck);
      if root {
        NamesNotSystem(State());
        ok, s := RemoveIn(name, luck);
        OpenedCounts(State());
        CloseRoot();
      }
    }

    /** do_format on a blank device: the free-map file, then a root directory of sixteen slots.
        It panics, here returns false, exactly when memory or sectors run out; then the sectors
        of the two lie next to each other after the system sectors. */
    method Format(freeMapMem: bool, rootMem: bool, openMem: bool) returns (ok: bool)
      requires freeMap.Valid() && State() == Fs(freeMap.bitCnt, System(), map[], [], [])
      modifies this, freeMap.bits
      ensures var n := InodeIO.BytesToSectors(ByteCnt(freeMap.bitCnt));
              && (ok <==> freeMapMem && rootMem && openMem && n + 3 <= freeMap.bitCnt)
              && (ok ==> Valid() && State().marked == Range(0, n + 3))
      ensures ok ==> dir == seq(16, _ => Entry(0, "", false))
      ensures ok ==>
                && FREE_MAP_SECTOR in disk && disk[FREE_MAP_SECTOR].length == ByteCnt(freeMap.bitCnt)
                && ROOT_DIR_SECTOR in disk && disk[ROOT_DIR_SECTOR].length == 320
      ensures ok ==> Valid() && |dir| == 16 && NamesUnique(dir) && Named(State()) == {} && Opened(State()) == {FREE_MAP_SECTOR}
    {
      hide JustEnough, Inv, SetBits, Bitmap.View, Bitmap.Valid, Range, NoSpace, FirstFit;
      ghost var sectors, n := freeMap.bitCnt, InodeIO.BytesToSectors(ByteCnt(freeMap.bitCnt));
      ghost var di0, di1;
      FormatFits(sectors);
      ok, di0 := InodeCreate(FREE_MAP_SECTOR, ByteCnt(freeMap.bitCnt), freeMapMem, true);
      if ok {
        assert Data(di0) == Range(2, n);
        assert State().marked == Range(0, n + 2);
        ok, di1 := InodeCreate(ROOT_DIR_SECTOR, 16 * 20, rootMem, true);
      }
      if ok {
        assert Data(di1) == Range(n + 2, 1);
        assert State().marked == Range(0, n + 3);
        dir := seq(16, _ => Entry(0, "", false));
        ok := OpenFreeMap(di0, di1, openMem);
      }
    }

    /** The last step of formatting: the free-map file is opened. */
    method OpenFreeMap(ghost di0: DiskInode, ghost di1: DiskInode, openMem: bool) returns (ok: bool)
      requires freeMap.Valid() && open == [] && forall i :: 0 <= i < |dir| ==> !dir[i].inUse
      requires State().marked == System() + Data(di0) + Data(di1)
      requires Data(di0) !! System() && Data(di1) !! System() + Data(di0)
      requires FREE_MAP_SECTOR in disk && disk[FREE_MAP_SECTOR] == di0 && FileSystem.OnDevice(State(), di0)
      requires ROOT_DIR_SECTOR in disk && disk[ROOT_DIR_SECTOR] == di1 && FileSystem.OnDevice(State(), di1)
      modifies this`open
      ensures ok == openMem && Valid() && Named(State()) == {}
      ensures Opened(State()) == if ok then {FREE_MAP_SECTOR} else {}
    {
      hide Inv, SetBits, Bitmap.View, Bitmap.Valid, Range, Data;
      FormatInv(State(), di0, di1);
      OpenedCounts(State());
      ok := InodeOpen(FREE_MAP_SECTOR, openMem);
      OpenedCounts(State());
    }
  }

  /** The sectors that do_format takes, if there are so many. */
  lemma FormatFits(sectors: nat)
    ensures var n := InodeIO.BytesToSectors(ByteCnt(sectors));
            && System() == Range(0, 2) && Range(0, 2) + Range(2, n) == Range(0, n + 2)
            && Range(0, n + 2) + Range(n + 2, 1) == Range(0, n + 3) && InodeIO.BytesToSectors(320) == 1
    ensures var n := InodeIO.BytesToSectors(ByteCnt(sectors));
            sectors >= 2 ==>
              && n > 0 && (NoSpace(sectors, Range(0, 2), n) <==> n + 2 > sectors)
              && (forall p: nat :: FirstFit(sectors, Range(0, 2), n, p) ==> p == 2)
              && (n + 2 <= sectors ==> (NoSpace(sectors, Range(0, n + 2), 1) <==> n + 3 > sectors))
              && var k := n + 2;
                 (k <= sectors ==> forall p: nat :: FirstFit(sectors, Range(0, k), 1, p) ==> p == k)
  {
    var n := InodeIO.BytesToSectors(ByteCnt(sectors));
    if sectors >= 2 {
      PrefixFit(sectors, 2, n);
      if n + 2 <= sectors { PrefixFit(sectors, n + 2, 1); }
    }
  }

  /** No cnt consecutive sectors are free. */
  ghost predicate NoSpace(sectors: nat, marked: set<nat>, cnt: nat)
  {
    forall p: nat :: p + cnt <= sectors ==> Range(p, cnt) * marked != {}
  }

  /** The first cnt consecutive free sectors start at p. */
  ghost predicate FirstFit(sectors: nat, marked: set<nat>, cnt: nat, p: nat)
  {
    && p + cnt <= sectors && Range(p, cnt) !! marked
    && forall q: nat :: q < p ==> Range(q, cnt) * marked != {}
  }

  /** There is a free sector for an inode, and with the first of them taken there is room for
      the data. */
  ghost predicate Fits(sectors: nat, marked: set<nat>, size: nat)
  {
    exists p: nat :: FirstFit(sectors, marked, 1, p) &&
                     !NoSpace(sectors, marked + Range(p, 1), InodeIO.BytesToSectors(size))
  }

  /** Whether filesys_create gets as far as dir_add. */
  ghost predicate Makes(sectors: nat, marked: set<nat>, size: nat, luck: Luck)
  {
    luck.mapWrite && luck.inodeMem && luck.dataMapWrite && Fits(sectors, marked, size)
  }

  /** The data sectors of some file of that size: none exactly for an empty one. */
  ghost predicate IsExtent(s: set<nat>, size: nat)
  {
    (exists p: nat :: s == Range(p, InodeIO.BytesToSectors(size))) && (s == {} <==> size == 0)
  }

  /** Whether dir_add succeeds: the name is valid, no slot that its lookup reads has it, there
      is a slot to write, if only one that cannot be read, and the write succeeds. */
  ghost predicate Accepts(name: string, dir: seq<Entry>, luck: Luck)
  {
    && 0 < |name| <= NAME_MAX
    && (forall i :: 0 <= i < |dir| && i < luck.lookupReads ==> !(dir[i].inUse && dir[i].name == name))
    && (luck.slotReads < |dir| || exists i :: 0 <= i < |dir| && !dir[i].inUse)
    && luck.dirWrite
  }

  /** The slot that dir_add writes when `readable` of its reads succeed. */
  ghost predicate SlotIs(dir: seq<Entry>, readable: nat, slot: nat)
  {
    && slot <= |dir| && slot <= readable
    && (forall j :: 0 <= j < slot ==> dir[j].inUse)
    && (slot < |dir| && slot < readable ==> !dir[slot].inUse)
  }

  /** dir_add overwrites an entry in use exactly when a read fails before a free slot is met. */
  lemma OverwritesExactly(dir: seq<Entry>, readable: nat, slot: nat)
    requires SlotIs(dir, readable, slot)
    ensures slot < |dir| && dir[slot].inUse <==>
            readable < |dir| && forall j :: 0 <= j <= readable ==> dir[j].inUse
  {
    if readable < |dir| && forall j :: 0 <= j <= readable ==> dir[j].inUse { assert dir[slot].inUse; }
  }

  /** In the root directory: a first entry in use that cannot be read is lost. */
  lemma OverwriteExample(dir: seq<Entry>, name: string, slot: nat, luck: Luck)
    requires |dir| == 16 && dir[0].inUse && 0 < |name| <= NAME_MAX
    requires luck.lookupReads == 0 && luck.slotReads == 0 && luck.dirWrite && SlotIs(dir, luck.slotReads, slot)
    ensures Accepts(name, dir, luck) && slot == 0
  {
  }

  // ----- names

  /** No two entries in use have one name. */
  ghost predicate NamesUnique(dir: seq<Entry>)
  {
    forall i, j :: 0 <= i < j < |dir| && dir[i].inUse && dir[j].inUse ==> dir[i].name != dir[j].name
  }

  /** No two entries in use other than the slot's have one name. */
  ghost predicate UniqueBut(dir: seq<Entry>, slot: nat)
  {
    forall i, j :: 0 <= i < j < |dir| && i != slot && j != slot && dir[i].inUse && dir[j].inUse ==>
      dir[i].name != dir[j].name
  }

  /** No entry in use other than the slot's has the name. */
  ghost predicate AbsentBut(name: string, dir: seq<Entry>, slot: nat)
  {
    forall j :: 0 <= j < |dir| && j != slot && dir[j].inUse ==> dir[j].name != name
  }

  /** After an entry is written, free or in use before, names are unique exactly when those of
      the other entries are and none of them has the new name. */
  lemma AddUnique(dir: seq<Entry>, slot: nat, e: Entry)
    requires slot < |dir| && e.inUse
    ensures NamesUnique(dir[slot := e]) <==> UniqueBut(dir, slot) && AbsentBut(e.name, dir, slot)
  {
    var dir' := dir[slot := e];
    assert dir'[slot] == e;
    if NamesUnique(dir') {
      forall i, j | 0 <= i < j < |dir| && i != slot && j != slot && dir[i].inUse && dir[j].inUse
        ensures dir[i].name != dir[j].name
      {
        assert dir'[i] == dir[i] && dir'[j] == dir[j];
      }
      forall j | 0 <= j < |dir| && j != slot && dir[j].inUse ensures dir[j].name != e.name {
        assert dir'[j] == dir[j];
      }
    }
  }

  /** Where names are unique and the search for a slot meets no failing read, that is when the
      name is new. */
  lemma AddNew(dir: seq<Entry>, readable: nat, slot: nat, name: string)
    requires NamesUnique(dir) && SlotIs(dir, readable, slot) && slot < |dir| <= readable
    ensures UniqueBut(dir, slot) && (AbsentBut(name, dir, slot) <==> !Present(name, dir))
  {
  }

  /** With all its lookup's reads succeeding dir_add takes new names only. */
  lemma AcceptedNew(name: string, dir: seq<Entry>, luck: Luck)
    requires luck.lookupReads >= |dir| && Accepts(name, dir, luck)
    ensures !Present(name, dir)
  {
  }

  /** Without them a second entry of one name is possible: of the first entry's, whether the
      second was free or is overwritten. */
  lemma DuplicateExample(dir: seq<Entry>, slot: nat, sector: nat, luck: Luck)
    requires |dir| == 16 && dir[0].inUse && 0 < |dir[0].name| <= NAME_MAX
    requires luck.lookupReads == 0 && luck.slotReads == 1 && luck.dirWrite && SlotIs(dir, luck.slotReads, slot)
    ensures Accepts(dir[0].name, dir, luck) && slot == 1
    ensures !NamesUnique(dir[slot := Entry(sector, dir[0].name, true)])
  {
    AddUnique(dir, slot, Entry(sector, dir[0].name, true));
  }

  /** dir_remove keeps names unique. */
  lemma ErasedUnique(dir: seq<Entry>, i: nat, e: Entry)
    requires NamesUnique(dir) && i < |dir| && !e.inUse
    ensures NamesUnique(dir[i := e])
  {
  }

  // ----- what leaks

  /** Names that dir_add refuses whatever else happens; filesys_create allocates first. */
  lemma RefusedNames(name: string, dir: seq<Entry>, luck: Luck)
    requires name == "" || |name| > NAME_MAX || (Present(name, dir) && luck.lookupReads >= |dir|)
    ensures !Accepts(name, dir, luck)
  {
  }

  /** So creating a one-byte file without a name, the first thing done on a formatted disk of
      six sectors, leaks a sector. */
  method LeakExample() returns (v: Volume, ghost leaked: set<nat>)
    ensures fresh(v) && v.Valid() && v.dir == seq(16, _ => Entry(0, "", false))
            && leaked != {} && v.State().marked == Range(0, 4) + leaked
  {
    v := new Volume(6);
    var ok := v.Format(true, true, true);
    assert ByteCnt(6) == 4 && InodeIO.BytesToSectors(4) == 1;
    SixSectors();
    var luck := Luck(true, true, true, true, true, 16, 16, true);
    ghost var s, slot;
    ok, s, slot, leaked := v.Create("", 1, luck);
  }

  lemma SixSectors()
    ensures Fits(6, Range(0, 4), 1)
  {
    PrefixFit(6, 4, 1);
    assert Range(0, 4) + Range(4, 1) == Range(0, 5);
    PrefixFit(6, 5, 1);
    assert InodeIO.BytesToSectors(1) == 1;
    assert FirstFit(6, Range(0, 4), 1, 4) by {
      assert Range(4, 1) !! Range(0, 4);
      forall q: nat | q < 4 ensures Range(q, 1) * Range(0, 4) != {} { assert q in Range(q, 1) * Range(0, 4); }
    }
  }

  /** With just the first k sectors marked, a group fits after them if anywhere. */
  lemma PrefixFit(sectors: nat, k: nat, cnt: nat)
    requires k <= sectors && cnt > 0
    ensures NoSpace(sectors, Range(0, k), cnt) <==> k + cnt > sectors
    ensures forall p: nat :: FirstFit(sectors, Range(0, k), cnt, p) ==> p == k
  {
    assert Range(k, cnt) * Range(0, k) == {};
    forall p: nat | p < k ensures Range(p, cnt) * Range(0, k) != {} { assert p in Range(p, cnt) * Range(0, k); }
    if k + cnt > sectors {
      forall p: nat | p + cnt <= sectors ensures Range(p, cnt) * Range(0, k) != {} { assert p < k; }
    }
  }

  // ----- facts for filesys_create

  lemma FirstSector(sectors: nat, marked: set<nat>, size: nat, s: nat)
    requires FirstFit(sectors, marked, 1, s)
    ensures Fits(sectors, marked, size) <==>
            !NoSpace(sectors, marked + Range(s, 1), InodeIO.BytesToSectors(size))
  {
    hide NoSpace;
    forall p: nat | FirstFit(sectors, marked, 1, p) ensures p == s { OneFirstFit(sectors, marked, 1, p, s); }
  }

  lemma OneFirstFit(sectors: nat, marked: set<nat>, cnt: nat, p: nat, q: nat)
    requires FirstFit(sectors, marked, cnt, p) && FirstFit(sectors, marked, cnt, q)
    ensures p == q
  {
    assert Range(p, cnt) * marked == {} && Range(q, cnt) * marked == {};
  }

  lemma NoFirstSector(sectors: nat, marked: set<nat>, size: nat)
    ensures NoSpace(sectors, marked, 1) ==> !Fits(sectors, marked, size)
  {
    if NoSpace(sectors, marked, 1) {
      forall p: nat ensures !FirstFit(sectors, marked, 1, p) {
        assert p + 1 <= sectors ==> Range(p, 1) * marked != {};
      }
    }
  }

  /** Releasing the inode sector after the data was marked leaves the data. */
  lemma TakeBack(marked: set<nat>, s: nat, data: set<nat>)
    ensures s !in marked && s !in data ==> marked + Range(s, 1) + data - Range(s, 1) == marked + data
    ensures marked + Range(s, 1) + data == marked + ({s} + data)
  {
    assert Range(s, 1) == {s};
  }

  lemma DataIsExtent(di: DiskInode)
    ensures IsExtent(Data(di), di.length)
  {
    var n := InodeIO.BytesToSectors(di.length);
    if n > 0 { assert di.start in Range(di.start, n); } else { assert Range(di.start, n) == {}; }
  }

  lemma GroupFirstFit(v: seq<bool>, cnt: nat, r: nat)
    requires Group(v, r, cnt, false) && forall j :: 0 <= j < r ==> !Group(v, j, cnt, false)
    ensures FirstFit(|v|, SetBits(0, v), cnt, r) && !NoSpace(|v|, SetBits(0, v), cnt)
  {
    hide SetBits;
    GroupWithin(v, r, cnt, false);
    GroupIsRange(0, v, r, cnt);
    forall q: nat | q < r ensures Range(q, cnt) * SetBits(0, v) != {} {
      assert !Group(v, q, cnt, false);
      EmptyGroup(v, q, cnt);
      if cnt > 0 { RangeIsGroup(0, v, q, cnt); }
    }
    assert Range(0 + r, cnt) * SetBits(0, v) == {};
  }

  lemma EmptyGroup(v: seq<bool>, q: nat, cnt: nat)
    ensures cnt == 0 && q <= |v| ==> Group(v, q, cnt, false)
  {
  }

  ghost predicate Present(name: string, dir: seq<Entry>)
  {
    exists i :: 0 <= i < |dir| && dir[i].inUse && dir[i].name == name
  }

  lemma NoGroupNoSpace(v: seq<bool>, cnt: nat)
    requires forall j :: 0 <= j ==> !Group(v, j, cnt, false)
    ensures NoSpace(|v|, SetBits(0, v), cnt)
  {
    hide SetBits;
    forall p: nat | p + cnt <= |v| ensures Range(p, cnt) * SetBits(0, v) != {} {
      assert !Group(v, p, cnt, false);
      if cnt > 0 { RangeIsGroup(0, v, p, cnt); }
    }
  }

  lemma NamesNotSystem(fs: Fs)
    requires Inv(fs)
    ensures forall i :: 0 <= i < |fs.dir| && fs.dir[i].inUse ==> fs.dir[i].sector !in System()
  {}

  lemma FormatInv(fs: Fs, di0: DiskInode, di1: DiskInode)
    requires fs.open == [] && forall i :: 0 <= i < |fs.dir| ==> !fs.dir[i].inUse
    requires fs.marked == System() + Data(di0) + Data(di1)
    requires Data(di0) !! System() && Data(di1) !! System() + Data(di0)
    requires FREE_MAP_SECTOR in fs.disk && fs.disk[FREE_MAP_SECTOR] == di0 && FileSystem.OnDevice(fs, di0)
    requires ROOT_DIR_SECTOR in fs.disk && fs.disk[ROOT_DIR_SECTOR] == di1 && FileSystem.OnDevice(fs, di1)
    ensures Inv(fs) && Named(fs) == {} && Opened(fs) == {} && FREE_MAP_SECTOR in Owners(fs)
  {
    assert Owners(fs) == System();
    hide Range;
  }

  lemma EraseFacts(fs: Fs, i: nat, e: Entry)
    requires Inv(fs) && i < |fs.dir| && fs.dir[i].inUse && !e.inUse
    ensures Inv(PutEntry(fs, i, e)) && Opened(PutEntry(fs, i, e)) == Opened(fs)
    ensures fs.dir[i].sector !in System() + Named(PutEntry(fs, i, e))
  {
    EraseEntryInv(fs, i, e);
    ErasedUnnamed(fs, i, e);
  }

  /** A named inode is owned, is not a system inode and is not marked for deletion. */
  lemma NamedFacts(fs: Fs, n: nat, i: nat)
    requires Inv(fs) && i < |fs.dir| && fs.dir[i].inUse && fs.dir[i].sector == n
    ensures !IsRemoved(fs.open, n) && n in Owners(fs) && n !in System()
  {
    assert n in Named(fs);
  }

  /** An inode is open exactly when its count is positive. */
  lemma OpenedCounts(fs: Fs)
    requires Inv(fs)
    ensures forall n :: n in Opened(fs) <==> OpenCount(fs.open, n) > 0
  {
    forall n | n in Opened(fs) ensures OpenCount(fs.open, n) > 0 {
      var i :| 0 <= i < |fs.open| && fs.open[i].sector == n;
      OpenFacts(fs, i);
    }
    forall n: nat | n !in Opened(fs) ensures OpenCount(fs.open, n) == 0 {
      forall j | 0 <= j < |fs.open| ensures fs.open[j].sector != n { assert fs.open[j].sector in Opened(fs); }
      NotOpenCount(fs.open, n);
    }
  }

  lemma AllocFacts(fs: Fs, s: nat)
    requires Inv(fs) && Range(s, 1) !! fs.marked
    ensures Range(s, 1) == {s} && s !in fs.marked && s != FREE_MAP_SECTOR
    ensures Inv(Mark(fs, Range(s, 1))) && Unowned(Mark(fs, Range(s, 1)), {s})
  {
    assert Range(s, 1) == {s} by { hide Inv; }
    assert FREE_MAP_SECTOR in Owners(fs) && FREE_MAP_SECTOR in Extent(fs.disk[FREE_MAP_SECTOR], FREE_MAP_SECTOR);
    FreshUnowned(fs, {s});
    MarkInv(fs, {s});
  }

  lemma ReleaseFacts(fs: Fs, s: nat)
    requires Inv(fs) && Unowned(fs, {s}) && s in fs.marked
    ensures Range(s, 1) == {s} && Inv(Unmark(fs, Range(s, 1)))
  {
    assert Range(s, 1) == {s} by { hide Inv, Unowned; }
    UnmarkInv(fs, {s});
  }

  lemma BuildFacts(fs: Fs, s: nat, di: DiskInode)
    requires Inv(fs) && Unowned(fs, {s}) && s in fs.marked && Data(di) !! fs.marked
    ensures var fs' := WriteInode(Mark(fs, Data(di)), s, di);
            && Inv(fs') && s in fs'.disk && fs'.disk[s] == di && s !in Data(di)
            && Extent(di, s) <= fs'.marked && Unowned(fs', Extent(di, s)) && Unowned(fs', {s})
  {
    FreshUnowned(fs, Data(di));
    assert Unowned(fs, Extent(di, s));
    MarkInv(fs, Data(di));
    WriteInodeInv(Mark(fs, Data(di)), s, di);
    hide Inv;
  }

  /** The system inodes are never marked for deletion. */
  lemma RootNotRemoved(fs: Fs)
    requires Inv(fs)
    ensures !IsRemoved(fs.open, ROOT_DIR_SECTOR) && ROOT_DIR_SECTOR in Owners(fs)
  {}

  lemma RemoveFacts(fs: Fs, i: nat)
    requires Inv(fs) && i < |fs.open| && fs.open[i].sector !in System() + Named(fs)
    ensures var fs' := PutOpen(fs, i, fs.open[i].(removed := true));
            && Inv(fs') && Owners(fs') == Owners(fs) && Opened(fs') == Opened(fs)
            && forall n :: OpenCount(fs'.open, n) == OpenCount(fs.open, n)
  {
    var o := fs.open[i].(removed := true);
    PutOpenInv(fs, i, o);
    var fs' := PutOpen(fs, i, o);
    forall j | 0 <= j < |fs.open| ensures fs'.open[j].sector == fs.open[j].sector {}
    assert Opened(fs') == Opened(fs);
    SameCounts(fs.open, fs'.open);
  }

  lemma {:induction false} SameCounts(a: seq<OpenInode>, b: seq<OpenInode>)
    requires |a| == |b| && forall i :: 0 <= i < |a| ==> a[i].sector == b[i].sector && a[i].openCnt == b[i].openCnt
    ensures forall n :: OpenCount(a, n) == OpenCount(b, n)
  {
    if a != [] { SameCounts(a[1..], b[1..]); }
  }

  lemma OpenedIndex(fs: Fs, n: nat)
    requires n in Opened(fs)
    ensures exists k :: 0 <= k < |fs.open| && fs.open[k].sector == n
  {}

  lemma OpenFacts(fs: Fs, i: nat)
    requires Inv(fs) && i < |fs.open|
    ensures var o, s := fs.open[i], fs.open[i].sector;
            && s in fs.disk && o.data == fs.disk[s] && o.openCnt > 0
            && OpenCount(fs.open, s) == o.openCnt && (IsRemoved(fs.open, s) <==> o.removed)
  {
    OpenCountAt(fs.open, i);
    RemovedAt(fs.open, i);
  }

  /** The two outcomes of decrementing the count of open inode i. */
  lemma CloseNotLast(fs: Fs, i: nat)
    requires Inv(fs) && i < |fs.open| && fs.open[i].openCnt > 1
    ensures var o, s := fs.open[i], fs.open[i].sector;
            var fs' := PutOpen(fs, i, o.(openCnt := o.openCnt - 1));
            && Inv(fs') && Owners(fs') == Owners(fs)
            && OpenCount(fs'.open, s) == OpenCount(fs.open, s) - 1
            && (forall n :: n != s ==> OpenCount(fs'.open, n) == OpenCount(fs.open, n))
            && forall n :: IsRemoved(fs'.open, n) == IsRemoved(fs.open, n)
  {
    hide OpenCount, Inv;
    var o := fs.open[i];
    PutOpenInv(fs, i, o.(openCnt := o.openCnt - 1));
    PutOpenCount(fs.open, i, o.openCnt - 1);
    SameRemoved(fs.open, fs.open[i := o.(openCnt := o.openCnt - 1)]);
    hide IsRemoved;
  }

  lemma SameRemoved(a: seq<OpenInode>, b: seq<OpenInode>)
    requires |a| == |b| && forall i :: 0 <= i < |a| ==> a[i].sector == b[i].sector && a[i].removed == b[i].removed
    ensures forall n :: IsRemoved(a, n) == IsRemoved(b, n)
  {}

  lemma DropRemoved(open: seq<OpenInode>, i: nat)
    requires i < |open|
    ensures forall n :: n != open[i].sector ==> IsRemoved(open[..i] + open[i + 1..], n) == IsRemoved(open, n)
  {
    var open' := open[..i] + open[i + 1..];
    forall n | n != open[i].sector ensures IsRemoved(open', n) == IsRemoved(open, n) {
      if IsRemoved(open, n) {
        var j :| 0 <= j < |open| && open[j].sector == n && open[j].removed;
        assert open'[if j < i then j else j - 1] == open[j];
      }
    }
  }

  lemma CloseLast(fs: Fs, i: nat)
    requires Inv(fs) && i < |fs.open| && fs.open[i].openCnt == 1
    ensures var o, s, fs' := fs.open[i], fs.open[i].sector, DropOpen(fs, i);
            && Inv(fs') && Owners(fs') <= Owners(fs) && OpenCount(fs'.open, s) == OpenCount(fs.open, s) - 1
            && (forall n :: n != s ==> OpenCount(fs'.open, n) == OpenCount(fs.open, n))
            && (forall n :: n != s ==> IsRemoved(fs'.open, n) == IsRemoved(fs.open, n))
            && (o.removed ==>
                  && FileSystem.OnDevice(fs', o.data) && s !in Data(o.data)
                  && Extent(o.data, s) <= fs'.marked && Unowned(fs', Extent(o.data, s)))
  {
    OpenFacts(fs, i);
    hide OpenCount, IsRemoved, Inv, Unowned, Data;
    DropOpenInv(fs, i);
    DropOpenCount(fs.open, i);
    DropRemoved(fs.open, i);
  }

  predicate IsRemoved(open: seq<OpenInode>, n: nat)
  {
    exists i :: 0 <= i < |open| && open[i].sector == n && open[i].removed
  }

  lemma RemovedAt(open: seq<OpenInode>, i: nat)
    requires i < |open| && forall j, k :: 0 <= j < k < |open| ==> open[j].sector != open[k].sector
    ensures IsRemoved(open, open[i].sector) <==> open[i].removed
  {}

  /** With one struct inode per sector, the openers are those it counts. */
  lemma {:induction false} OpenCountAt(open: seq<OpenInode>, i: nat)
    requires i < |open| && forall j, k :: 0 <= j < k < |open| ==> open[j].sector != open[k].sector
    ensures OpenCount(open, open[i].sector) == open[i].openCnt
  {
    if i > 0 {
      OpenCountAt(open[1..], i - 1);
    } else {
      NotOpenCount(open[1..], open[0].sector);
    }
  }

  lemma {:induction false} NotOpenCount(open: seq<OpenInode>, n: nat)
    requires forall j :: 0 <= j < |open| ==> open[j].sector != n
    ensures OpenCount(open, n) == 0
  {
    if open != [] { NotOpenCount(open[1..], n); }
  }

  lemma {:induction false} DropOpenCount(open: seq<OpenInode>, i: nat)
    requires i < |open|
    ensures forall n :: OpenCount(open[..i] + open[i + 1..], n) ==
                        OpenCount(open, n) - if n == open[i].sector then open[i].openCnt else 0
  {
    var open' := open[..i] + open[i + 1..];
    if i > 0 {
      DropOpenCount(open[1..], i - 1);
      assert open'[1..] == open[1..][..i - 1] + open[1..][i..];
    } else {
      assert open' == open[1..];
    }
  }

  /** Openers of the inode at sector n. */
  function OpenCount(open: seq<OpenInode>, n: nat): nat
  {
    if open == [] then 0
    else (if open[0].sector == n then open[0].openCnt else 0) + OpenCount(open[1..], n)
  }

  lemma {:induction false} PutOpenCount(open: seq<OpenInode>, i: nat, cnt: nat)
    requires i < |open|
    ensures forall n :: OpenCount(open[i := open[i].(openCnt := cnt)], n) ==
                        OpenCount(open, n) + if n == open[i].sector then cnt - open[i].openCnt else 0
  {
    var open' := open[i := open[i].(openCnt := cnt)];
    if i > 0 {
      PutOpenCount(open[1..], i - 1, cnt);
      assert open'[1..] == open[1..][i - 1 := open[i].(openCnt := cnt)];
    } else {
      assert open'[1..] == open[1..];
    }
  }

  lemma PushOpenCount(open: seq<OpenInode>, o: OpenInode)
    ensures forall n :: OpenCount([o] + open, n) == OpenCount(open, n) + if n == o.sector then o.openCnt else 0
  {
    assert ([o] + open)[1..] == open;
  }

  lemma GroupWithin(v: seq<bool>, i: nat, n: nat, b: bool)
    requires Group(v, i, n, b)
    ensures i + n <= |v|
  {}

  lemma UndoFill(v: seq<bool>, i: nat, n: nat)
    requires Group(v, i, n, false)
    ensures Fill(Fill(v, i, n, true), i, n, false) == v
  {}
}
