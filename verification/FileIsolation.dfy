/** The ownership invariant and the byte I/O together: writing one file disturbs no other
    (filesys/inode.c). */
module FileIsolation {
  import opened Integers
  import opened Bytes
  import opened FileSystem
  import opened InodeIO

  /** The inode at sector n as the I/O paths see it. */
  function FileAt(fs: Fs, n: nat): Inode
    requires n in fs.disk
  {
    Inode(fs.disk[n].start, fs.disk[n].length, 0)
  }

  /** A write within an inode's length touches no sector outside its data. */
  lemma SectorKept(d: seq<seq<byte>>, d': seq<seq<byte>>, di: DiskInode, offset: nat, data: seq<byte>, s: nat)
    requires Patched(d, d', di.start * SECTOR + offset, data) && s < |d|
    requires data == [] || offset + |data| <= di.length
    requires s !in Data(di)
    ensures d'[s] == d[s]
  {
    hide Patched;
    var n := BytesToSectors(di.length);
    assert s in Range(di.start, n) <==> di.start <= s < di.start + n;
    assert di.length <= n * SECTOR;
    SectorUntouched(d, d', di.start * SECTOR + offset, data, s);
  }

  /** Whoever reaches another inode, by name, as a system inode or through an open file even
      after its removal, finds its inode sector and all its bytes as they were. */
  lemma WriteIsolated(fs: Fs, n: nat, m: nat, d: seq<seq<byte>>, d': seq<seq<byte>>, offset: nat, data: seq<byte>)
    requires Inv(fs) && n in Owners(fs) && m in Owners(fs) && n != m
    requires |d| == fs.size && Patched(d, d', fs.disk[n].start * SECTOR + offset, data)
    requires data == [] || offset + |data| <= fs.disk[n].length
    ensures m in fs.disk && SectorsOk(d) && SectorsOk(d') && |d'| == |d| && InodeIO.OnDevice(FileAt(fs, m), |d|)
    ensures Contents(d', FileAt(fs, m)) == Contents(d, FileAt(fs, m))
    ensures m < |d| ==> d'[m] == d[m]
    ensures n < |d| ==> d'[n] == d[n]
  {
    hide *;
    OwnersApart(fs, n, m);
    PatchedShape(d, d', fs.disk[n].start * SECTOR + offset, data);
    forall s: nat | s < |d| && s !in Data(fs.disk[n]) ensures d'[s] == d[s] {
      SectorKept(d, d', fs.disk[n], offset, data, s);
    }
    SameFile(fs, m, d, d', Data(fs.disk[n]));
  }

  lemma PatchedShape(d: seq<seq<byte>>, d': seq<seq<byte>>, k: nat, data: seq<byte>)
    requires Patched(d, d', k, data)
    ensures |d'| == |d| && SectorsOk(d) && SectorsOk(d')
  {
  }

  lemma OwnersApart(fs: Fs, n: nat, m: nat)
    requires Inv(fs) && n in Owners(fs) && m in Owners(fs) && n != m
    ensures n in fs.disk && m in fs.disk && FileSystem.OnDevice(fs, fs.disk[n]) && FileSystem.OnDevice(fs, fs.disk[m])
    ensures m !in Data(fs.disk[n]) && n !in Data(fs.disk[n]) && Data(fs.disk[m]) !! Data(fs.disk[n])
  {
    hide OpenOk, DirOk, Named, Opened;
    assert Extent(fs.disk[n], n) !! Extent(fs.disk[m], m);
  }

  lemma SameFile(fs: Fs, m: nat, d: seq<seq<byte>>, d': seq<seq<byte>>, written: set<nat>)
    requires m in fs.disk && FileSystem.OnDevice(fs, fs.disk[m]) && |d| == |d'| == fs.size
    requires SectorsOk(d) && SectorsOk(d') && Data(fs.disk[m]) !! written
    requires forall s: nat :: s < |d| && s !in written ==> d'[s] == d[s]
    ensures InodeIO.OnDevice(FileAt(fs, m), |d|) && Contents(d', FileAt(fs, m)) == Contents(d, FileAt(fs, m))
  {
    hide Contents;
    SameSectorsSameBytes(d, d', FileAt(fs, m));
  }

  lemma SameSectorsSameBytes(d: seq<seq<byte>>, d': seq<seq<byte>>, ino: Inode)
    requires SectorsOk(d) && SectorsOk(d') && |d'| == |d| && InodeIO.OnDevice(ino, |d|)
    requires forall s :: s in Range(ino.start, BytesToSectors(ino.length)) ==> d'[s] == d[s]
    ensures Contents(d', ino) == Contents(d, ino)
  {
    forall i | 0 <= i < ino.length ensures Contents(d', ino)[i] == Contents(d, ino)[i] {
      var s := ino.start + i / SECTOR;
      assert s in Range(ino.start, BytesToSectors(ino.length));
      assert (ino.start * SECTOR + i) / SECTOR == s;
    }
  }
}
