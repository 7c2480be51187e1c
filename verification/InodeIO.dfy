/** byte I/O on an inode's extent (filesys/inode.c): reads and writes are cut at 512-byte
    sectors, whole sectors go straight to the device and partial ones through a bounce buffer
    whose allocation may fail.  The device is specified as one flat array of bytes. */
module InodeIO {
  import opened Options
  import opened Integers
  import opened Bytes

  const SECTOR: nat := 512

  /** What the I/O paths use of struct inode. */
  datatype Inode = Inode(start: nat, length: nat, denyWriteCnt: nat)

  function BytesToSectors(size: nat): (r: nat)
    ensures size <= r * SECTOR < size + SECTOR
  {
    (size + SECTOR - 1) / SECTOR
  }

  /** byte_to_sector, with None for its -1. */
  function ByteToSector(ino: Inode, pos: nat): Option<nat>
  {
    if pos < ino.length then Some(ino.start + pos / SECTOR) else None
  }

  /** Every byte of the file lies in its extent, at its place, and no other position does. */
  lemma ByteInExtent(ino: Inode, pos: nat)
    ensures ByteToSector(ino, pos).Some? <==> pos < ino.length
    ensures pos < ino.length ==>
              var k := ByteToSector(ino, pos).value - ino.start;
              0 <= k < BytesToSectors(ino.length) && k * SECTOR <= pos < k * SECTOR + SECTOR
  {
    DivDef(pos, SECTOR);
  }

  ghost predicate SectorsOk(d: seq<seq<byte>>)
  {
    forall s :: 0 <= s < |d| ==> |d[s]| == SECTOR
  }

  /** byte k of the device. */
  function At(d: seq<seq<byte>>, k: nat): byte
    requires SectorsOk(d) && k < |d| * SECTOR
  {
    d[k / SECTOR][k % SECTOR]
  }

  /** The extent lies on the device. */
  predicate OnDevice(ino: Inode, sectors: nat)
  {
    ino.start + BytesToSectors(ino.length) <= sectors
  }

  lemma ExtentFits(ino: Inode, sectors: nat, pos: nat)
    requires OnDevice(ino, sectors) && pos < ino.length
    ensures ino.start + pos / SECTOR < sectors
    ensures ino.start * SECTOR + ino.length <= sectors * SECTOR
  {}

  /** The file's bytes. */
  ghost function Contents(d: seq<seq<byte>>, ino: Inode): (c: seq<byte>)
    requires SectorsOk(d) && OnDevice(ino, |d|)
    ensures |c| == ino.length
  {
    seq(ino.length, i requires 0 <= i < ino.length =>
      ExtentFits(ino, |d|, i);
      At(d, ino.start * SECTOR + i))
  }

  /** Bytes a request can move: up to end of file. */
  function Available(ino: Inode, size: int, offset: nat): nat
  {
    var left := ino.length - offset;
    var n := if size < left then size else left;
    if n < 0 then 0 else n
  }

  /** Bytes a request does move.  Without a bounce buffer only the leading whole sectors of a
      sector-aligned request get through. */
  function Moved(ino: Inode, size: int, offset: nat, bounceOk: bool): (n: nat)
    ensures n <= Available(ino, size, offset)
  {
    var n := Available(ino, size, offset);
    if bounceOk then n else if offset % SECTOR != 0 then 0 else n / SECTOR * SECTOR
  }

  /** One turn of either loop moves the chunk up to the next sector boundary, or nothing. */
  lemma MovedStep(ino: Inode, size: int, offset: nat, bounceOk: bool, chunk: nat)
    requires 0 < chunk && offset + chunk <= ino.length && chunk <= size && chunk <= SECTOR - offset % SECTOR
    requires chunk == size || chunk == ino.length - offset || chunk == SECTOR - offset % SECTOR
    ensures bounceOk || (offset % SECTOR == 0 && chunk == SECTOR) ==>
              Moved(ino, size, offset, bounceOk) == chunk + Moved(ino, size - chunk, offset + chunk, bounceOk)
    ensures !bounceOk && !(offset % SECTOR == 0 && chunk == SECTOR) ==> Moved(ino, size, offset, bounceOk) == 0
  {}

  lemma MovedNothing(ino: Inode, size: int, offset: nat, bounceOk: bool)
    requires size <= 0 || offset >= ino.length
    ensures Moved(ino, size, offset, bounceOk) == 0
  {}

  /** The n bytes from offset, also when n is zero and offset past the end. */
  function Slice(c: seq<byte>, offset: nat, n: nat): seq<byte>
    requires n == 0 || offset + n <= |c|
  {
    if n == 0 then [] else c[offset..offset + n]
  }

  lemma SliceMore(c: seq<byte>, offset: nat, n: nat, chunk: nat)
    requires offset + n + chunk <= |c|
    ensures Slice(c, offset, n) + c[offset + n..offset + n + chunk] == Slice(c, offset, n + chunk)
  {}

  class Device {
    const sectors: array<seq<byte>>

    ghost predicate Valid()
      reads sectors
    {
      SectorsOk(sectors[..])
    }

    /** Read one chunk, inside one sector: directly when it is the whole sector, else by way of
        the bounce buffer. */
    method ReadChunk(ino: Inode, pos: nat, chunk: nat) returns (data: seq<byte>)
      requires Valid() && OnDevice(ino, sectors.Length)
      requires 0 < chunk && pos + chunk <= ino.length && pos % SECTOR + chunk <= SECTOR
      ensures data == Contents(sectors[..], ino)[pos..pos + chunk]
    {
      hide Contents, OnDevice;
      ChunkRead(sectors[..], ino, pos, chunk);
      var ofs, idx := pos % SECTOR, ByteToSector(ino, pos);
      var sector := sectors[idx.value];
      data := if ofs == 0 && chunk == SECTOR then sector else sector[ofs..ofs + chunk];
    }

    /** inode_read_at. */
    method ReadAt(ino: Inode, size: int, offset: nat, bounceOk: bool) returns (buffer: seq<byte>)
      requires Valid() && OnDevice(ino, sectors.Length)
      ensures |buffer| == Moved(ino, size, offset, bounceOk)
      ensures buffer == Slice(Contents(sectors[..], ino), offset, |buffer|)
    {
      hide Moved, Contents, OnDevice;
      buffer := [];
      var left, pos := size, offset;
      ghost var c := Contents(sectors[..], ino);
      assert buffer == Slice(c, offset, 0);
      hide Slice;
      while left > 0
        invariant pos == offset + |buffer| && left == size - |buffer|
        invariant |buffer| == 0 || pos <= ino.length
        invariant buffer == Slice(c, offset, |buffer|)
        invariant |buffer| + Moved(ino, left, pos, bounceOk) == Moved(ino, size, offset, bounceOk)
      {
        var ofs := pos % SECTOR;
        var inodeLeft, sectorLeft := ino.length - pos, SECTOR - ofs;
        var minLeft := if inodeLeft < sectorLeft then inodeLeft else sectorLeft;
        var chunk := if left < minLeft then left else minLeft;
        if chunk <= 0 { break; }
        MovedStep(ino, left, pos, bounceOk, chunk);
        if !(ofs == 0 && chunk == SECTOR) && !bounceOk { break; }
        var data := ReadChunk(ino, pos, chunk);
        SliceMore(c, offset, |buffer|, chunk);
        buffer := buffer + data;
        left, pos := left - chunk, pos + chunk;
      }
      if left <= 0 || pos >= ino.length { MovedNothing(ino, left, pos, bounceOk); }
    }

    /** Write one chunk, inside one sector: directly when it is the whole sector, else by
        reading, patching and rewriting the sector through the bounce buffer. */
    method WriteChunk(ino: Inode, data: seq<byte>, pos: nat)
      requires Valid() && OnDevice(ino, sectors.Length)
      requires data != [] && pos + |data| <= ino.length && pos % SECTOR + |data| <= SECTOR
      modifies sectors
      ensures Valid() && Patched(old(sectors[..]), sectors[..], ino.start * SECTOR + pos, data)
    {
      hide Patched;
      ExtentFits(ino, sectors.Length, pos);
      ghost var before := sectors[..];
      var idx, ofs := ino.start + pos / SECTOR, pos % SECTOR;
      if ofs == 0 && |data| == SECTOR {
        sectors[idx] := data;
      } else {
        var bounce := if ofs > 0 || |data| < SECTOR - ofs then sectors[idx] else ZEROS;
        sectors[idx] := bounce[..ofs] + data + bounce[ofs + |data|..];
      }
      assert sectors[..] == before[idx := sectors[idx]];
      SectorPatched(before, sectors[..], ino, pos, data);
    }

    /** inode_write_at. */
    method WriteAt(ino: Inode, buffer: seq<byte>, size: int, offset: nat, bounceOk: bool) returns (written: nat)
      requires Valid() && OnDevice(ino, sectors.Length) && size <= |buffer|
      modifies sectors
      ensures Valid()
      ensures written == if ino.denyWriteCnt != 0 then 0 else Moved(ino, size, offset, bounceOk)
      ensures written <= |buffer| && Patched(old(sectors[..]), sectors[..], ino.start * SECTOR + offset, buffer[..written])
    {
      hide Moved, Patched, OnDevice;
      written := 0;
      PatchNothing(sectors[..], ino.start * SECTOR + offset);
      if ino.denyWriteCnt != 0 { return; }
      var left, pos := size, offset;
      while left > 0
        invariant Valid() && pos == offset + written && left == size - written && written <= |buffer|
        invariant Patched(old(sectors[..]), sectors[..], ino.start * SECTOR + offset, buffer[..written])
        invariant written + Moved(ino, left, pos, bounceOk) == Moved(ino, size, offset, bounceOk)
      {
        var ofs := pos % SECTOR;
        var inodeLeft, sectorLeft := ino.length - pos, SECTOR - ofs;
        var minLeft := if inodeLeft < sectorLeft then inodeLeft else sectorLeft;
        var chunk := if left < minLeft then left else minLeft;
        if chunk <= 0 { break; }
        MovedStep(ino, left, pos, bounceOk, chunk);
        if !(ofs == 0 && chunk == SECTOR) && !bounceOk { break; }
        var data := buffer[written..written + chunk];
        ghost var before := sectors[..];
        WriteChunk(ino, data, pos);
        PatchMore(old(sectors[..]), before, sectors[..], ino.start * SECTOR + offset, buffer[..written], data);
        assert buffer[..written] + data == buffer[..written + chunk];
        left, pos, written := left - chunk, pos + chunk, written + chunk;
      }
      if left <= 0 || pos >= ino.length { MovedNothing(ino, left, pos, bounceOk); }
    }
  }

  const ZEROS: seq<byte> := seq(SECTOR, _ => 0)

  /** d' is d with `data` written from absolute byte k on; every other byte of the device, in
      this file or any other, is as before. */
  ghost predicate Patched(d: seq<seq<byte>>, d': seq<seq<byte>>, k: nat, data: seq<byte>)
  {
    && SectorsOk(d) && SectorsOk(d') && |d'| == |d|
    && (data == [] || k + |data| <= |d| * SECTOR)
    && forall i :: 0 <= i < |d| * SECTOR ==>
         At(d', i) == if k <= i < k + |data| then data[i - k] else At(d, i)
  }

  lemma PatchNothing(d: seq<seq<byte>>, k: nat)
    requires SectorsOk(d)
    ensures Patched(d, d, k, [])
  {}

  lemma PatchMore(d0: seq<seq<byte>>, d1: seq<seq<byte>>, d2: seq<seq<byte>>, k: nat, a: seq<byte>, b: seq<byte>)
    requires Patched(d0, d1, k, a) && Patched(d1, d2, k + |a|, b) && b != []
    ensures Patched(d0, d2, k, a + b)
  {
    hide At;
  }

  /** Rewriting part of one sector is a patch of the flat device. */
  lemma SectorPatched(d: seq<seq<byte>>, d': seq<seq<byte>>, ino: Inode, pos: nat, data: seq<byte>)
    requires SectorsOk(d) && OnDevice(ino, |d|)
    requires data != [] && pos + |data| <= ino.length && pos % SECTOR + |data| <= SECTOR
    requires var s := ino.start + pos / SECTOR;
             && s < |d| && |d'| == |d| && d' == d[s := d'[s]]
             && d'[s] == d[s][..pos % SECTOR] + data + d[s][pos % SECTOR + |data|..]
    ensures SectorsOk(d') && Patched(d, d', ino.start * SECTOR + pos, data)
  {
    var s, o, k := ino.start + pos / SECTOR, pos % SECTOR, ino.start * SECTOR + pos;
    assert k == s * SECTOR + o;
    forall i | 0 <= i < |d| * SECTOR ensures At(d', i) == if k <= i < k + |data| then data[i - k] else At(d, i) {
      if i / SECTOR == s { assert i % SECTOR == i - s * SECTOR; }
    }
  }

  /** The bytes of one sector's chunk are the file's bytes at that position. */
  lemma ChunkRead(d: seq<seq<byte>>, ino: Inode, pos: nat, chunk: nat)
    requires SectorsOk(d) && OnDevice(ino, |d|)
    requires 0 < chunk && pos + chunk <= ino.length && pos % SECTOR + chunk <= SECTOR
    ensures ino.start + pos / SECTOR < |d|
    ensures d[ino.start + pos / SECTOR][pos % SECTOR..pos % SECTOR + chunk] == Contents(d, ino)[pos..pos + chunk]
    ensures chunk == SECTOR ==> d[ino.start + pos / SECTOR] == Contents(d, ino)[pos..pos + chunk]
  {
    ExtentFits(ino, |d|, pos);
    var s, o, c := ino.start + pos / SECTOR, pos % SECTOR, Contents(d, ino);
    forall k | pos <= k < pos + chunk ensures c[k] == d[s][k - pos + o] {
      ExtentFits(ino, |d|, k);
      ModUnique(ino.start * SECTOR + k, SECTOR, s, k - pos + o);
      assert c[k] == At(d, ino.start * SECTOR + k);
    }
    assert d[s][o..o + chunk] == c[pos..pos + chunk];
  }

  // ----- files as byte sequences

  /** A write is a slice update of the file's bytes... */
  lemma WriteUpdatesSlice(d: seq<seq<byte>>, d': seq<seq<byte>>, ino: Inode, offset: nat, data: seq<byte>)
    requires OnDevice(ino, |d|) && Patched(d, d', ino.start * SECTOR + offset, data)
    requires data == [] || offset + |data| <= ino.length
    ensures Contents(d', ino) ==
            if data == [] then Contents(d, ino)
            else Contents(d, ino)[..offset] + data + Contents(d, ino)[offset + |data|..]
  {
    var c, c' := Contents(d, ino), Contents(d', ino);
    forall i | 0 <= i < ino.length ensures c'[i] == if offset <= i < offset + |data| then data[i - offset] else c[i] {
      ExtentFits(ino, |d|, i);
    }
    if data == [] { assert c' == c; } else { assert c' == c[..offset] + data + c[offset + |data|..]; }
  }

  /** ... that leaves every other extent alone, whole sectors of it and so also the slack after
      its end of file ... */
  lemma WriteLeavesOthers(d: seq<seq<byte>>, d': seq<seq<byte>>, ino: Inode, other: Inode, offset: nat, data: seq<byte>)
    requires OnDevice(ino, |d|) && OnDevice(other, |d|) && Patched(d, d', ino.start * SECTOR + offset, data)
    requires data == [] || offset + |data| <= ino.length
    requires ino.start + BytesToSectors(ino.length) <= other.start || other.start + BytesToSectors(other.length) <= ino.start
    ensures Contents(d', other) == Contents(d, other)
    ensures forall s :: other.start <= s < other.start + BytesToSectors(other.length) ==> d'[s] == d[s]
  {
    forall s | other.start <= s < other.start + BytesToSectors(other.length) ensures d'[s] == d[s] {
      SectorUntouched(d, d', ino.start * SECTOR + offset, data, s);
    }
    var c, c' := Contents(d, other), Contents(d', other);
    forall i | 0 <= i < other.length ensures c'[i] == c[i] {
      ExtentFits(other, |d|, i);
      assert c[i] == At(d, other.start * SECTOR + i) && c'[i] == At(d', other.start * SECTOR + i);
    }
  }

  lemma SectorUntouched(d: seq<seq<byte>>, d': seq<seq<byte>>, k: nat, data: seq<byte>, s: nat)
    requires Patched(d, d', k, data) && s < |d|
    requires data == [] || k + |data| <= s * SECTOR || (s + 1) * SECTOR <= k
    ensures d'[s] == d[s]
  {
    forall o | 0 <= o < SECTOR ensures d'[s][o] == d[s][o] {
      ModUnique(s * SECTOR + o, SECTOR, s, o);
      assert At(d', s * SECTOR + o) == At(d, s * SECTOR + o);
    }
  }

  /** ... and the slack after this file's own end of file. */
  lemma WriteLeavesSlack(d: seq<seq<byte>>, d': seq<seq<byte>>, ino: Inode, offset: nat, data: seq<byte>, k: nat)
    requires Patched(d, d', ino.start * SECTOR + offset, data) && (data == [] || offset + |data| <= ino.length)
    requires ino.start * SECTOR + ino.length <= k < |d| * SECTOR
    ensures At(d', k) == At(d, k)
  {}

  /** Reading back what was written, anywhere inside the written range. */
  lemma ReadAfterWrite(d: seq<seq<byte>>, d': seq<seq<byte>>, ino: Inode, offset: nat, data: seq<byte>, from: nat, n: nat)
    requires OnDevice(ino, |d|) && Patched(d, d', ino.start * SECTOR + offset, data)
    requires data == [] || offset + |data| <= ino.length
    requires offset <= from && from + n <= offset + |data|
    ensures Slice(Contents(d', ino), from, n) == data[from - offset..from - offset + n]
  {
    if n > 0 {
      WriteUpdatesSlice(d, d', ino, offset, data);
      hide Patched, Contents, OnDevice;
      SliceInside(Contents(d, ino)[..offset], data, Contents(d, ino)[offset + |data|..], from, n);
    }
  }

  lemma SliceInside(a: seq<byte>, b: seq<byte>, c: seq<byte>, from: nat, n: nat)
    requires |a| <= from && from + n <= |a| + |b|
    ensures (a + b + c)[from..from + n] == b[from - |a|..from - |a| + n]
  {
  }
}
