/** The in-memory side of src/filesys/inode.c: the open_inodes table and
    the operations on open inodes, over the disk as readers see it through
    the buffer cache and over the free map. An open inode is named by its
    sector, which the table holds at most once. */
module Inode {
  import opened Bytes
  import opened Options
  import opened Bitmap
  import opened Block
  import opened FreeMap
  import opened InodeDisk
  import opened InodeFile

  /** struct inode, without its list element and lock. */
  datatype OpenInode = OpenInode(sector: u32, openCnt: nat, removed: bool, denyWriteCnt: nat, data: DiskInode)

  /** Where the handle for sector sits in open_inodes, front first, or -1
      when the sector is not open. */
  function Position(open: seq<OpenInode>, sector: u32): (k: int)
    ensures -1 <= k < |open|
    ensures k >= 0 ==> open[k].sector == sector && forall j :: 0 <= j < k ==> open[j].sector != sector
    ensures k == -1 <==> forall j :: 0 <= j < |open| ==> open[j].sector != sector
  {
    if open == [] then -1
    else if open[0].sector == sector then 0
    else
      var r := Position(open[1..], sector);
      if r == -1 then -1 else r + 1
  }

  /** Every inode on the list is open at most once, by at least one
      opener, with a well-formed record. */
  ghost predicate Listed(open: seq<OpenInode>)
  {
    (forall i, j :: 0 <= i < j < |open| ==> open[i].sector != open[j].sector)
    && forall i :: 0 <= i < |open| ==> open[i].openCnt > 0 && WellFormed(open[i].data)
  }

  /** Taking an inode off the list leaves the others listed. */
  lemma DropListed(open: seq<OpenInode>, k: nat)
    requires Listed(open) && k < |open|
    ensures Listed(open[..k] + open[k + 1..])
  {
    var r := open[..k] + open[k + 1..];
    assert forall i :: 0 <= i < |r| ==> r[i] == if i < k then open[i] else open[i + 1];
  }

  class InodeTable {
    /** fs_device, as read and written through the buffer cache. */
    const disk: Device
    /** The free map's bitmap. */
    const fm: FreeMap
    /** open_inodes, front first. */
    var open: seq<OpenInode>

    /** inode_init, over a device and its free map. */
    constructor Init(dev: Device, freeMap: FreeMap)
      requires dev.Valid() && freeMap.Valid() && |freeMap.bits| == |dev.blocks|
      ensures Valid() && disk == dev && fm == freeMap && open == []
    {
      disk, fm, open := dev, freeMap, [];
    }

    /** The device and the free map agree on the number of sectors. */
    ghost predicate Storage()
      reads disk, fm
    {
      disk.Valid() && fm.Valid() && |fm.bits| == |disk.blocks|
    }

    ghost predicate Valid()
      reads this, disk, fm
    {
      Storage() && Listed(open)
    }

    /** The scan of open_inodes in inode_open. */
    method Lookup(sector: u32) returns (k: int)
      ensures k == Position(open, sector)
    {
      k := 0;
      while k < |open| && open[k].sector != sector
        invariant 0 <= k <= |open|
        invariant forall j :: 0 <= j < k ==> open[j].sector != sector
      {
        k := k + 1;
      }
      if k == |open| {
        k := -1;
      }
    }

    /** inode_open: an inode already open is reopened and the same handle
        returned (reopening a removed inode fails, which inode_open
        ignores); otherwise a handle with one opener, no write denial and
        the record read from sector is pushed on the front. */
    method Open(sector: u32) returns (h: u32)
      requires Valid() && sector < |disk.blocks|
      modifies this
      ensures Valid() && h == sector && Position(open, sector) >= 0
      ensures var k := Position(old(open), sector);
              k >= 0 ==> open == old(open)[k := if old(open)[k].removed then old(open)[k]
                                                else old(open)[k].(openCnt := old(open)[k].openCnt + 1)]
      ensures Position(old(open), sector) == -1 ==>
                open == [OpenInode(sector, 1, false, 0, DecodeInode(disk.blocks[sector]))] + old(open)
    {
      var k := Lookup(sector);
      h := sector;
      if k >= 0 {
        var r := Reopen(Some(sector));
        assert open[k].sector == sector;
        return;
      }
      open := [OpenInode(sector, 1, false, 0, DecodeInode(disk.blocks[sector]))] + open;
      assert open[0].sector == sector;
    }

    /** inode_reopen: null stays null, a removed inode gives null, and any
        other gains an opener. */
    method Reopen(h: Option<u32>) returns (r: Option<u32>)
      requires Valid() && (h.Some? ==> Position(open, h.value) >= 0)
      modifies this
      ensures Valid()
      ensures h.None? ==> r.None? && open == old(open)
      ensures h.Some? ==>
                var k := Position(old(open), h.value);
                if old(open)[k].removed then r.None? && open == old(open)
                else r == h && open == old(open)[k := old(open)[k].(openCnt := old(open)[k].openCnt + 1)]
    {
      if h.None? {
        return None;
      }
      var k := Lookup(h.value);
      if open[k].removed {
        return None;
      }
      open := open[k := open[k].(openCnt := open[k].openCnt + 1)];
      r := h;
    }

    /** inode_remove: only the removed flag changes. */
    method Remove(h: u32)
      requires Valid() && Position(open, h) >= 0
      modifies this
      ensures Valid()
      ensures open == old(open)[Position(old(open), h) := old(open)[Position(old(open), h)].(removed := true)]
    {
      var k := Lookup(h);
      open := open[k := open[k].(removed := true)];
    }

    /** inode_close: one opener fewer. The last closer takes the inode off
        the open list and, when it was removed, hands back every sector the
        inode owns and no other. Closing no inode does nothing. */
    method Close(h: Option<u32>)
      requires Valid() && (h.Some? ==> Position(open, h.value) >= 0)
      requires h.Some? ==>
                 var e := open[Position(open, h.value)];
                 e.openCnt == 1 && e.removed ==>
                   Tree(e.data, disk.blocks, fm.bits, h.value) && Trimmed(e.data, disk.blocks, e.data.length as nat)
      modifies this, fm
      ensures Valid()
      ensures h.None? ==> open == old(open) && fm.bits == old(fm.bits)
      ensures h.Some? ==>
                var k := Position(old(open), h.value);
                var e := old(open)[k];
                if e.openCnt > 1 then
                  open == old(open)[k := e.(openCnt := e.openCnt - 1)] && fm.bits == old(fm.bits)
                else
                  open == old(open)[..k] + old(open)[k + 1..]
                  && (!e.removed ==> fm.bits == old(fm.bits))
                  && (e.removed ==> forall x :: 0 <= x < |fm.bits| ==>
                                      fm.bits[x] == (old(fm.bits)[x] && !Owns(e.data, disk.blocks, h.value, x)))
    {
      if h.None? {
        return;
      }
      var k := Lookup(h.value);
      var e := open[k];
      if e.openCnt > 1 {
        open := open[k := e.(openCnt := e.openCnt - 1)];
      } else {
        DropListed(open, k);
        open := open[..k] + open[k + 1..];
        if e.removed {
          Free(e.data, h.value);
        }
      }
    }

    /** The removal branch of inode_close: release the data sector of every
        block below the length, then the second-level index sectors the
        double-indirect sector lists, the double- and single-indirect
        sectors, and last the record's sector. A hole is skipped, not
        released. */
    method Free(d: DiskInode, isector: u32)
      requires Storage() && Tree(d, disk.blocks, fm.bits, isector) && Trimmed(d, disk.blocks, d.length as nat)
      modifies fm
      ensures Storage()
      ensures forall x :: 0 <= x < |fm.bits| ==> fm.bits[x] == (old(fm.bits)[x] && !Owns(d, disk.blocks, isector, x))
    {
      ghost var b0 := fm.bits;
      ghost var r := Released(d, disk.blocks, isector);
      ghost var n := SectorsOf(d.length as nat);
      ReleasedOwned(d, disk.blocks, fm.bits, isector);
      ReleasedIndex(d, disk.blocks, isector);
      FreeData(d, b0, r, isector);
      FreeIndex(d, b0, r, isector);
      ClearStep(fm.bits, b0, r, n + SECTOR_CAPACITY + 1);
      if d.single != SENTINEL {
        fm.Release(d.single);
      }
      ClearStep(fm.bits, b0, r, n + SECTOR_CAPACITY + 2);
      fm.Release(isector);
      assert r[..|r|] == r;
      ReleasedAll(d, disk.blocks, b0, isector);
    }

    /** The first loop of inode_close's removal branch: the data sector of
        every block below the length. */
    method FreeData(d: DiskInode, ghost b0: seq<bool>, ghost r: seq<u32>, ghost isector: u32)
      requires fm.Valid() && fm.bits == b0 && Readable(d, disk.blocks) && d.length as nat <= MAX_LENGTH
      requires r == Released(d, disk.blocks, isector) && Releasable(r, b0)
      modifies fm
      ensures fm.Valid() && Cleared(fm.bits, b0, r[..SectorsOf(d.length as nat)])
    {
      ghost var n := SectorsOf(d.length as nat);
      ReleasedIndex(d, disk.blocks, isector);
      assert Cleared(fm.bits, b0, r[..0]);
      var i: nat := 0;
      ghost var j: nat := 0;
      while i < d.length as nat
        invariant i == j * BLOCK_SECTOR_SIZE && j <= n
        invariant fm.Valid() && Cleared(fm.bits, b0, r[..j])
      {
        BlockBelow(j, d.length as nat);
        var s := ByteToSector(d, disk.blocks, i);
        assert s == r[j];
        ClearStep(fm.bits, b0, r, j);
        if s != SENTINEL {
          fm.Release(s);
        }
        i, j := i + BLOCK_SECTOR_SIZE, j + 1;
      }
      BlockBelow(j, d.length as nat);
    }

    /** The double-indirect part of inode_close's removal branch: every
        second-level sector it lists, then the double-indirect sector. */
    method FreeIndex(d: DiskInode, ghost b0: seq<bool>, ghost r: seq<u32>, ghost isector: u32)
      requires fm.Valid() && |b0| <= SENTINEL && Readable(d, disk.blocks) && d.length as nat <= MAX_LENGTH
      requires r == Released(d, disk.blocks, isector) && Releasable(r, b0)
      requires Cleared(fm.bits, b0, r[..SectorsOf(d.length as nat)])
      modifies fm
      ensures fm.Valid() && Cleared(fm.bits, b0, r[..SectorsOf(d.length as nat) + SECTOR_CAPACITY + 1])
    {
      ghost var n := SectorsOf(d.length as nat);
      ReleasedIndex(d, disk.blocks, isector);
      if d.double != SENTINEL {
        FreeSecond(d, b0, r, isector);
        ClearStep(fm.bits, b0, r, n + SECTOR_CAPACITY);
        fm.Release(d.double);
      } else {
        ClearSkip(fm.bits, b0, r, n, n + SECTOR_CAPACITY + 1);
      }
    }

    /** The loop over the second-level sectors the double-indirect sector
        lists; an empty slot is skipped. */
    method FreeSecond(d: DiskInode, ghost b0: seq<bool>, ghost r: seq<u32>, ghost isector: u32)
      requires fm.Valid() && |b0| <= SENTINEL && Readable(d, disk.blocks) && d.length as nat <= MAX_LENGTH
      requires d.double != SENTINEL && r == Released(d, disk.blocks, isector) && Releasable(r, b0)
      requires Cleared(fm.bits, b0, r[..SectorsOf(d.length as nat)])
      modifies fm
      ensures fm.Valid() && Cleared(fm.bits, b0, r[..SectorsOf(d.length as nat) + SECTOR_CAPACITY])
    {
      ghost var n := SectorsOf(d.length as nat);
      ReleasedIndex(d, disk.blocks, isector);
      var o := 0;
      while o < SECTOR_CAPACITY
        invariant o <= SECTOR_CAPACITY && fm.Valid() && Cleared(fm.bits, b0, r[..n + o])
      {
        var u := Word(disk.blocks[d.double], o);
        assert u == r[n + o];
        ClearStep(fm.bits, b0, r, n + o);
        if u != SENTINEL {
          fm.Release(u);
        }
        o := o + 1;
      }
    }

    /** inode_deny_write: one more denial, never more than the openers. */
    method DenyWrite(h: u32)
      requires Valid() && Position(open, h) >= 0
      requires open[Position(open, h)].denyWriteCnt + 1 <= open[Position(open, h)].openCnt
      modifies this
      ensures Valid()
      ensures var k := Position(old(open), h);
              open == old(open)[k := old(open)[k].(denyWriteCnt := old(open)[k].denyWriteCnt + 1)]
    {
      var k := Lookup(h);
      open := open[k := open[k].(denyWriteCnt := open[k].denyWriteCnt + 1)];
    }

    /** inode_allow_write: one denial fewer; there must be one, and no more
        than the openers. */
    method AllowWrite(h: u32)
      requires Valid() && Position(open, h) >= 0
      requires 0 < open[Position(open, h)].denyWriteCnt <= open[Position(open, h)].openCnt
      modifies this
      ensures Valid()
      ensures var k := Position(old(open), h);
              open == old(open)[k := old(open)[k].(denyWriteCnt := old(open)[k].denyWriteCnt - 1)]
    {
      var k := Lookup(h);
      open := open[k := open[k].(denyWriteCnt := open[k].denyWriteCnt - 1)];
    }

    /** inode_get_inumber: the sector, or -1 for a null handle. */
    function GetInumber(h: Option<u32>): u32
    {
      if h.None? then SENTINEL else h.value
    }

    /** inode_length. */
    function Length(h: u32): u32
      reads this
      requires Position(open, h) >= 0
    {
      open[Position(open, h)].data.length
    }

    /** inode_get_parent. */
    function GetParent(h: u32): u32
      reads this
      requires Position(open, h) >= 0
    {
      open[Position(open, h)].data.parent
    }

    /** inode_read_at: the file's bytes from offset on, as many as asked
        for and as the file holds below its length; a hole reads as zeros. */
    method ReadAt(h: u32, size: int, offset: nat) returns (bytes: seq<byte>)
      requires Valid() && Position(open, h) >= 0
      requires Mapped(open[Position(open, h)].data, disk.blocks)
      requires open[Position(open, h)].data.length as nat <= MAX_LENGTH
      ensures var len := open[Position(open, h)].data.length as nat;
              |bytes| == if size <= 0 || len <= offset then 0 else if size < len - offset then size else len - offset
      ensures forall j :: 0 <= j < |bytes| ==> bytes[j] == Content(open[Position(open, h)].data, disk.blocks, offset + j)
    {
      var k := Lookup(h);
      var d := open[k].data;
      var blocks := disk.blocks;
      ghost var len := d.length as nat;
      bytes := [];
      var off := offset;
      var remaining := size;
      while remaining > 0
        invariant off == offset + |bytes| && remaining == size - |bytes|
        invariant |bytes| == 0 || (off <= len && |bytes| <= size)
        invariant forall j :: 0 <= j < |bytes| ==> bytes[j] == Content(d, blocks, offset + j)
      {
        var sec := ByteToSector(d, blocks, off);
        var ofs := off % BLOCK_SECTOR_SIZE;
        var inodeLeft := d.length as int - off;
        var sectorLeft := BLOCK_SECTOR_SIZE - ofs;
        var minLeft := if inodeLeft < sectorLeft then inodeLeft else sectorLeft;
        var chunk := if remaining < minLeft then remaining else minLeft;
        if chunk <= 0 {
          break;
        }
        ChunkContent(d, blocks, off, chunk);
        ghost var before := bytes;
        if sec == SENTINEL {
          bytes := bytes + Zeros(chunk);
        } else {
          bytes := bytes + blocks[sec][ofs..ofs + chunk];
        }
        forall j | |before| <= j < |bytes| ensures bytes[j] == Content(d, blocks, offset + j) {
          assert off <= offset + j < off + chunk;
        }
        remaining := remaining - chunk;
        off := off + chunk;
      }
    }

    /** inode_write_at: nothing when writes are denied. Otherwise data is
        written from offset on, the file extended block by block where it
        has none, until all of it is written or an extension fails for want
        of free sectors. The length grows to where the write ended if that
        lies past it, and the record on disk follows the in-memory one
        whenever that changed. No other open inode changes. */
    method WriteAt(h: u32, data: seq<byte>, offset: nat) returns (written: nat)
      requires Valid() && Position(open, h) >= 0
      requires Tree(open[Position(open, h)].data, disk.blocks, fm.bits, h)
      requires offset + |data| <= MAX_LENGTH
      modifies this, disk, fm
      ensures Valid()
      ensures var e := old(open)[Position(old(open), h)];
              e.denyWriteCnt > 0 ==>
                written == 0 && open == old(open) && disk.blocks == old(disk.blocks) && fm.bits == old(fm.bits)
      ensures |open| == |old(open)|
      ensures var k := Position(old(open), h);
              var e := old(open)[k];
              var d := open[k].data;
              e.denyWriteCnt == 0 ==>
                open == old(open)[k := e.(data := d)]
                && Tree(d, disk.blocks, fm.bits, h) && written <= |data|
                && d.length as nat == (if offset + written > e.data.length as nat then offset + written else e.data.length as nat)
                && Written(e.data, old(disk.blocks), d, disk.blocks, data, offset, written)
                && (Trimmed(e.data, old(disk.blocks), e.data.length as nat) ==> Trimmed(d, disk.blocks, d.length as nat))
                && (d != e.data ==> disk.blocks[h] == EncodeInode(d))
                && (written < |data| ==> |fm.bits| - Count(fm.bits) < 3)
    {
      var k := Lookup(h);
      if open[k].denyWriteCnt > 0 {
        return 0;
      }
      ghost var d0, b0 := open[k].data, disk.blocks;
      var d;
      d, written := WriteChunks(open[k].data, h, data, offset);
      var off := offset + written;
      if off > d.length as nat {
        ghost var d1, b1 := d, disk.blocks;
        SetLength(d, disk.blocks, fm.bits, h, off as u32);
        d := d.(length := off as u32);
        disk.blocks := disk.blocks[h := EncodeInode(d)];
        WrittenSame(d0, b0, d1, b1, d, disk.blocks, data, offset, written);
      }
      open := open[k := open[k].(data := d)];
    }

    /** The loop of inode_write_at, on the in-memory record d: one chunk
        per pass until data is written or a pass fails. */
    method WriteChunks(d0: DiskInode, h: u32, data: seq<byte>, offset: nat) returns (d: DiskInode, written: nat)
      requires Valid() && Tree(d0, disk.blocks, fm.bits, h) && offset + |data| <= MAX_LENGTH
      modifies disk, fm
      ensures Valid() && Tree(d, disk.blocks, fm.bits, h) && written <= |data|
      ensures d.length == d0.length && d.parent == d0.parent && d.magic == d0.magic
      ensures Written(d0, old(disk.blocks), d, disk.blocks, data, offset, written)
      ensures Trimmed(d0, old(disk.blocks), d0.length as nat) ==>
                Trimmed(d, disk.blocks, if offset + written > d0.length as nat then offset + written else d0.length as nat)
      ensures d != d0 ==> disk.blocks[h] == EncodeInode(d)
      ensures written < |data| ==> |fm.bits| - Count(fm.bits) < 3
    {
      ghost var b0 := disk.blocks;
      ghost var trimmed := Trimmed(d0, b0, d0.length as nat);
      TreeMapped(d0, disk.blocks, fm.bits, h);
      d, written := d0, 0;
      var ok := true;
      while ok && written < |data|
        invariant Valid() && Tree(d, disk.blocks, fm.bits, h) && written <= |data|
        invariant d.length == d0.length && d.parent == d0.parent && d.magic == d0.magic
        invariant Written(d0, b0, d, disk.blocks, data, offset, written)
        invariant trimmed ==> Trimmed(d, disk.blocks, if offset + written > d0.length as nat then offset + written else d0.length as nat)
        invariant d != d0 ==> disk.blocks[h] == EncodeInode(d)
        invariant !ok ==> |fm.bits| - Count(fm.bits) < 3
        decreases |data| - written, ok
      {
        var d2, c;
        ok, d2, c := WriteStep(d0, b0, d, h, data, offset, written, trimmed);
        d := d2;
        if ok {
          written := written + c;
        }
      }
    }

    /** One pass of inode_write_at's loop at byte offset + i: find the
        sector, extending the file when it has none there, and write the
        part of data that fits in it. */
    method WriteStep(ghost d0: DiskInode, ghost b0: seq<seq<byte>>, d: DiskInode, h: u32, data: seq<byte>,
                     offset: nat, i: nat, ghost trimmed: bool) returns (ok: bool, d2: DiskInode, c: nat)
      requires Valid() && Tree(d, disk.blocks, fm.bits, h) && i < |data| && offset + |data| <= MAX_LENGTH
      requires Written(d0, b0, d, disk.blocks, data, offset, i)
      requires trimmed ==> Trimmed(d, disk.blocks, if offset + i > d.length as nat then offset + i else d.length as nat)
      modifies disk, fm
      ensures Valid() && Tree(d2, disk.blocks, fm.bits, h)
      ensures d2.length == d.length && d2.parent == d.parent && d2.magic == d.magic
      ensures disk.blocks[h] == EncodeInode(d2) || (d2 == d && disk.blocks[h] == old(disk.blocks)[h])
      ensures ok ==> 0 < c && i + c <= |data| && Written(d0, b0, d2, disk.blocks, data, offset, i + c)
      ensures ok && trimmed ==>
                Trimmed(d2, disk.blocks, if offset + i + c > d.length as nat then offset + i + c else d.length as nat)
      ensures !ok ==> d2 == d && disk.blocks == old(disk.blocks) && fm.bits == old(fm.bits) && |fm.bits| - Count(fm.bits) < 3
    {
      var off := offset + i;
      var ofs := off % BLOCK_SECTOR_SIZE;
      var sectorLeft := BLOCK_SECTOR_SIZE - ofs;
      c := if |data| - i < sectorLeft then |data| - i else sectorLeft;
      ghost var len := if off + c > d.length as nat then off + c else d.length as nat;
      var sec;
      ok, d2, sec := Place(d, h, off, trimmed, if off > d.length as nat then off else d.length as nat, len);
      if ok {
        ghost var b1 := disk.blocks;
        WrittenSame(d0, b0, d, old(disk.blocks), d2, b1, data, offset, i);
        Store(d2, h, off, sec, data[i..i + c]);
        ChunkWritten(d0, b0, d2, b1, d2, disk.blocks, data, offset, i, c);
      }
    }

    /** The cache_write of one chunk into the data sector sec holding byte
        off: the file then reads src from off on, and the same elsewhere. */
    method Store(d: DiskInode, h: u32, off: nat, sec: u32, src: seq<byte>)
      requires Valid() && Tree(d, disk.blocks, fm.bits, h) && Mapped(d, disk.blocks)
      requires off < MAX_LENGTH && off % BLOCK_SECTOR_SIZE + |src| <= BLOCK_SECTOR_SIZE
      requires sec == GetSector(d, disk.blocks, off) && sec != SENTINEL
      modifies disk
      ensures Valid() && Tree(d, disk.blocks, fm.bits, h) && Mapped(d, disk.blocks)
      ensures disk.blocks[h] == old(disk.blocks)[h]
      ensures forall j :: 0 <= j < INODE_MAX_SECTOR ==> BlockAt(d, disk.blocks, j) == BlockAt(d, old(disk.blocks), j)
      ensures forall pos :: 0 <= pos < MAX_LENGTH ==>
                Content(d, disk.blocks, pos) == if off <= pos < off + |src| then src[pos - off] else Content(d, old(disk.blocks), pos)
    {
      WriteChunk(d, disk.blocks, fm.bits, h, off, src);
      disk.blocks := disk.blocks[sec := Splice(disk.blocks[sec], off % BLOCK_SECTOR_SIZE, src)];
    }

    /** The sector inode_write_at writes byte off into: get_sector's, or,
        when there is none, a fresh one extend_inode adds. The file reads
        as before, and a length bound holds as long as off lies below it. */
    method Place(d: DiskInode, h: u32, off: nat, ghost trimmed: bool, ghost len: nat, ghost len2: nat)
      returns (ok: bool, d2: DiskInode, sec: u32)
      requires Valid() && Tree(d, disk.blocks, fm.bits, h) && off < MAX_LENGTH
      requires trimmed ==> Trimmed(d, disk.blocks, len) && len <= len2 && off < len2
      modifies disk, fm
      ensures Valid() && Tree(d2, disk.blocks, fm.bits, h)
      ensures d2.length == d.length && d2.parent == d.parent && d2.magic == d.magic
      ensures disk.blocks[h] == EncodeInode(d2) || (d2 == d && disk.blocks[h] == old(disk.blocks)[h])
      ensures ok ==> Mapped(d, old(disk.blocks)) && Mapped(d2, disk.blocks) && sec == GetSector(d2, disk.blocks, off) && sec != SENTINEL
      ensures ok ==> forall pos :: 0 <= pos < MAX_LENGTH ==> Content(d2, disk.blocks, pos) == Content(d, old(disk.blocks), pos)
      ensures ok && trimmed ==> Trimmed(d2, disk.blocks, len2)
      ensures !ok ==> d2 == d && disk.blocks == old(disk.blocks) && fm.bits == old(fm.bits) && |fm.bits| - Count(fm.bits) < 3
    {
      TreeMapped(d, disk.blocks, fm.bits, h);
      sec := GetSector(d, disk.blocks, off);
      d2, ok := d, true;
      if trimmed {
        assert off / BLOCK_SECTOR_SIZE < SectorsOf(len2);
      }
      if sec == SENTINEL {
        ghost var b1, bits1 := disk.blocks, fm.bits;
        ok, d2, sec := Extend(d, h, off);
        if ok && trimmed {
          forall j | SectorsOf(len2) <= j < INODE_MAX_SECTOR ensures BlockAt(d2, disk.blocks, j) == SENTINEL {
            assert SectorsOf(len) <= j;
          }
        }
      } else if trimmed {
        TrimmedMono(d, disk.blocks, len, len2);
      }
    }

    /** inode_create: a record of the given length and parent, with the
        block of every 512-byte step below the length extended in turn
        (a failed extension is ignored and leaves a hole), written to
        sector. It always succeeds; the file reads as zeros and no block
        lies past its length. The sectors newly in use are exactly those
        the new inode owns besides its record's, none of which was in use
        before; the first block is allocated whenever a sector was free;
        and no other sector in use changes. */
    method Create(sector: u32, length: nat, parent: u32) returns (success: bool, ghost d: DiskInode)
      requires Valid() && sector < |disk.blocks| && fm.bits[sector] && sector != SENTINEL
      requires length <= MAX_LENGTH
      modifies disk, fm
      ensures Valid() && success
      ensures Tree(d, disk.blocks, fm.bits, sector) && Trimmed(d, disk.blocks, length) && AllZero(d, disk.blocks)
      ensures d.length as nat == length && d.parent == parent && d.magic == INODE_MAGIC
      ensures disk.blocks[sector] == EncodeInode(d)
      ensures |fm.bits| == |old(fm.bits)|
      ensures forall x :: 0 <= x < |fm.bits| ==>
                fm.bits[x] == (old(fm.bits)[x] || (x != sector && Owns(d, disk.blocks, sector, x)))
      ensures forall x :: 0 <= x < |fm.bits| && x != sector && Owns(d, disk.blocks, sector, x) ==> !old(fm.bits)[x]
      ensures length > 0 && Count(old(fm.bits)) < |fm.bits| ==> BlockAt(d, disk.blocks, 0) != SENTINEL
      ensures length == 0 ==> fm.bits == old(fm.bits)
      ensures forall x :: 0 <= x < |old(disk.blocks)| && old(fm.bits)[x] && x != sector ==>
                disk.blocks[x] == old(disk.blocks)[x]
    {
      ghost var b0, bits0 := disk.blocks, fm.bits;
      var record := NewRecord(length as u32, parent);
      NewRecordTree(length as u32, parent, disk.blocks, fm.bits, sector);
      ghost var e := Pointers(record, b0);
      AddsNone(bits0, e);
      ghost var i;
      record, i := Grow(record, sector, length, bits0, b0, e);
      ghost var b1 := disk.blocks;
      RecordWriteZero(record, disk.blocks, fm.bits, sector, length, EncodeInode(record));
      disk.blocks := disk.blocks[sector := EncodeInode(record)];
      d := record;
      FilledOwns(bits0, b0, e, d, b1, fm.bits, sector, i, disk.blocks);
      success := true;
    }

    /** inode_create's loop: the block of every 512-byte step below the
        length is extended in turn, starting from a record with no block. */
    method Grow(record0: DiskInode, sector: u32, length: nat, ghost bits0: seq<bool>, ghost b0: seq<seq<byte>>,
                ghost e: seq<u32>) returns (record: DiskInode, ghost i: nat)
      requires Valid() && length <= MAX_LENGTH && record0.length as nat == length
      requires Building(record0, disk.blocks, fm.bits, sector, 0)
      requires Filled(bits0, b0, e, record0, disk.blocks, fm.bits, sector, 0)
      modifies disk, fm
      ensures Valid() && Building(record, disk.blocks, fm.bits, sector, length)
      ensures record.length == record0.length && record.parent == record0.parent && record.magic == record0.magic
      ensures Filled(bits0, b0, e, record, disk.blocks, fm.bits, sector, i) && (i == 0 <==> length == 0)
    {
      record, i := record0, 0;
      var pos := 0;
      while pos < length
        invariant Valid() && pos % BLOCK_SECTOR_SIZE == 0 && pos < length + BLOCK_SECTOR_SIZE && i == pos
        invariant record.length == record0.length && record.parent == record0.parent && record.magic == record0.magic
        invariant Building(record, disk.blocks, fm.bits, sector, pos)
        invariant Filled(bits0, b0, e, record, disk.blocks, fm.bits, sector, pos)
      {
        record := CreateStep(record, sector, pos, bits0, b0, e);
        pos := pos + BLOCK_SECTOR_SIZE;
        i := pos;
      }
      LoopEnd(pos, length);
    }

    /** One step of inode_create's loop: the block of byte i is extended,
        and a failure is ignored. */
    method CreateStep(record: DiskInode, sector: u32, i: nat, ghost bits0: seq<bool>, ghost b0: seq<seq<byte>>,
                      ghost e: seq<u32>) returns (record2: DiskInode)
      requires Valid() && i < MAX_LENGTH && i % BLOCK_SECTOR_SIZE == 0
      requires Building(record, disk.blocks, fm.bits, sector, i)
      requires Filled(bits0, b0, e, record, disk.blocks, fm.bits, sector, i)
      modifies disk, fm
      ensures Valid() && Building(record2, disk.blocks, fm.bits, sector, i + BLOCK_SECTOR_SIZE)
      ensures record2.length == record.length && record2.parent == record.parent && record2.magic == record.magic
      ensures Filled(bits0, b0, e, record2, disk.blocks, fm.bits, sector, i + BLOCK_SECTOR_SIZE)
    {
      ghost var b1, bits1 := disk.blocks, fm.bits;
      assert SectorsOf(i) == i / BLOCK_SECTOR_SIZE;
      var ok, grown, s := Extend(record, sector, i);
      if ok {
        GrownStep(record, b1, bits1, sector, i, grown, disk.blocks, fm.bits, s);
        FilledGrown(bits0, b0, e, record, b1, bits1, sector, i, grown, disk.blocks, fm.bits, s);
        record2 := grown;
      } else {
        TrimmedMono(record, disk.blocks, i, i + BLOCK_SECTOR_SIZE);
        FilledSame(bits0, b0, e, record, disk.blocks, fm.bits, sector, i);
        record2 := record;
      }
    }

    /** extend_inode for a direct block: free_map_allocate (1, &s). It
        fails exactly when every sector is in use, and changes nothing then. */
    method ExtendDirect() returns (ok: bool, s: u32)
      requires fm.Valid()
      modifies fm
      ensures fm.Valid() && |fm.bits| == |old(fm.bits)|
      ensures ok ==> s < |fm.bits| && !old(fm.bits)[s] && fm.bits == old(fm.bits)[s := true]
      ensures !ok ==> fm.bits == old(fm.bits) && Count(fm.bits) == |fm.bits|
    {
      ghost var bits0 := fm.bits;
      s := fm.Allocate();
      ok := s != SENTINEL;
      if !ok {
        AllSetCount(bits0);
      }
    }

    /** extend_inode in the single-indirect range, with the failure path
        corrected: a single-indirect sector t allocated by this call is
        released again when the data sector s cannot be had, and the
        caller's record does not take t. */
    method ExtendSingle(single: u32, i: nat) returns (ok: bool, t: u32, s: u32)
      requires Storage() && i < SECTOR_CAPACITY && (single != SENTINEL ==> single < |disk.blocks|)
      modifies disk, fm
      ensures Storage() && |disk.blocks| == |old(disk.blocks)|
      ensures ok ==> s < |fm.bits| && !old(fm.bits)[s]
      ensures ok && single == SENTINEL ==>
                t < |fm.bits| && !old(fm.bits)[t] && s != t
                && fm.bits == old(fm.bits)[t := true][s := true]
                && disk.blocks == old(disk.blocks)[t := SetWord(Fill(), i, s)]
      ensures ok && single != SENTINEL ==>
                t == single && fm.bits == old(fm.bits)[s := true]
                && disk.blocks == old(disk.blocks)[t := SetWord(old(disk.blocks)[t], i, s)]
      ensures !ok ==> disk.blocks == old(disk.blocks) && fm.bits == old(fm.bits)
      ensures !ok ==> |fm.bits| - Count(fm.bits) < if single == SENTINEL then 2 else 1
    {
      ghost var bits0 := fm.bits;
      t, s := single, SENTINEL;
      if single == SENTINEL {
        ok, t := ExtendDirect();
        if ok {
          CountSet(bits0, t, true);
          ok, s := LinkData(t, Fill(), i);
          if !ok {
            fm.Release(t);
            assert fm.bits == bits0;
          }
        }
      } else {
        ok, s := LinkData(t, disk.blocks[t], i);
      }
    }

    /** The step every indexed path of extend_inode ends with: a data sector
        is allocated and the index sector t, whose contents are buf, is
        written with the data sector at slot i. */
    method LinkData(t: u32, buf: seq<byte>, i: nat) returns (ok: bool, s: u32)
      requires Storage() && t < |disk.blocks| && |buf| == BLOCK_SECTOR_SIZE && i < SECTOR_CAPACITY
      modifies disk, fm
      ensures Storage() && |disk.blocks| == |old(disk.blocks)|
      ensures ok ==> s < |fm.bits| && !old(fm.bits)[s] && fm.bits == old(fm.bits)[s := true]
                     && disk.blocks == old(disk.blocks)[t := SetWord(buf, i, s)]
      ensures !ok ==> disk.blocks == old(disk.blocks) && fm.bits == old(fm.bits) && Count(fm.bits) == |fm.bits|
    {
      ok, s := ExtendDirect();
      if ok {
        disk.blocks := disk.blocks[t := SetWord(buf, i, s)];
      }
    }

    /** extend_inode in the double-indirect range, with the failure path
        corrected: index sectors allocated by this call are released again
        when a later allocation fails, and the caller's record does not take
        them. */
    method ExtendDouble(double: u32, o: nat, i: nat) returns (ok: bool, t: u32, u: u32, s: u32)
      requires Storage() && o < SECTOR_CAPACITY && i < SECTOR_CAPACITY
      requires double != SENTINEL ==>
                 (double < |disk.blocks| && fm.bits[double] && (Word(disk.blocks[double], o) != SENTINEL ==> Word(disk.blocks[double], o) < |disk.blocks|))
      modifies disk, fm
      ensures Storage() && |disk.blocks| == |old(disk.blocks)|
      ensures ok ==> s < |fm.bits| && !old(fm.bits)[s]
      ensures ok && double == SENTINEL ==>
                t < |fm.bits| && !old(fm.bits)[t] && u < |fm.bits| && !old(fm.bits)[u] && u != t && s != t && s != u
                && fm.bits == old(fm.bits)[t := true][u := true][s := true]
                && disk.blocks == old(disk.blocks)[u := SetWord(Fill(), i, s)][t := SetWord(Fill(), o, u)]
      ensures ok && double != SENTINEL && Word(old(disk.blocks)[double], o) == SENTINEL ==>
                t == double && u < |fm.bits| && !old(fm.bits)[u] && s != u
                && fm.bits == old(fm.bits)[u := true][s := true]
                && disk.blocks == old(disk.blocks)[u := SetWord(Fill(), i, s)][t := SetWord(old(disk.blocks)[t], o, u)]
      ensures ok && double != SENTINEL && Word(old(disk.blocks)[double], o) != SENTINEL ==>
                t == double && u == Word(old(disk.blocks)[double], o) && fm.bits == old(fm.bits)[s := true]
                && disk.blocks == old(disk.blocks)[u := SetWord(old(disk.blocks)[u], i, s)][t := SetWord(old(disk.blocks)[t], o, u)]
      ensures !ok ==> disk.blocks == old(disk.blocks) && fm.bits == old(fm.bits)
      ensures !ok ==> |fm.bits| - Count(fm.bits)
                      < if double == SENTINEL then 3 else if Word(old(disk.blocks)[double], o) == SENTINEL then 2 else 1
    {
      ghost var bits0 := fm.bits;
      t, u, s := double, SENTINEL, SENTINEL;
      if double == SENTINEL {
        ok, t := ExtendDirect();
        if ok {
          CountSet(bits0, t, true);
          ok, u, s := ExtendSecond(t, Fill(), o, i);
          if !ok {
            fm.Release(t);
            assert fm.bits == bits0;
          }
        }
      } else {
        ok, u, s := ExtendSecond(t, disk.blocks[t], o, i);
      }
    }

    /** The second half of extend_inode's double-indirect path, below the
        double-indirect sector t read into top: the second-level sector at
        slot o plays the part a single-indirect sector plays above, and once
        it is written t is written with it linked at slot o. */
    method ExtendSecond(t: u32, top: seq<byte>, o: nat, i: nat) returns (ok: bool, u: u32, s: u32)
      requires Storage() && o < SECTOR_CAPACITY && i < SECTOR_CAPACITY
      requires t < |disk.blocks| && fm.bits[t] && |top| == BLOCK_SECTOR_SIZE
      requires Word(top, o) != SENTINEL ==> Word(top, o) < |disk.blocks|
      modifies disk, fm
      ensures Storage() && |disk.blocks| == |old(disk.blocks)|
      ensures ok ==> s < |fm.bits| && !old(fm.bits)[s]
      ensures ok && Word(top, o) == SENTINEL ==>
                u < |fm.bits| && !old(fm.bits)[u] && s != u
                && fm.bits == old(fm.bits)[u := true][s := true]
                && disk.blocks == old(disk.blocks)[u := SetWord(Fill(), i, s)][t := SetWord(top, o, u)]
      ensures ok && Word(top, o) != SENTINEL ==>
                u == Word(top, o) && fm.bits == old(fm.bits)[s := true]
                && disk.blocks == old(disk.blocks)[u := SetWord(old(disk.blocks)[u], i, s)][t := SetWord(top, o, u)]
      ensures !ok ==> disk.blocks == old(disk.blocks) && fm.bits == old(fm.bits)
      ensures !ok ==> |fm.bits| - Count(fm.bits) < if Word(top, o) == SENTINEL then 2 else 1
    {
      ok, u, s := ExtendSingle(Word(top, o), i);
      if ok {
        disk.blocks := disk.blocks[t := SetWord(top, o, u)];
      }
    }

    /** extend_inode, with its failure paths corrected: the block of byte
        pos, a hole, gets a fresh zero-filled data sector, reached through
        the index sectors it needs, and the record is written to isector.
        It fails exactly when fewer sectors are free than the block needs,
        and then nothing changes. */
    method Extend(d: DiskInode, isector: u32, pos: nat) returns (ok: bool, d2: DiskInode, sector: u32)
      requires Valid() && Tree(d, disk.blocks, fm.bits, isector) && pos < MAX_LENGTH
      requires BlockAt(d, disk.blocks, pos / BLOCK_SECTOR_SIZE) == SENTINEL
      modifies disk, fm
      ensures Valid()
      ensures ok ==> Grown(d, old(disk.blocks), old(fm.bits), isector, pos / BLOCK_SECTOR_SIZE, d2, disk.blocks, fm.bits, sector)
      ensures ok ==> Adds(old(fm.bits), fm.bits, Pointers(d, old(disk.blocks)), Pointers(d2, disk.blocks))
      ensures ok ==> Mapped(d, old(disk.blocks)) && Mapped(d2, disk.blocks)
                     && forall p :: 0 <= p < MAX_LENGTH ==> Content(d2, disk.blocks, p) == Content(d, old(disk.blocks), p)
      ensures !ok ==> disk.blocks == old(disk.blocks) && fm.bits == old(fm.bits) && d2 == d
                      && |fm.bits| - Count(fm.bits) < Needed(d, disk.blocks, pos / BLOCK_SECTOR_SIZE)
    {
      var index := pos / BLOCK_SECTOR_SIZE;
      ghost var b0, bits0 := disk.blocks, fm.bits;
      SlotPartition(index);
      match SlotFor(index) {
        case Direct(i) =>
          ok, d2, sector := StageDirect(d, isector, index, i);
        case Single(i) =>
          ok, d2, sector := StageSingle(d, isector, index, i);
        case Double(o, i) =>
          ok, d2, sector := StageDouble(d, isector, index, o, i);
      }
      if ok {
        Commit(d, b0, bits0, isector, index, d2, sector);
      }
    }

    /** extend_inode up to its final writes, for a block in the direct range. */
    method StageDirect(d: DiskInode, isector: u32, index: nat, i: nat) returns (ok: bool, d2: DiskInode, sector: u32)
      requires Valid() && Tree(d, disk.blocks, fm.bits, isector) && index < INODE_MAX_SECTOR
      requires SlotFor(index) == Direct(i) && BlockAt(d, disk.blocks, index) == SENTINEL
      modifies fm
      ensures Valid()
      ensures ok ==> Staged(d, old(disk.blocks), old(fm.bits), isector, index, d2, disk.blocks, fm.bits, sector)
      ensures ok ==> Adds(old(fm.bits), fm.bits, Pointers(d, old(disk.blocks)), Pointers(d2, disk.blocks))
      ensures !ok ==> fm.bits == old(fm.bits) && d2 == d
                      && |fm.bits| - Count(fm.bits) < Needed(d, disk.blocks, index)
    {
      d2 := d;
      ghost var bits0 := fm.bits;
      ok, sector := ExtendDirect();
      if ok {
        d2 := d.(direct := d.direct[i := sector]);
        DirectStaged(d, disk.blocks, bits0, isector, index, sector, fm.bits);
      }
    }

    /** extend_inode up to its final writes, for a block in the
        single-indirect range. */
    method StageSingle(d: DiskInode, isector: u32, index: nat, i: nat) returns (ok: bool, d2: DiskInode, sector: u32)
      requires Valid() && Tree(d, disk.blocks, fm.bits, isector) && index < INODE_MAX_SECTOR
      requires SlotFor(index) == Single(i) && BlockAt(d, disk.blocks, index) == SENTINEL
      modifies disk, fm
      ensures Valid()
      ensures ok ==> Staged(d, old(disk.blocks), old(fm.bits), isector, index, d2, disk.blocks, fm.bits, sector)
      ensures ok ==> Adds(old(fm.bits), fm.bits, Pointers(d, old(disk.blocks)), Pointers(d2, disk.blocks))
      ensures !ok ==> disk.blocks == old(disk.blocks) && fm.bits == old(fm.bits) && d2 == d
                      && |fm.bits| - Count(fm.bits) < Needed(d, disk.blocks, index)
    {
      d2 := d;
      ghost var b0, bits0 := disk.blocks, fm.bits;
      var t;
      ok, t, sector := ExtendSingle(d.single, i);
      if ok {
        d2 := d.(single := t);
        if d.single == SENTINEL {
          SingleStagedFresh(d, b0, bits0, isector, index, t, sector, disk.blocks, fm.bits);
        } else {
          SingleStaged(d, b0, bits0, isector, index, sector, disk.blocks, fm.bits);
        }
      }
    }

    /** extend_inode up to its final writes, for a block in the
        double-indirect range. */
    method StageDouble(d: DiskInode, isector: u32, index: nat, o: nat, i: nat) returns (ok: bool, d2: DiskInode, sector: u32)
      requires Valid() && Tree(d, disk.blocks, fm.bits, isector) && index < INODE_MAX_SECTOR
      requires SlotFor(index) == Double(o, i) && BlockAt(d, disk.blocks, index) == SENTINEL
      modifies disk, fm
      ensures Valid()
      ensures ok ==> Staged(d, old(disk.blocks), old(fm.bits), isector, index, d2, disk.blocks, fm.bits, sector)
      ensures ok ==> Adds(old(fm.bits), fm.bits, Pointers(d, old(disk.blocks)), Pointers(d2, disk.blocks))
      ensures !ok ==> disk.blocks == old(disk.blocks) && fm.bits == old(fm.bits) && d2 == d
                      && |fm.bits| - Count(fm.bits) < Needed(d, disk.blocks, index)
    {
      d2 := d;
      ghost var b0, bits0 := disk.blocks, fm.bits;
      if d.double != SENTINEL {
        assert Pointers(d, b0)[1] == d.double;
        assert Second(d, b0, o) == Word(b0[d.double], o);
      }
      var t, u;
      ok, t, u, sector := ExtendDouble(d.double, o, i);
      if ok {
        d2 := d.(double := t);
        if d.double == SENTINEL {
          DoubleStagedNew(d, b0, bits0, isector, index, o, i, t, u, sector, disk.blocks, fm.bits);
        } else if Second(d, b0, o) == SENTINEL {
          DoubleStagedSecond(d, b0, bits0, isector, index, o, i, u, sector, disk.blocks, fm.bits);
        } else {
          DoubleStagedLinked(d, b0, bits0, isector, index, o, i, sector, disk.blocks, fm.bits);
        }
      }
    }

    /** The tail of extend_inode: the new data sector is zeroed and the
        record written to its sector. */
    method Commit(ghost d: DiskInode, ghost b0: seq<seq<byte>>, ghost bits0: seq<bool>, isector: nat, ghost index: nat,
                  d2: DiskInode, sector: u32)
      requires Valid() && Tree(d, b0, bits0, isector) && index < INODE_MAX_SECTOR
      requires BlockAt(d, b0, index) == SENTINEL
      requires Staged(d, b0, bits0, isector, index, d2, disk.blocks, fm.bits, sector)
      requires Adds(bits0, fm.bits, Pointers(d, b0), Pointers(d2, disk.blocks))
      modifies disk
      ensures Valid() && fm.bits == old(fm.bits)
      ensures Grown(d, b0, bits0, isector, index, d2, disk.blocks, fm.bits, sector)
      ensures Adds(bits0, fm.bits, Pointers(d, b0), Pointers(d2, disk.blocks))
      ensures Mapped(d, b0) && Mapped(d2, disk.blocks)
      ensures forall pos :: 0 <= pos < MAX_LENGTH ==> Content(d2, disk.blocks, pos) == Content(d, b0, pos)
    {
      CommitContent(d, b0, bits0, isector, index, d2, disk.blocks, fm.bits, sector);
      disk.blocks := disk.blocks[sector := Zeros(BLOCK_SECTOR_SIZE)];
      disk.blocks := disk.blocks[isector := EncodeInode(d2)];
    }
  }
}
